/** What an issued section shows: every node the reader is to see, in document order, with its content. */
module DocxContent {
  import opened Text
  import opened SpecTree
  import opened Sorting
  import opened SectionNumber
  import opened Docx
  import SectionRewriting

  /** The types with a numbering level, by level: `LEVEL_NODE_TYPES` of the source. */
  const LEVEL_NODE_TYPES := [Part, Article, Pr1, Pr2, Pr3, Pr4, Pr5, Pr6, Pr7]

  /** The two tables are inverse to each other. */
  lemma LevelsInverse(kind: NodeType, level: nat)
    ensures LevelOf(kind) == Some(level) <==> level < 9 && LEVEL_NODE_TYPES[level] == kind
    ensures LevelOf(kind).None? <==> kind !in LEVEL_NODE_TYPES
  {
    if LevelOf(kind).Some? {
      assert LEVEL_NODE_TYPES[LevelOf(kind).value] == kind;
    }
  }

  // ---------------------------------------------------------------- what is to be seen

  /** Notes are issued even when hidden; of the rest, visible continuations, objects and numbered types. */
  predicate Issued(node: Node) {
    || node.kind == Note
    || (!node.meta.vanish && (node.kind == Continuation || node.kind == Object || node.kind in LEVEL_NODE_TYPES))
  }

  /** All nodes, in document order, but those below hidden nodes other than notes and inside objects. */
  function InReach(nodes: seq<Node>): seq<Node> {
    if nodes == [] then []
    else
      var node := nodes[0];
      var below := node.kind == Note || (!node.meta.vanish && node.kind != Object);
      [node] + (if below then InReach(node.children) else []) + InReach(nodes[1..])
  }

  function IssuedNodes(tree: Tree): seq<Node> {
    Filter(Issued, InReach(tree.parts))
  }

  /** The block is of the node's kind and has its id and its content. */
  predicate Shows(block: Block, node: Node, ctx: SectionContext) {
    if node.kind == Object then
      node.meta.object_.Some? && block == ObjectBlock(node.id, node.meta.object_.value.blob)
    else if node.kind == Note || node.kind == Continuation then
      block == Plain(node.id, SectionRewriting.Rewrite(false, node.text, ctx.format))
    else
      && block.Paragraph? && block.level < 9 && LEVEL_NODE_TYPES[block.level] == node.kind
      && block.id == node.id && block.text == SectionRewriting.Rewrite(false, node.text, ctx.format)
      && block.reference == ctx.reference
  }

  ghost predicate AllShow(blocks: seq<Block>, nodes: seq<Node>, ctx: SectionContext) {
    |blocks| == |nodes| && forall k :: 0 <= k < |nodes| ==> Shows(blocks[k], nodes[k], ctx)
  }

  // ---------------------------------------------------------------- the walk shows it

  lemma AllShowConcat(a: seq<Block>, m: seq<Node>, b: seq<Block>, n: seq<Node>, ctx: SectionContext)
    requires AllShow(a, m, ctx) && AllShow(b, n, ctx)
    ensures AllShow(a + b, m + n, ctx)
  {
    hide Shows;
  }

  lemma EmittedShows(node: Node, ctx: SectionContext)
    requires !Throws(node)
    ensures AllShow(Emitted(node, ctx), Filter(Issued, [node]), ctx)
  {
    if LevelOf(node.kind).Some? {
      LevelsInverse(node.kind, LevelOf(node.kind).value);
    } else {
      LevelsInverse(node.kind, 0);
    }
    hide SectionRewriting.Rewrite, LevelOf;
    assert [node][1..] == [];
    assert Filter(Issued, [node]) == if Issued(node) then [node] else [];
  }

  lemma {:induction false} CollectedShows(nodes: seq<Node>, ctx: SectionContext)
    requires !Fails(nodes)
    ensures AllShow(Collected(nodes, ctx), Filter(Issued, InReach(nodes)), ctx)
    decreases nodes
  {
    if nodes == [] {
      assert AllShow([], [], ctx);
    } else {
      var node := nodes[0];
      var below := if Descends(node) then InReach(node.children) else [];
      var blocks := if Descends(node) then Collected(node.children, ctx) else [];
      EmittedShows(node, ctx);
      if Descends(node) {
        CollectedShows(node.children, ctx);
      }
      CollectedShows(nodes[1..], ctx);
      assert InReach(nodes) == [node] + below + InReach(nodes[1..]);
      assert Collected(nodes, ctx) == Emitted(node, ctx) + blocks + Collected(nodes[1..], ctx);
      hide Shows, Issued, Emitted, Throws, Collected, InReach, Descends;
      FilterConcat(Issued, [node] + below, InReach(nodes[1..]));
      FilterConcat(Issued, [node], below);
      AllShowConcat(Emitted(node, ctx), Filter(Issued, [node]), blocks, Filter(Issued, below), ctx);
      AllShowConcat(Emitted(node, ctx) + blocks, Filter(Issued, [node] + below), Collected(nodes[1..], ctx),
                    Filter(Issued, InReach(nodes[1..])), ctx);
    }
  }

  lemma {:induction false} ReachedInReach(nodes: seq<Node>)
    ensures Reached(nodes) == InReach(nodes)
  {
    if nodes != [] {
      ReachedInReach(nodes[0].children);
      ReachedInReach(nodes[1..]);
    }
  }

  /** The walk throws exactly when it meets a visible object whose blob was not captured. */
  lemma ThrowsIff(nodes: seq<Node>)
    ensures Fails(nodes)
       <==> exists n :: n in InReach(nodes) && n.kind == Object && !n.meta.vanish && n.meta.object_.None?
  {
    hide Fails, Reached, InReach;
    FailsIff(nodes);
    ReachedInReach(nodes);
  }

  /** The number in the title: in format `f` if it is one, and as it stands if not. */
  lemma DisplayReads(section: string, f: Format)
    ensures match Normalize(section)
            case Some(canonical) => ParseCandidate(Display(section, f), Strong) == Ok(Parsed(canonical, f))
            case None => Display(section, f) == section
  {
    hide ParseCandidate, FormatNumber, Collapse;
    if Normalize(section).Some? {
      ParseOfFormat(Normalize(section).value, f);
    }
  }

  /**
   The blocks show the tree: its title and then, in document order, one block for each node that
   is to be seen, with the node's text, its citations rewritten, or the object's captured blob.
   */
  ghost predicate ShowsTree(blocks: seq<Block>, tree: Tree, ctx: SectionContext) {
    var seen := IssuedNodes(tree);
    && |blocks| == 1 + |seen|
    && (exists number ::
          && blocks[0] == Title("SECTION " + number + " — " + tree.title)
          && match Normalize(tree.section)
             case Some(canonical) => ParseCandidate(number, Strong) == Ok(Parsed(canonical, ctx.format))
             case None => number == tree.section)
    && forall k :: 0 <= k < |seen| ==> Shows(blocks[k + 1], seen[k], ctx)
  }

  lemma SectionShows(tree: Tree, ctx: SectionContext)
    requires !Fails(tree.parts)
    ensures ShowsTree(SectionBlocks(tree, ctx), tree, ctx)
  {
    hide Shows, Collected, ParseCandidate, Normalize, Display;
    CollectedShows(tree.parts, ctx);
    DisplayReads(tree.section, ctx.format);
    var blocks := SectionBlocks(tree, ctx);
    assert blocks[0] == Title("SECTION " + Display(tree.section, ctx.format) + " — " + tree.title);
    assert forall k :: 0 <= k < |blocks| - 1 ==> blocks[k + 1] == Collected(tree.parts, ctx)[k];
  }
}
