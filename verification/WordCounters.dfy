/**
 Multilevel numbering as a word processor computes it from a flat list of paragraphs (section
 17.9 of ECMA-376 Part 1): each numbered paragraph increments the counter of its level in its
 numbering instance and restarts the deeper ones.
 */
module WordCounters {
  import opened Text
  import opened SpecTree
  import opened Labels
  import opened Docx
  import opened Markdown

  type Counters = c: seq<nat> | |c| == 9 witness [0, 0, 0, 0, 0, 0, 0, 0, 0]

  const FRESH: Counters := [0, 0, 0, 0, 0, 0, 0, 0, 0]

  /** The number of a paragraph: the counters down to its level. */
  datatype Numbering = Numbering(id: string, path: seq<nat>)

  function CountersOf(state: map<string, Counters>, reference: string): Counters {
    if reference in state then state[reference] else FRESH
  }

  function Zeros(n: nat): (z: seq<nat>)
    ensures |z| == n && forall k :: 0 <= k < n ==> z[k] == 0
  {
    seq(n, _ => 0)
  }

  function Advance(c: Counters, level: nat): Counters
    requires level < 9
  {
    c[..level] + [c[level] + 1] + Zeros(8 - level)
  }

  predicate Counts(block: Block) {
    block.Paragraph? && block.level < 9
  }

  function Step(block: Block, state: map<string, Counters>): map<string, Counters> {
    if Counts(block) then
      state[block.reference := Advance(CountersOf(state, block.reference), block.level)]
    else state
  }

  function After(blocks: seq<Block>, state: map<string, Counters>): map<string, Counters> {
    if blocks == [] then state else After(blocks[1..], Step(blocks[0], state))
  }

  function Numbers(blocks: seq<Block>, state: map<string, Counters>): seq<Numbering> {
    if blocks == [] then []
    else
      var next := Step(blocks[0], state);
      var rest := Numbers(blocks[1..], next);
      if Counts(blocks[0]) then
        [Numbering(blocks[0].id, CountersOf(next, blocks[0].reference)[..blocks[0].level + 1])] + rest
      else rest
  }

  lemma {:induction false} Concat(a: seq<Block>, b: seq<Block>, state: map<string, Counters>)
    ensures Numbers(a + b, state) == Numbers(a, state) + Numbers(b, After(a, state))
    ensures After(a + b, state) == After(b, After(a, state))
  {
    hide Step, CountersOf;
    if a == [] {
      assert a + b == b;
    } else {
      assert (a + b)[1..] == a[1..] + b;
      Concat(a[1..], b, Step(a[0], state));
    }
  }

  // ---------------------------------------------------------------- the renderer's ordinals

  function PlusOne(path: seq<nat>): (r: seq<nat>)
    ensures |r| == |path| && forall k :: 0 <= k < |path| ==> r[k] == path[k] + 1
  {
    seq(|path|, k requires 0 <= k < |path| => path[k] + 1)
  }

  /** The numbered lines a list of lines prints, with their ordinals counted from one. */
  function Ordinals(lines: seq<Line>): seq<Numbering> {
    if lines == [] then []
    else if lines[0].Numbered? then [Numbering(lines[0].node.id, PlusOne(lines[0].path))] + Ordinals(lines[1..])
    else Ordinals(lines[1..])
  }

  lemma {:induction false} OrdinalsConcat(a: seq<Line>, b: seq<Line>)
    ensures Ordinals(a + b) == Ordinals(a) + Ordinals(b)
  {
    if a == [] {
      assert a + b == b;
    } else {
      assert (a + b)[1..] == a[1..] + b;
      OrdinalsConcat(a[1..], b);
    }
  }

  /**
   Parts over articles over pr1, pr2 and so on: every visible structural node sits at the level
   of its depth, and what takes no number is a leaf unless it is hidden or a captured object.
   */
  predicate Levelled(nodes: seq<Node>, level: nat) {
    nodes == [] || (LevelledNode(nodes[0], level) && Levelled(nodes[1..], level))
  }

  predicate LevelledNode(node: Node, level: nat) {
    if node.kind == Note then node.children == []
    else if node.meta.vanish || node.kind == Object then true
    else if node.kind == Continuation || node.kind == ObjectText then node.children == []
    else LevelOf(node.kind) == Some(level) && Levelled(node.children, level + 1)
  }

  /** Where a walk stands at `level` below nodes of ordinals `path`. */
  ghost predicate Stands(c: Counters, level: nat, path: seq<nat>, ordinal: nat) {
    level <= 9 && |path| == level && c[..level] == PlusOne(path) && (level < 9 ==> c[level] == ordinal)
  }

  /** A numbered paragraph shows its ordinal and those above it; its children start at zero. */
  lemma AdvanceStands(c: Counters, level: nat, path: seq<nat>, ordinal: nat)
    requires level < 9 && Stands(c, level, path, ordinal)
    ensures Advance(c, level)[..level + 1] == PlusOne(path + [ordinal])
    ensures Stands(Advance(c, level), level + 1, path + [ordinal], 0)
    ensures Advance(c, level)[..level] == c[..level]
  {
    var d := Advance(c, level);
    assert forall k :: 0 <= k < level ==> d[k] == c[k] == c[..level][k];
  }

  lemma {:induction false} ListAgrees(nodes: seq<Node>, ctx: SectionContext, state: map<string, Counters>,
                                      level: nat, ordinal: nat, position: Position, path: seq<nat>)
    requires Levelled(nodes, level)
    requires Stands(CountersOf(state, ctx.reference), level, path, ordinal)
    ensures Numbers(Collected(nodes, ctx), state) == Ordinals(LinesOfAll(nodes, ordinal, position, path))
    ensures CountersOf(After(Collected(nodes, ctx), state), ctx.reference)[..level] == PlusOne(path)
    decreases nodes, 2
  {
    hide Stands, Emitted, Descends, LinesOf, CollectedOf;
    if nodes == [] {
      StandsPath(CountersOf(state, ctx.reference), level, path, ordinal);
    } else {
      var next := if ConsumesNumber(nodes[0]) then ordinal + 1 else ordinal;
      var blocks := CollectedOf(nodes[0], ctx);
      NodeAgrees(nodes[0], ctx, state, level, ordinal, position, path);
      ListAgrees(nodes[1..], ctx, After(blocks, state), level, next, position, path);
      Concat(blocks, Collected(nodes[1..], ctx), state);
      OrdinalsConcat(LinesOf(nodes[0], ordinal, position, path), LinesOfAll(nodes[1..], next, position, path));
    }
  }

  lemma StandsPath(c: Counters, level: nat, path: seq<nat>, ordinal: nat)
    requires Stands(c, level, path, ordinal)
    ensures level <= 9 && c[..level] == PlusOne(path)
  {
  }

  lemma {:induction false} NodeAgrees(node: Node, ctx: SectionContext, state: map<string, Counters>,
                                      level: nat, ordinal: nat, position: Position, path: seq<nat>)
    requires LevelledNode(node, level)
    requires Stands(CountersOf(state, ctx.reference), level, path, ordinal)
    ensures Numbers(CollectedOf(node, ctx), state) == Ordinals(LinesOf(node, ordinal, position, path))
    ensures Stands(CountersOf(After(CollectedOf(node, ctx), state), ctx.reference), level, path,
                   if ConsumesNumber(node) then ordinal + 1 else ordinal)
    decreases node, 1
  {
    if !ConsumesNumber(node) {
      UnnumberedAgrees(node, ctx, state, level, ordinal, position, path);
    } else {
      NumberedAgrees(node, ctx, state, level, ordinal, position, path);
    }
  }

  /** A note, a hidden node, an object or a continuation moves neither count. */
  lemma UnnumberedAgrees(node: Node, ctx: SectionContext, state: map<string, Counters>,
                         level: nat, ordinal: nat, position: Position, path: seq<nat>)
    requires LevelledNode(node, level) && !ConsumesNumber(node)
    ensures Numbers(CollectedOf(node, ctx), state) == Ordinals(LinesOf(node, ordinal, position, path)) == []
    ensures After(CollectedOf(node, ctx), state) == state
  {
    hide Step, CountersOf, TextOf, RenderObject;
    var blocks := CollectedOf(node, ctx);
    assert blocks == Emitted(node, ctx) by {
      assert Descends(node) ==> Collected(node.children, ctx) == [];
    }
    assert |blocks| <= 1 && (blocks != [] ==> !Counts(blocks[0]) && blocks[1..] == []);
    QuietBlock(blocks, state);
    assert NonStructural(node, Depth(position)).Some?;
    var line := Unnumbered(NonStructural(node, Depth(position)).value);
    assert LinesOf(node, ordinal, position, path) == [line] && [line][1..] == [];
  }

  lemma QuietBlock(blocks: seq<Block>, state: map<string, Counters>)
    requires |blocks| <= 1 && (blocks != [] ==> !Counts(blocks[0]))
    ensures Numbers(blocks, state) == [] && After(blocks, state) == state
  {
    if blocks != [] {
      assert blocks[1..] == [];
    }
  }

  lemma {:induction false} NumberedAgrees(node: Node, ctx: SectionContext, state: map<string, Counters>,
                                          level: nat, ordinal: nat, position: Position, path: seq<nat>)
    requires LevelledNode(node, level) && ConsumesNumber(node)
    requires Stands(CountersOf(state, ctx.reference), level, path, ordinal)
    ensures Numbers(CollectedOf(node, ctx), state) == Ordinals(LinesOf(node, ordinal, position, path))
    ensures Stands(CountersOf(After(CollectedOf(node, ctx), state), ctx.reference), level, path, ordinal + 1)
    decreases node, 0
  {
    hide TextOf, Stands, Advance, LabelAt;
    var c := CountersOf(state, ctx.reference);
    var own := Paragraph(node.id, TextOf(node, ctx), level, ctx.reference);
    var below := Collected(node.children, ctx);
    var next := state[ctx.reference := Advance(c, level)];
    var here := path + [ordinal];
    var line := Numbered(node, LabelAt(position, node.kind, ordinal), position, here);
    var lines := LinesOfAll(node.children, 0, ChildPosition(position, ordinal), here);
    AdvanceStands(c, level, path, ordinal);
    ListAgrees(node.children, ctx, next, level + 1, 0, ChildPosition(position, ordinal), here);
    assert CollectedOf(node, ctx) == [own] + below;
    assert LinesOf(node, ordinal, position, path) == [line] + lines;
    assert ([own] + below)[1..] == below && ([line] + lines)[1..] == lines;
    assert Step(own, state) == next;
    StandsAfter(CountersOf(After(below, next), ctx.reference), level, path, ordinal);
  }

  lemma StandsAfter(c: Counters, level: nat, path: seq<nat>, ordinal: nat)
    requires level < 9 && |path| == level && c[..level + 1] == PlusOne(path + [ordinal])
    ensures Stands(c, level, path, ordinal + 1)
  {
    assert c[..level] == c[..level + 1][..level];
    assert c[level] == c[..level + 1][level];
    assert PlusOne(path + [ordinal])[..level] == PlusOne(path);
  }

  // ---------------------------------------------------------------- only for levelled trees

  /** What parsers promise of any tree: leaves where the walks disagree, and no `spec` inside. */
  predicate Leafy(nodes: seq<Node>) {
    nodes == [] || (LeafyNode(nodes[0]) && Leafy(nodes[1..]))
  }

  predicate LeafyNode(node: Node) {
    if node.kind == Note then node.children == []
    else if node.meta.vanish || node.kind == Object then true
    else if node.kind == Continuation || node.kind == ObjectText then node.children == []
    else node.kind != Spec && Leafy(node.children)
  }

  function Lengths(numbers: seq<Numbering>): (r: seq<nat>)
    ensures |r| == |numbers|
  {
    if numbers == [] then [] else [|numbers[0].path|] + Lengths(numbers[1..])
  }

  function BlockDepths(blocks: seq<Block>): seq<nat> {
    if blocks == [] then []
    else if Counts(blocks[0]) then [blocks[0].level + 1] + BlockDepths(blocks[1..])
    else BlockDepths(blocks[1..])
  }

  lemma {:induction false} NumbersDepths(blocks: seq<Block>, state: map<string, Counters>)
    ensures Lengths(Numbers(blocks, state)) == BlockDepths(blocks)
  {
    if blocks != [] {
      NumbersDepths(blocks[1..], Step(blocks[0], state));
    }
  }

  lemma {:induction false} DepthsConcat(a: seq<Block>, b: seq<Block>)
    ensures BlockDepths(a + b) == BlockDepths(a) + BlockDepths(b)
  {
    if a == [] {
      assert a + b == b;
    } else {
      assert (a + b)[1..] == a[1..] + b;
      DepthsConcat(a[1..], b);
    }
  }

  lemma {:induction false} LengthsConcat(a: seq<Numbering>, b: seq<Numbering>)
    ensures Lengths(a + b) == Lengths(a) + Lengths(b)
  {
    if a == [] {
      assert a + b == b;
    } else {
      assert (a + b)[1..] == a[1..] + b;
      LengthsConcat(a[1..], b);
    }
  }

  function LineDepths(lines: seq<Line>): seq<nat> {
    Lengths(Ordinals(lines))
  }

  lemma LineDepthsConcat(a: seq<Line>, b: seq<Line>)
    ensures LineDepths(a + b) == LineDepths(a) + LineDepths(b)
  {
    OrdinalsConcat(a, b);
    LengthsConcat(Ordinals(a), Ordinals(b));
  }

  lemma UnnumberedDepths(node: Node, ctx: SectionContext, ordinal: nat, position: Position, path: seq<nat>)
    requires LeafyNode(node) && !ConsumesNumber(node)
    ensures BlockDepths(CollectedOf(node, ctx)) == LineDepths(LinesOf(node, ordinal, position, path)) == []
  {
    hide TextOf, RenderObject, LabelAt;
    var lines, blocks := LinesOf(node, ordinal, position, path), CollectedOf(node, ctx);
    assert blocks == Emitted(node, ctx) by {
      assert Descends(node) ==> Collected(node.children, ctx) == [];
    }
    assert |blocks| <= 1 && (blocks != [] ==> !Counts(blocks[0]) && blocks[1..] == []);
    assert |lines| == 1 && lines[0].Unnumbered? && lines[1..] == [];
    hide LinesOf, CollectedOf, Emitted, Collected;
    assert Ordinals([]) == [] && Ordinals(lines) == [];
    assert BlockDepths([]) == [];
  }

  lemma NumberedBlocks(node: Node, ctx: SectionContext)
    requires LeafyNode(node) && ConsumesNumber(node)
    ensures LevelOf(node.kind).Some?
    ensures BlockDepths(CollectedOf(node, ctx))
         == [LevelOf(node.kind).value + 1] + BlockDepths(Collected(node.children, ctx))
  {
    hide TextOf;
    var own := Paragraph(node.id, TextOf(node, ctx), LevelOf(node.kind).value, ctx.reference);
    var below := Collected(node.children, ctx);
    assert CollectedOf(node, ctx) == [own] + below && ([own] + below)[1..] == below;
  }

  lemma NumberedLines(node: Node, ordinal: nat, position: Position, path: seq<nat>)
    requires ConsumesNumber(node)
    ensures LineDepths(LinesOf(node, ordinal, position, path))
         == [|path| + 1] + LineDepths(LinesOfAll(node.children, 0, ChildPosition(position, ordinal), path + [ordinal]))
  {
    hide LabelAt, RenderObject, LinesOfAll;
    var lines := LinesOf(node, ordinal, position, path);
    var more := LinesOfAll(node.children, 0, ChildPosition(position, ordinal), path + [ordinal]);
    assert lines[0].Numbered? && lines[1..] == more;
    hide LinesOf;
    var first := Numbering(node.id, PlusOne(path + [ordinal]));
    assert Ordinals(lines) == [first] + Ordinals(more);
    assert ([first] + Ordinals(more))[1..] == Ordinals(more);
  }

  /** Both walks number equally many nodes, and equal depths mean a levelled list. */
  lemma {:induction false} EqualDepths(nodes: seq<Node>, ctx: SectionContext, ordinal: nat, position: Position,
                                       path: seq<nat>)
    requires Leafy(nodes)
    ensures |BlockDepths(Collected(nodes, ctx))| == |LineDepths(LinesOfAll(nodes, ordinal, position, path))|
    ensures BlockDepths(Collected(nodes, ctx)) == LineDepths(LinesOfAll(nodes, ordinal, position, path)) ==>
              Levelled(nodes, |path|)
    decreases nodes
  {
    hide CollectedOf, LinesOf, LineDepths, BlockDepths;
    if nodes == [] {
      NoDepths();
    } else {
      var node := nodes[0];
      var next := if ConsumesNumber(node) then ordinal + 1 else ordinal;
      var lines, more := LinesOf(node, ordinal, position, path), LinesOfAll(nodes[1..], next, position, path);
      EqualDepths(nodes[1..], ctx, next, position, path);
      DepthsConcat(CollectedOf(node, ctx), Collected(nodes[1..], ctx));
      LineDepthsConcat(lines, more);
      if !ConsumesNumber(node) {
        UnnumberedDepths(node, ctx, ordinal, position, path);
      } else {
        NumberedBlocks(node, ctx);
        NumberedLines(node, ordinal, position, path);
        var inside := LinesOfAll(node.children, 0, ChildPosition(position, ordinal), path + [ordinal]);
        EqualDepths(node.children, ctx, 0, ChildPosition(position, ordinal), path + [ordinal]);
        EqualParts([LevelOf(node.kind).value + 1], BlockDepths(Collected(node.children, ctx)),
                   [|path| + 1], LineDepths(inside));
      }
      EqualParts(BlockDepths(CollectedOf(node, ctx)), BlockDepths(Collected(nodes[1..], ctx)),
                 LineDepths(lines), LineDepths(more));
    }
  }

  lemma NoDepths()
    ensures BlockDepths([]) == [] && LineDepths([]) == []
  {
  }

  lemma EqualParts(a: seq<nat>, b: seq<nat>, c: seq<nat>, d: seq<nat>)
    requires |a| == |c|
    ensures a + b == c + d ==> a == c && b == d
    ensures |b| == |d| ==> |a + b| == |c + d|
  {
    if a + b == c + d {
      assert (a + b)[..|a|] == a && (c + d)[..|a|] == c;
      assert (a + b)[|a|..] == b && (c + d)[|a|..] == d;
    }
  }

  /**
   Numbering the flat paragraph list gives every structural node exactly the ordinals the
   recursive renderer gives it, in the same order, if and only if the tree is levelled.
   */
  lemma FlatNumberingIsTreeNumbering(tree: Tree, ctx: SectionContext)
    requires Leafy(tree.parts)
    ensures Numbers(SectionBlocks(tree, ctx), map[]) == Ordinals(LinesOfAll(tree.parts, 0, AtRoot, []))
       <==> Levelled(tree.parts, 0)
  {
    var blocks := SectionBlocks(tree, ctx);
    assert blocks[1..] == Collected(tree.parts, ctx);
    if Levelled(tree.parts, 0) {
      ListAgrees(tree.parts, ctx, map[], 0, 0, AtRoot, []);
    } else {
      EqualDepths(tree.parts, ctx, 0, AtRoot, []);
      NumbersDepths(Collected(tree.parts, ctx), map[]);
    }
  }

  // ---------------------------------------------------------------- one instance per section

  /** Blocks numbered in one instance only. */
  predicate InInstance(blocks: seq<Block>, reference: string) {
    forall k :: 0 <= k < |blocks| && Counts(blocks[k]) ==> blocks[k].reference == reference
  }

  lemma {:induction false} OneInstance(nodes: seq<Node>, ctx: SectionContext)
    ensures InInstance(Collected(nodes, ctx), ctx.reference)
    decreases nodes
  {
    if nodes != [] {
      OneInstance(nodes[0].children, ctx);
      OneInstance(nodes[1..], ctx);
    }
  }

  /** The numbers of an instance depend on its own counters only, and leave the others alone. */
  lemma {:induction false} Independent(blocks: seq<Block>, reference: string, s: map<string, Counters>,
                                       t: map<string, Counters>)
    requires InInstance(blocks, reference) && CountersOf(s, reference) == CountersOf(t, reference)
    ensures Numbers(blocks, s) == Numbers(blocks, t)
    ensures forall other :: other != reference ==> CountersOf(After(blocks, s), other) == CountersOf(s, other)
  {
    if blocks != [] {
      assert InInstance(blocks[1..], reference) by {
        assert forall k :: 0 <= k < |blocks[1..]| ==> blocks[1..][k] == blocks[k + 1];
      }
      Independent(blocks[1..], reference, Step(blocks[0], s), Step(blocks[0], t));
    }
  }
}
