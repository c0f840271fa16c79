/**
 The document walk of src/generator/index.ts, down to the paragraphs it hands to the docx
 library. `Collected` says what the walk pushes; the methods keep the source's recursion over a
 list that is passed down and grown.
 */
module Docx {
  import opened Text
  import opened SpecTree
  import opened SectionNumber
  import SectionRewriting

  datatype Block =
    | Title(text: string)
    | Paragraph(id: string, text: string, level: nat, reference: string)
    | Plain(id: string, text: string)
    | ObjectBlock(id: string, blob: seq<Blob>)

  datatype SectionContext = SectionContext(format: Format, reference: string)

  const MISSING_BLOB := "object node is missing its captured blob (meta.object)"

  function TextOf(node: Node, ctx: SectionContext): string {
    SectionRewriting.Rewrite(false, node.text, ctx.format)
  }

  /** The walk throws at a visible object whose blob was not captured. */
  predicate Throws(node: Node) {
    node.kind == Object && !node.meta.vanish && node.meta.object_.None?
  }

  predicate Descends(node: Node) {
    node.kind == Note || (!node.meta.vanish && node.kind != Object)
  }

  function Emitted(node: Node, ctx: SectionContext): seq<Block> {
    if node.kind == Note then [Plain(node.id, TextOf(node, ctx))]
    else if node.meta.vanish then []
    else if node.kind == Object then
      if node.meta.object_.Some? then [ObjectBlock(node.id, node.meta.object_.value.blob)] else []
    else if node.kind == Continuation then [Plain(node.id, TextOf(node, ctx))]
    else if LevelOf(node.kind).Some? then
      [Paragraph(node.id, TextOf(node, ctx), LevelOf(node.kind).value, ctx.reference)]
    else []
  }

  function Collected(nodes: seq<Node>, ctx: SectionContext): seq<Block> {
    if nodes == [] then []
    else CollectedOf(nodes[0], ctx) + Collected(nodes[1..], ctx)
  }

  function CollectedOf(node: Node, ctx: SectionContext): seq<Block> {
    Emitted(node, ctx) + if Descends(node) then Collected(node.children, ctx) else []
  }

  /** The nodes the walk reaches, in document order. */
  function Reached(nodes: seq<Node>): seq<Node> {
    if nodes == [] then []
    else [nodes[0]] + (if Descends(nodes[0]) then Reached(nodes[0].children) else []) + Reached(nodes[1..])
  }

  predicate Fails(nodes: seq<Node>) {
    nodes != [] &&
    (Throws(nodes[0]) || (Descends(nodes[0]) && Fails(nodes[0].children)) || Fails(nodes[1..]))
  }

  class SectionWriter {
    var out: seq<Block>

    constructor (title: string)
      ensures out == [Title(title)]
    {
      out := [Title(title)];
    }

    method EmitNode(node: Node, ctx: SectionContext) returns (descend: Result<bool, string>)
      modifies this
      ensures descend.Err? <==> Throws(node)
      ensures descend.Ok? ==> descend.value == Descends(node) && out == old(out) + Emitted(node, ctx)
    {
      var text := SectionRewriting.FormatSectionReferences(node.text, ctx.format);
      if node.kind == Note {
        out := out + [Plain(node.id, text)];
        return Ok(true);
      }
      if node.meta.vanish {
        return Ok(false);
      }
      if node.kind == Object {
        if node.meta.object_.None? {
          return Err(MISSING_BLOB);
        }
        out := out + [ObjectBlock(node.id, node.meta.object_.value.blob)];
        return Ok(false);
      }
      if node.kind == Continuation {
        out := out + [Plain(node.id, text)];
        return Ok(true);
      }
      var level := LevelOf(node.kind);
      if level.Some? {
        out := out + [Paragraph(node.id, text, level.value, ctx.reference)];
      }
      return Ok(true);
    }

    method CollectParagraphs(nodes: seq<Node>, ctx: SectionContext) returns (done: Result<(), string>)
      modifies this
      ensures done.Err? <==> Fails(nodes)
      ensures done.Ok? ==> out == old(out) + Collected(nodes, ctx)
      decreases nodes
    {
      hide Emitted, Throws, Descends, CollectedOf;
      assert nodes[0..] == nodes;
      for i := 0 to |nodes|
        invariant Fails(nodes) <==> Fails(nodes[i..])
        invariant out + Collected(nodes[i..], ctx) == old(out) + Collected(nodes, ctx)
      {
        var node := nodes[i];
        ghost var before := out;
        CollectedFrom(nodes, i, ctx);
        var descend := EmitNode(node, ctx);
        if descend.Err? {
          return Err(descend.error);
        }
        if descend.value {
          var inner := CollectParagraphs(node.children, ctx);
          if inner.Err? {
            return inner;
          }
        }
      }
      CollectedFrom(nodes, |nodes|, ctx);
      return Ok(());
    }
  }

  lemma CollectedFrom(nodes: seq<Node>, i: nat, ctx: SectionContext)
    requires i <= |nodes|
    ensures i == |nodes| ==> Collected(nodes[i..], ctx) == [] && !Fails(nodes[i..])
    ensures i < |nodes| ==>
      && Collected(nodes[i..], ctx)
         == Emitted(nodes[i], ctx) + (if Descends(nodes[i]) then Collected(nodes[i].children, ctx) else [])
            + Collected(nodes[i + 1..], ctx)
      && Fails(nodes[i..])
         == (Throws(nodes[i]) || (Descends(nodes[i]) && Fails(nodes[i].children)) || Fails(nodes[i + 1..]))
  {
    hide Emitted, Throws, Descends;
    if i < |nodes| {
      assert nodes[i..][1..] == nodes[i + 1..];
    }
  }

  function SectionBlocks(tree: Tree, ctx: SectionContext): seq<Block> {
    [Title("SECTION " + Display(tree.section, ctx.format) + " — " + tree.title)] + Collected(tree.parts, ctx)
  }

  method BuildSectionChildren(tree: Tree, ctx: SectionContext) returns (blocks: Result<seq<Block>, string>)
    ensures blocks == if Fails(tree.parts) then Err(MISSING_BLOB) else Ok(SectionBlocks(tree, ctx))
  {
    var writer := new SectionWriter("SECTION " + Display(tree.section, ctx.format) + " — " + tree.title);
    var done := writer.CollectParagraphs(tree.parts, ctx);
    if done.Err? {
      return Err(MISSING_BLOB);
    }
    return Ok(writer.out);
  }

  /** A walk that meets no missing blob is one that reaches none. */
  lemma {:induction false} FailsIff(nodes: seq<Node>)
    ensures Fails(nodes) <==> exists n :: n in Reached(nodes) && Throws(n)
  {
    if nodes != [] {
      FailsIff(nodes[0].children);
      FailsIff(nodes[1..]);
      var below := if Descends(nodes[0]) then Reached(nodes[0].children) else [];
      assert Reached(nodes) == [nodes[0]] + below + Reached(nodes[1..]);
    }
  }
}
