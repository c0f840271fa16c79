/**
 The Markdown renderer of src/generator/markdown.ts. `LinesOf` and `LinesOfAll` say what is
 printed as a list of lines, each numbered line with the ordinals of its node and of the nodes
 above it; the methods keep the source's loops.
 */
module Markdown {
  import opened Text
  import opened SpecTree
  import opened Labels
  import GfmTable

  /** Where a node sits: a root, a child of a part, or a child deeper down. */
  datatype Position = AtRoot | UnderPart(partNumber: nat) | PrTier(depth: nat)

  datatype Line =
    | Numbered(node: Node, label_: string, position: Position, path: seq<nat>)
    | Unnumbered(text: string)

  const INDENT := "   "

  function Pad(depth: nat): string {
    if depth == 0 then "" else INDENT + Pad(depth - 1)
  }

  // ---------------------------------------------------------------- objects

  function Texts(nodes: seq<Node>): (texts: seq<string>)
    ensures |texts| == |nodes| && forall k :: 0 <= k < |nodes| ==> texts[k] == nodes[k].text
  {
    seq(|nodes|, k requires 0 <= k < |nodes| => nodes[k].text)
  }

  function RenderFallback(node: Node): string {
    var title := if node.meta.object_.Some? && node.meta.object_.value.kind.Table? then "[TABLE]" else "[OBJECT]";
    var lines := seq(|node.children|, k requires 0 <= k < |node.children| =>
      INDENT + GfmTable.CollapseBreaks(node.children[k].text));
    Join(["\n> **" + title + "**"] + lines, "\n")
  }

  function RenderTextBox(node: Node, floating: bool): string {
    var texts := GfmTable.Collapsed(Texts(node.children));
    "\n> **[TEXT BOX]** " + Join(texts, " ") + (if floating then " *(floating)*" else "")
  }

  predicate IsSimpleGrid(node: Node, meta: ObjectMeta) {
    meta.rows.Some? && meta.columns.Some? && |node.children| == meta.rows.value * meta.columns.value
  }

  function RenderObject(node: Node): string {
    if node.meta.object_.None? then RenderFallback(node)
    else
      var meta := node.meta.object_.value;
      if meta.kind.TextBox? then RenderTextBox(node, meta.floating)
      else if IsSimpleGrid(node, meta) then GfmTable.RenderTable(Texts(node.children), meta.columns.value)
      else RenderFallback(node)
  }

  // ---------------------------------------------------------------- nodes

  /** What a node that takes no number renders to; none for a structural node. */
  function NonStructural(node: Node, depth: nat): Option<string> {
    if node.kind == Note then Some("\n> **[NOTE]** " + node.text)
    else if node.meta.vanish then Some("")
    else if node.kind == Object then Some(RenderObject(node))
    else if node.kind == ObjectText then Some("")
    else if node.kind == Continuation then Some("\n" + Pad(depth) + node.text)
    else None
  }

  function Depth(position: Position): nat {
    if position.PrTier? then position.depth else 0
  }

  /** The label depends on the position, and on the type only below the articles. */
  function LabelAt(position: Position, kind: NodeType, index: nat): string {
    match position
    case AtRoot => GetLabel(Part, index, 1)
    case UnderPart(partNumber) => GetLabel(Article, index, partNumber)
    case PrTier(_) => GetLabel(kind, index, 1)
  }

  function ChildPosition(position: Position, index: nat): Position {
    match position
    case AtRoot => UnderPart(index + 1)
    case UnderPart(_) => PrTier(0)
    case PrTier(depth) => PrTier(depth + 1)
  }

  function LinesOf(node: Node, index: nat, position: Position, path: seq<nat>): seq<Line>
    decreases node, 0
  {
    var chrome := NonStructural(node, Depth(position));
    if chrome.Some? then [Unnumbered(chrome.value)]
    else
      [Numbered(node, LabelAt(position, node.kind, index), position, path + [index])]
      + LinesOfAll(node.children, 0, ChildPosition(position, index), path + [index])
  }

  function LinesOfAll(nodes: seq<Node>, ordinal: nat, position: Position, path: seq<nat>): seq<Line>
    decreases nodes, 1
  {
    if nodes == [] then []
    else
      var next := if ConsumesNumber(nodes[0]) then ordinal + 1 else ordinal;
      LinesOf(nodes[0], ordinal, position, path) + LinesOfAll(nodes[1..], next, position, path)
  }

  lemma LinesFrom(nodes: seq<Node>, i: nat, ordinal: nat, position: Position, path: seq<nat>)
    requires i <= |nodes|
    ensures LinesOfAll(nodes[i..], ordinal, position, path)
         == if i == |nodes| then []
            else LinesOf(nodes[i], ordinal, position, path)
                 + LinesOfAll(nodes[i + 1..], if ConsumesNumber(nodes[i]) then ordinal + 1 else ordinal, position, path)
  {
    hide LinesOf;
    if i < |nodes| {
      assert nodes[i..][1..] == nodes[i + 1..];
    }
  }

  /** The loop of `renderChildren`. */
  method RenderChildren(children: seq<Node>, position: Position, path: seq<nat>) returns (lines: seq<Line>)
    ensures lines == LinesOfAll(children, 0, position, path)
    decreases children, 1
  {
    hide LinesOf, LinesOfAll, ConsumesNumber;
    var ordinal := 0;
    lines := [];
    assert children[0..] == children;
    for i := 0 to |children|
      invariant lines + LinesOfAll(children[i..], ordinal, position, path) == LinesOfAll(children, 0, position, path)
    {
      var child := children[i];
      LinesFrom(children, i, ordinal, position, path);
      var rendered := RenderNode(child, ordinal, position, path);
      lines := lines + rendered;
      if ConsumesNumber(child) {
        ordinal := ordinal + 1;
      }
    }
    LinesFrom(children, |children|, ordinal, position, path);
  }

  /** `renderRoot`, `renderArticle` and `renderPrNode`, by position. */
  method RenderNode(node: Node, index: nat, position: Position, path: seq<nat>) returns (lines: seq<Line>)
    ensures lines == LinesOf(node, index, position, path)
    decreases node, 0
  {
    var chrome := NonStructural(node, Depth(position));
    if chrome.Some? {
      return [Unnumbered(chrome.value)];
    }
    var below := RenderChildren(node.children, ChildPosition(position, index), path + [index]);
    lines := [Numbered(node, LabelAt(position, node.kind, index), position, path + [index])] + below;
  }

  // ---------------------------------------------------------------- text

  function LineText(line: Line): string {
    match line
    case Unnumbered(text) => text
    case Numbered(node, text, position, _) =>
      match position
      case AtRoot => "\n## " + text + " " + node.text + "\n"
      case UnderPart(_) => "\n### " + text + " " + node.text + "\n"
      case PrTier(depth) => "\n" + Pad(depth) + text + " " + node.text
  }

  function LinesText(lines: seq<Line>): string {
    if lines == [] then "" else LineText(lines[0]) + LinesText(lines[1..])
  }

  /** The texts of the roots that render to anything. */
  function RootTexts(roots: seq<Node>, ordinal: nat): seq<string> {
    if roots == [] then []
    else
      var text := LinesText(LinesOf(roots[0], ordinal, AtRoot, []));
      var more := RootTexts(roots[1..], if ConsumesNumber(roots[0]) then ordinal + 1 else ordinal);
      if text != "" then [text] + more else more
  }

  lemma RootsFrom(roots: seq<Node>, i: nat, ordinal: nat)
    requires i <= |roots|
    ensures RootTexts(roots[i..], ordinal)
         == if i == |roots| then []
            else var text := LinesText(LinesOf(roots[i], ordinal, AtRoot, []));
                 var more := RootTexts(roots[i + 1..], if ConsumesNumber(roots[i]) then ordinal + 1 else ordinal);
                 if text != "" then [text] + more else more
  {
    hide LinesText, LinesOf;
    if i < |roots| {
      assert roots[i..][1..] == roots[i + 1..];
    }
  }

  method RenderMarkdown(tree: Tree) returns (text: string)
    ensures text == Join(["# SECTION " + tree.section + " — " + tree.title] + RootTexts(tree.parts, 0), "\n")
  {
    hide LinesText, LinesOf, RootTexts, Join;
    var title := "# SECTION " + tree.section + " — " + tree.title;
    var rendered := [title];
    var partIndex := 0;
    assert tree.parts[0..] == tree.parts;
    for i := 0 to |tree.parts|
      invariant rendered + RootTexts(tree.parts[i..], partIndex) == [title] + RootTexts(tree.parts, 0)
    {
      var node := tree.parts[i];
      RootsFrom(tree.parts, i, partIndex);
      var lines := RenderNode(node, partIndex, AtRoot, []);
      if ConsumesNumber(node) {
        partIndex := partIndex + 1;
      }
      if LinesText(lines) != "" {
        rendered := rendered + [LinesText(lines)];
      }
    }
    RootsFrom(tree.parts, |tree.parts|, partIndex);
    assert rendered + [] == rendered;
    text := Join(rendered, "\n");
  }

  // ---------------------------------------------------------------- sibling labels

  /** Ordinal a child is given: the numbered siblings before it. */
  function OrdinalBefore(children: seq<Node>, k: nat): (n: nat)
    requires k <= |children|
    ensures n <= k
  {
    if k == 0 then 0
    else OrdinalBefore(children, k - 1) + if ConsumesNumber(children[k - 1]) then 1 else 0
  }

  lemma {:induction false} OrdinalGrows(children: seq<Node>, j: nat, k: nat)
    requires j < k <= |children| && ConsumesNumber(children[j])
    ensures OrdinalBefore(children, j) < OrdinalBefore(children, k)
  {
    if j + 1 < k {
      OrdinalGrows(children, j, k - 1);
    }
  }

  /** The numbered lines of a node's own children, in order, carry these labels. */
  lemma {:induction false} ChildLine(children: seq<Node>, k: nat, position: Position, path: seq<nat>)
    requires k < |children| && NonStructural(children[k], Depth(position)).None?
    ensures Numbered(children[k], LabelAt(position, children[k].kind, OrdinalBefore(children, k)), position,
                     path + [OrdinalBefore(children, k)])
         in LinesOfAll(children, 0, position, path)
  {
    ChildLineFrom(children, 0, k, position, path);
    assert children[0..] == children;
  }

  lemma {:induction false} ChildLineFrom(children: seq<Node>, i: nat, k: nat, position: Position, path: seq<nat>)
    requires i <= k < |children| && NonStructural(children[k], Depth(position)).None?
    ensures Numbered(children[k], LabelAt(position, children[k].kind, OrdinalBefore(children, k)), position,
                     path + [OrdinalBefore(children, k)])
         in LinesOfAll(children[i..], OrdinalBefore(children, i), position, path)
    decreases k - i
  {
    hide LinesOfAll, NonStructural, LabelAt;
    LinesFrom(children, i, OrdinalBefore(children, i), position, path);
    if i < k {
      ChildLineFrom(children, i + 1, k, position, path);
    } else {
      FirstLine(children[k], OrdinalBefore(children, k), position, path);
    }
  }

  lemma FirstLine(node: Node, index: nat, position: Position, path: seq<nat>)
    requires NonStructural(node, Depth(position)).None?
    ensures var lines := LinesOf(node, index, position, path);
            lines != [] && lines[0] == Numbered(node, LabelAt(position, node.kind, index), position, path + [index])
  {
    hide NonStructural, LabelAt, LinesOfAll;
  }

  /** Two numbered siblings never carry the same label. */
  lemma SiblingLabelsDistinct(children: seq<Node>, j: nat, k: nat, position: Position)
    requires j < k < |children|
    requires ConsumesNumber(children[j]) && ConsumesNumber(children[k])
    requires children[j].kind != Spec && children[k].kind != Spec
    ensures LabelAt(position, children[j].kind, OrdinalBefore(children, j))
         != LabelAt(position, children[k].kind, OrdinalBefore(children, k))
  {
    hide GetLabel;
    OrdinalGrows(children, j, k);
    var m, n := OrdinalBefore(children, j), OrdinalBefore(children, k);
    if LabelAt(position, children[j].kind, m) == LabelAt(position, children[k].kind, n) {
      match position
      case AtRoot => EqualLabels(Part, m, Part, n, 1);
      case UnderPart(partNumber) => EqualLabels(Article, m, Article, n, partNumber);
      case PrTier(_) => EqualLabels(children[j].kind, m, children[k].kind, n, 1);
    }
  }
}
