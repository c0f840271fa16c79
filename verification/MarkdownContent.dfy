/** What a rendered document shows: every printed node with its label and text, in document order. */
module MarkdownContent {
  import opened Text
  import opened Sorting
  import opened SpecTree
  import opened Labels
  import opened Markdown
  import GfmTable

  // ---------------------------------------------------------------- what is to be printed

  /** A node with the ordinals of the nodes above it and its own. */
  datatype Placed = Placed(node: Node, above: seq<nat>, ordinal: nat)

  predicate IsLabelled(node: Node) {
    && !node.meta.vanish
    && node.kind != Note && node.kind != Continuation && node.kind != Object && node.kind != ObjectText
  }

  /**
   All nodes, in document order, but those below nodes that take no label; siblings are counted
   from `ordinal` on, and only those that take a label count.
   */
  function Printed(nodes: seq<Node>, above: seq<nat>, ordinal: nat): seq<Placed> {
    if nodes == [] then []
    else
      [Placed(nodes[0], above, ordinal)]
      + (if IsLabelled(nodes[0]) then Printed(nodes[0].children, above + [ordinal], 0) else [])
      + Printed(nodes[1..], above, if IsLabelled(nodes[0]) then ordinal + 1 else ordinal)
  }

  function Blanks(n: nat): (s: string)
    ensures |s| == n && forall k :: 0 <= k < n ==> s[k] == ' '
  {
    seq(n, _ => ' ')
  }

  /** Depth below the articles. */
  function Tier(level: nat): nat {
    if level < 2 then 0 else level - 2
  }

  /**
   The text of a labelled node: parts are headings of the second level, articles of the third, and
   what is below them is indented by its depth. The label reads as the last ordinal of the path
   counted from one, an article's also as the number of its part.
   */
  ghost predicate ShowsLabelled(text: string, node: Node, path: seq<nat>)
    requires path != []
  {
    exists label_ :: ShowsLabel(text, label_, node, path)
  }

  predicate ShowsLabel(text: string, label_: string, node: Node, path: seq<nat>)
    requires path != []
  {
    var ordinal := path[|path| - 1];
    if |path| == 1 then
      text == "\n## " + label_ + " " + node.text + "\n" && ReadCounter(Part, label_) == Some(ordinal + 1)
    else if |path| == 2 then
      && text == "\n### " + label_ + " " + node.text + "\n"
      && ReadCounter(Article, label_) == Some(ordinal + 1) && ReadPartNumber(label_) == Some(path[0] + 1)
    else
      && text == "\n" + Blanks(3 * Tier(|path| - 1)) + label_ + " " + node.text
      && (if LevelOf(node.kind).Some? then ReadCounter(node.kind, label_) == Some(ordinal + 1) else label_ == "")
  }

  /** The texts, one indented line each. */
  function Indented(texts: seq<string>): string {
    if texts == [] then "" else "\n   " + (texts[0] + Indented(texts[1..]))
  }

  /**
   An object shows the texts inside it, their line breaks collapsed: a text box in one line, a table
   that fills a simple grid as a table that reads back, anything else as a list.
   */
  ghost predicate ShowsObject(text: string, node: Node) {
    var texts := Texts(node.children);
    if node.meta.object_.None? then text == "\n> **[OBJECT]**" + Indented(GfmTable.Collapsed(texts))
    else
      var meta := node.meta.object_.value;
      if meta.kind.TextBox? then
        text == "\n> **[TEXT BOX]** " + Join(GfmTable.Collapsed(texts), " ")
                + (if meta.floating then " *(floating)*" else "")
      else if meta.rows.Some? && meta.columns.Some? && |texts| == meta.rows.value * meta.columns.value then
        && (GfmTable.ReadTable(text) == GfmTable.CollapsedRows(GfmTable.Chunks(texts, meta.columns.value))
            <==> GfmTable.NoLoneReturn(texts))
        && text == GfmTable.RenderTable(texts, meta.columns.value)
      else
        text == "\n> **[TABLE]**" + Indented(GfmTable.Collapsed(texts))
  }

  /** The text of a node without label: notes show even when hidden, nothing else hidden does. */
  ghost predicate ShowsUnlabelled(text: string, placed: Placed) {
    var node := placed.node;
    if node.kind == Note then text == "\n> **[NOTE]** " + node.text
    else if node.meta.vanish || node.kind == ObjectText then text == ""
    else if node.kind == Continuation then text == "\n" + Blanks(3 * Tier(|placed.above|)) + node.text
    else ShowsObject(text, node)
  }

  ghost predicate Shows(line: Line, placed: Placed) {
    if IsLabelled(placed.node) then
      ShowsLabelled(LineText(line), placed.node, placed.above + [placed.ordinal])
    else line.Unnumbered? && ShowsUnlabelled(line.text, placed)
  }

  ghost predicate AllShow(lines: seq<Line>, placed: seq<Placed>) {
    |lines| == |placed| && forall k :: 0 <= k < |placed| ==> Shows(lines[k], placed[k])
  }

  // ---------------------------------------------------------------- objects

  lemma {:induction false} JoinIndented(head: string, texts: seq<string>, lines: seq<string>)
    requires |lines| == |texts| && forall k :: 0 <= k < |texts| ==> lines[k] == INDENT + texts[k]
    ensures Join([head] + lines, "\n") == head + Indented(texts)
    decreases |texts|
  {
    assert ([head] + lines)[1..] == lines;
    if texts == [] {
      assert head + "" == head;
    } else {
      JoinIndented(lines[0], texts[1..], lines[1..]);
      assert [lines[0]] + lines[1..] == lines;
      Assoc(INDENT, texts[0], Indented(texts[1..]));
      Assoc("\n", INDENT, texts[0] + Indented(texts[1..]));
      Assoc(head, "\n", lines[0] + Indented(texts[1..]));
    }
  }

  predicate IsTable(node: Node) {
    node.meta.object_.Some? && node.meta.object_.value.kind.Table?
  }

  lemma FallbackShows(node: Node)
    ensures RenderFallback(node)
         == (if IsTable(node) then "\n> **[TABLE]**" else "\n> **[OBJECT]**")
            + Indented(GfmTable.Collapsed(Texts(node.children)))
  {
    hide Indented, GfmTable.CollapseBreaks, Join;
    var head := if IsTable(node) then "\n> **[TABLE]**" else "\n> **[OBJECT]**";
    var lines := seq(|node.children|, k requires 0 <= k < |node.children| =>
      INDENT + GfmTable.CollapseBreaks(node.children[k].text));
    assert "\n> **" + "[TABLE]" + "**" == "\n> **[TABLE]**" && "\n> **" + "[OBJECT]" + "**" == "\n> **[OBJECT]**";
    assert RenderFallback(node) == Join([head] + lines, "\n");
    JoinIndented(head, GfmTable.Collapsed(Texts(node.children)), lines);
  }

  lemma ObjectShows(node: Node)
    ensures ShowsObject(RenderObject(node), node)
  {
    hide Indented, GfmTable.ReadTable, GfmTable.RenderTable, RenderFallback, GfmTable.NoLoneReturn, GfmTable.CollapsedRows,
         GfmTable.Collapsed, Texts, Join;
    var texts := Texts(node.children);
    FallbackShows(node);
    if node.meta.object_.Some? {
      var meta := node.meta.object_.value;
      if !meta.kind.TextBox? && IsSimpleGrid(node, meta) {
        GfmTable.TableRoundTrip(texts, meta.rows.value, meta.columns.value);
      }
    }
  }

  // ---------------------------------------------------------------- lines

  /** The position of a node follows from the ordinals above it. */
  predicate At(position: Position, path: seq<nat>) {
    match position
    case AtRoot => path == []
    case UnderPart(partNumber) => |path| == 1 && partNumber == path[0] + 1
    case PrTier(depth) => |path| == depth + 2
  }

  lemma {:induction false} PadIsBlank(depth: nat)
    ensures Pad(depth) == Blanks(3 * depth)
  {
    if depth > 0 {
      PadIsBlank(depth - 1);
      assert INDENT == Blanks(3);
    }
  }

  lemma NoLevelNoLabel(kind: NodeType, index: nat)
    requires LevelOf(kind).None?
    ensures GetLabel(kind, index, 1) == ""
  {
  }

  lemma LabelledShows(node: Node, index: nat, position: Position, path: seq<nat>)
    requires At(position, path)
    ensures ShowsLabelled(LineText(Numbered(node, LabelAt(position, node.kind, index), position, path + [index])),
                          node, path + [index])
  {
    hide GetLabel, ReadCounter, ReadPartNumber, Pad, Blanks;
    var label_, here := LabelAt(position, node.kind, index), path + [index];
    assert here[|here| - 1] == index && (path != [] ==> here[0] == path[0]);
    match position {
      case AtRoot => LabelReads(Part, index, 1);
      case UnderPart(partNumber) => LabelReads(Article, index, partNumber);
      case PrTier(depth) =>
        PadIsBlank(depth);
        assert Tier(|here| - 1) == depth;
        if LevelOf(node.kind).Some? {
          LabelReads(node.kind, index, 1);
        } else {
          NoLevelNoLabel(node.kind, index);
        }
    }
    assert ShowsLabel(LineText(Numbered(node, label_, position, here)), label_, node, here);
  }

  lemma UnlabelledShows(node: Node, index: nat, position: Position, path: seq<nat>)
    requires At(position, path) && !IsLabelled(node)
    ensures NonStructural(node, Depth(position)).Some?
    ensures ShowsUnlabelled(NonStructural(node, Depth(position)).value, Placed(node, path, index))
  {
    hide RenderObject, ShowsObject, Pad, Blanks;
    PadIsBlank(Depth(position));
    ObjectShows(node);
  }

  lemma AllShowConcat(a: seq<Line>, m: seq<Placed>, b: seq<Line>, n: seq<Placed>)
    requires AllShow(a, m) && AllShow(b, n)
    ensures AllShow(a + b, m + n)
  {
    hide Shows;
  }

  lemma OneShows(line: Line, placed: Placed)
    requires Shows(line, placed)
    ensures AllShow([line], [placed])
  {
    hide Shows;
  }

  lemma {:induction false} NodeShows(node: Node, index: nat, position: Position, path: seq<nat>)
    requires At(position, path)
    ensures AllShow(LinesOf(node, index, position, path),
                    [Placed(node, path, index)]
                    + if IsLabelled(node) then Printed(node.children, path + [index], 0) else [])
    decreases node, 0
  {
    hide AllShow, ShowsLabelled, ShowsUnlabelled, RenderObject, LabelAt, LineText, Printed;
    var placed := Placed(node, path, index);
    if IsLabelled(node) {
      var inside, here := ChildPosition(position, index), path + [index];
      var line := Numbered(node, LabelAt(position, node.kind, index), position, here);
      LabelledShows(node, index, position, path);
      OneShows(line, placed);
      ListShows(node.children, 0, inside, here);
      AllShowConcat([line], [placed], LinesOfAll(node.children, 0, inside, here), Printed(node.children, here, 0));
    } else {
      UnlabelledShows(node, index, position, path);
      OneShows(Unnumbered(NonStructural(node, Depth(position)).value), placed);
      assert [placed] + [] == [placed];
    }
  }

  lemma {:induction false} ListShows(nodes: seq<Node>, ordinal: nat, position: Position, path: seq<nat>)
    requires At(position, path)
    ensures AllShow(LinesOfAll(nodes, ordinal, position, path), Printed(nodes, path, ordinal))
    decreases nodes, 1
  {
    hide Shows, LinesOf;
    if nodes != [] {
      hide AllShow;
      var next := if ConsumesNumber(nodes[0]) then ordinal + 1 else ordinal;
      var first := [Placed(nodes[0], path, ordinal)]
                   + if IsLabelled(nodes[0]) then Printed(nodes[0].children, path + [ordinal], 0) else [];
      NodeShows(nodes[0], ordinal, position, path);
      ListShows(nodes[1..], next, position, path);
      AllShowConcat(LinesOf(nodes[0], ordinal, position, path), first,
                    LinesOfAll(nodes[1..], next, position, path), Printed(nodes[1..], path, next));
    }
  }

  // ---------------------------------------------------------------- the document

  function Concat(lines: seq<Line>): string {
    if lines == [] then "" else LineText(lines[0]) + Concat(lines[1..])
  }

  /** The texts of the chapters, each that has any behind a newline. */
  function Bound(chapters: seq<seq<Line>>): string {
    if chapters == [] then ""
    else
      var text := Concat(chapters[0]);
      (if text == "" then "" else "\n" + text) + Bound(chapters[1..])
  }

  /** The lines of every root. */
  function Chapters(roots: seq<Node>, ordinal: nat): (r: seq<seq<Line>>)
    ensures |r| == |roots|
  {
    if roots == [] then []
    else
      [LinesOf(roots[0], ordinal, AtRoot, [])]
      + Chapters(roots[1..], if ConsumesNumber(roots[0]) then ordinal + 1 else ordinal)
  }

  lemma {:induction false} ConcatIsText(lines: seq<Line>)
    ensures Concat(lines) == LinesText(lines)
  {
    hide LineText;
    if lines != [] {
      ConcatIsText(lines[1..]);
    }
  }

  lemma {:induction false} JoinBound(title: string, roots: seq<Node>, ordinal: nat)
    ensures Join([title] + RootTexts(roots, ordinal), "\n") == title + Bound(Chapters(roots, ordinal))
    decreases |roots|
  {
    hide LinesOf;
    if roots == [] {
      assert title + "" == title;
    } else {
      var next := if ConsumesNumber(roots[0]) then ordinal + 1 else ordinal;
      var text := LinesText(LinesOf(roots[0], ordinal, AtRoot, []));
      var more := RootTexts(roots[1..], next);
      ConcatIsText(LinesOf(roots[0], ordinal, AtRoot, []));
      assert Chapters(roots, ordinal)[1..] == Chapters(roots[1..], next);
      if text == "" {
        JoinBound(title, roots[1..], next);
        assert "" + Bound(Chapters(roots[1..], next)) == Bound(Chapters(roots[1..], next));
      } else {
        JoinBound(text, roots[1..], next);
        assert ([title] + ([text] + more))[1..] == [text] + more;
        Assoc(title, "\n", text + Bound(Chapters(roots[1..], next)));
        Assoc("\n", text, Bound(Chapters(roots[1..], next)));
      }
    }
  }

  lemma {:induction false} ChapterShows(roots: seq<Node>, ordinal: nat, i: nat)
    requires i < |roots|
    ensures AllShow(Chapters(roots, ordinal)[i], Printed([roots[i]], [], ordinal + |Filter(IsLabelled, roots[..i])|))
    decreases i
  {
    hide AllShow, Printed, LinesOf, LinesOfAll;
    if i == 0 {
      ListShows([roots[0]], ordinal, AtRoot, []);
      OneChapter(roots[0], ordinal);
      assert Filter(IsLabelled, roots[..0]) == [];
    } else {
      var next := if IsLabelled(roots[0]) then ordinal + 1 else ordinal;
      NextChapter(roots, ordinal, i);
      LabelledBefore(roots, i);
      hide Filter, IsLabelled, Chapters;
      ChapterShows(roots[1..], next, i - 1);
    }
  }

  lemma NextChapter(roots: seq<Node>, ordinal: nat, i: nat)
    requires 0 < i < |roots|
    ensures Chapters(roots, ordinal)[i]
         == Chapters(roots[1..], if IsLabelled(roots[0]) then ordinal + 1 else ordinal)[i - 1]
  {
    hide LinesOf;
  }

  lemma LabelledBefore(roots: seq<Node>, i: nat)
    requires 0 < i < |roots|
    ensures |Filter(IsLabelled, roots[..i])|
         == (if IsLabelled(roots[0]) then 1 else 0) + |Filter(IsLabelled, roots[1..][..i - 1])|
  {
    assert roots[..i][0] == roots[0] && roots[..i][1..] == roots[1..][..i - 1];
  }

  lemma OneChapter(root: Node, ordinal: nat)
    ensures LinesOfAll([root], ordinal, AtRoot, []) == LinesOf(root, ordinal, AtRoot, [])
  {
    hide LinesOf;
    assert [root][1..] == [];
  }

  /**
   The document is its title and then, a newline before each root that shows anything, the texts
   of all printed nodes in document order and nothing between them: labelled nodes with the label
   of their ordinals and their text, the others as their kind asks.
   */
  lemma MarkdownShows(tree: Tree)
    ensures var text := Join(["# SECTION " + tree.section + " — " + tree.title] + RootTexts(tree.parts, 0), "\n");
            exists chapters: seq<seq<Line>> ::
              && |chapters| == |tree.parts|
              && (forall i :: 0 <= i < |tree.parts| ==>
                    AllShow(chapters[i], Printed([tree.parts[i]], [], |Filter(IsLabelled, tree.parts[..i])|)))
              && text == "# SECTION " + tree.section + " — " + tree.title + Bound(chapters)
  {
    hide AllShow, Bound, Chapters, Printed, RootTexts, Join, Filter;
    var title := "# SECTION " + tree.section + " — " + tree.title;
    JoinBound(title, tree.parts, 0);
    var chapters := Chapters(tree.parts, 0);
    forall i | 0 <= i < |tree.parts|
      ensures AllShow(chapters[i], Printed([tree.parts[i]], [], |Filter(IsLabelled, tree.parts[..i])|))
    {
      ChapterShows(tree.parts, 0, i);
    }
  }
}
