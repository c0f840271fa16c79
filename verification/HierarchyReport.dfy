/**
 The scoring report of src/lib/hierarchy-report.ts: every scored paragraph with the label the
 Markdown renderer prints for it, worst confidence first.
 */
module HierarchyReport {
  import opened Text
  import opened SpecTree
  import opened Sorting
  import opened Labels
  import opened Markdown

  datatype LabelCtx =
    | PartCtx(index: nat)
    | ArticleCtx(index: nat, partNumber: nat)
    | PrCtx(index: nat)

  /** How the context of a sibling follows from its ordinal. */
  datatype Siblings = Roots | Articles(partNumber: nat) | Prs | Constant(ctx: LabelCtx)

  datatype ScoredParagraph = ScoredParagraph(
    nodeId: string, nodeType: NodeType, ilvl: nat, label_: string, preview: string,
    confidence: real, signalUsed: Signal, agreed: seq<Signal>, evidence: seq<string>,
    conflicts: Option<seq<SignalConflict>>)

  datatype Counts = Counts(scored: nat, unscored: nat, belowThreshold: nat)

  datatype Report = Report(counts: Counts, unscoredReason: Option<string>, paragraphs: seq<ScoredParagraph>)

  const PREVIEW_MAX := 80
  const NO_LEVEL := "no normalized ilvl for node type"

  const EXPLICIT_STRUCTURE_REASON := "explicit structure from source markup — no inference to score"

  const PRE_PROVENANCE_REASON :=
    "no inference provenance recorded — the 5-signal engine did not score these paragraphs "
    + "(pre-provenance parse, non-DOCX source, or manually inserted); re-importing a DOCX master "
    + "regenerates scores"

  /** Present when something is unscored; sources with explicit structure are unscored by design. */
  function UnscoredReason(unscored: nat, source: Option<string>): Option<string> {
    if unscored == 0 then None
    else Some(if source == Some("ufgs") then EXPLICIT_STRUCTURE_REASON else PRE_PROVENANCE_REASON)
  }

  function CtxAt(siblings: Siblings, index: nat): LabelCtx {
    match siblings
    case Roots => PartCtx(index)
    case Articles(partNumber) => ArticleCtx(index, partNumber)
    case Prs => PrCtx(index)
    case Constant(ctx) => ctx
  }

  function ComputeLabel(ctx: LabelCtx, kind: NodeType): string {
    match ctx
    case PartCtx(index) => GetLabel(Part, index, 1)
    case ArticleCtx(index, partNumber) => GetLabel(Article, index, partNumber)
    case PrCtx(index) => GetLabel(kind, index, 1)
  }

  function ChildContext(ctx: LabelCtx): Siblings {
    if ctx.PartCtx? then Articles(ctx.index + 1) else Prs
  }

  predicate Skipped(kind: NodeType) {
    kind == Spec || kind == Note || kind == Continuation
  }

  // ---------------------------------------------------------------- specification

  /** A node with an inference, and its label. */
  datatype Scored = Scored(node: Node, label_: string)

  predicate HasScore(node: Node) {
    node.meta.inference.Some?
  }

  function Own(node: Node, ctx: LabelCtx): seq<Scored> {
    if HasScore(node) then [Scored(node, ComputeLabel(ctx, node.kind))] else []
  }

  function NextOrdinal(node: Node, ordinal: nat): nat {
    if ConsumesNumber(node) && !Skipped(node.kind) then ordinal + 1 else ordinal
  }

  /** The scored nodes of the walk, in document order. */
  function ScoredOf(node: Node, ctx: LabelCtx): (r: seq<Scored>)
    ensures forall k :: 0 <= k < |r| ==> HasScore(r[k].node)
    decreases node, 0
  {
    if node.meta.vanish then []
    else if Skipped(node.kind) then ScoredOfAll(node.children, 0, Constant(ctx))
    else Own(node, ctx) + ScoredOfAll(node.children, 0, ChildContext(ctx))
  }

  function ScoredOfAll(nodes: seq<Node>, ordinal: nat, siblings: Siblings): (r: seq<Scored>)
    ensures forall k :: 0 <= k < |r| ==> HasScore(r[k].node)
    decreases nodes, 1
  {
    if nodes == [] then []
    else ScoredOf(nodes[0], CtxAt(siblings, ordinal))
         + ScoredOfAll(nodes[1..], NextOrdinal(nodes[0], ordinal), siblings)
  }

  function UnscoredIn(node: Node): nat
    decreases node, 0
  {
    if node.meta.vanish then 0
    else (if Skipped(node.kind) || HasScore(node) then 0 else 1) + UnscoredInAll(node.children)
  }

  function UnscoredInAll(nodes: seq<Node>): nat
    decreases nodes, 1
  {
    if nodes == [] then 0 else UnscoredIn(nodes[0]) + UnscoredInAll(nodes[1..])
  }

  function Confidence(node: Node): real
    requires HasScore(node)
  {
    node.meta.inference.value.confidence
  }

  predicate Reportable(s: Scored) {
    HasScore(s.node) && LevelOf(s.node.kind).Some?
  }

  function ToScoredParagraph(s: Scored): ScoredParagraph
    requires Reportable(s)
  {
    ScoredParagraph(s.node.id, s.node.kind, LevelOf(s.node.kind).value, s.label_,
                    s.node.text[..Min(PREVIEW_MAX, |s.node.text|)],
                    Confidence(s.node), s.node.meta.inference.value.signalUsed,
                    s.node.meta.inference.value.agreed, s.node.meta.inference.value.evidence,
                    if s.node.meta.conflicts == [] then None else Some(s.node.meta.conflicts))
  }

  predicate AllReportable(scored: seq<Scored>) {
    forall k :: 0 <= k < |scored| ==> Reportable(scored[k])
  }

  function Paragraphs(scored: seq<Scored>): (r: seq<ScoredParagraph>)
    requires AllReportable(scored)
    ensures |r| == |scored|
  {
    if scored == [] then [] else [ToScoredParagraph(scored[0])] + Paragraphs(scored[1..])
  }

  function Below(scored: seq<Scored>, threshold: real): (n: nat)
    requires forall k :: 0 <= k < |scored| ==> HasScore(scored[k].node)
    ensures n <= |scored|
  {
    if scored == [] then 0
    else (if Confidence(scored[0].node) < threshold then 1 else 0) + Below(scored[1..], threshold)
  }

  /** Ascending confidence, ties by the collation of the node ids. */
  function WorstFirst(collate: (string, string) -> bool): (ScoredParagraph, ScoredParagraph) -> bool {
    (a: ScoredParagraph, b: ScoredParagraph) =>
      a.confidence < b.confidence || (a.confidence == b.confidence && collate(a.nodeId, b.nodeId))
  }

  // ---------------------------------------------------------------- the walk

  lemma {:induction false} ParagraphsConcat(a: seq<Scored>, b: seq<Scored>)
    ensures AllReportable(a + b) <==> AllReportable(a) && AllReportable(b)
    ensures AllReportable(a + b) ==> Paragraphs(a + b) == Paragraphs(a) + Paragraphs(b)
  {
    hide Reportable, ToScoredParagraph;
    assert forall k :: 0 <= k < |a| ==> (a + b)[k] == a[k];
    assert forall k :: 0 <= k < |b| ==> (a + b)[|a| + k] == b[k];
    if AllReportable(a + b) && a != [] {
      assert (a + b)[1..] == a[1..] + b;
      ParagraphsConcat(a[1..], b);
    } else {
      assert a == [] ==> a + b == b;
    }
  }

  lemma {:induction false} BelowConcat(a: seq<Scored>, b: seq<Scored>, threshold: real)
    requires forall k :: 0 <= k < |a| ==> HasScore(a[k].node)
    requires forall k :: 0 <= k < |b| ==> HasScore(b[k].node)
    ensures Below(a + b, threshold) == Below(a, threshold) + Below(b, threshold)
  {
    if a == [] {
      assert a + b == b;
    } else {
      assert (a + b)[1..] == a[1..] + b;
      BelowConcat(a[1..], b, threshold);
    }
  }

  /** What one node of a list adds to the list's findings so far. */
  lemma Gaining(done: seq<Scored>, own: seq<Scored>, rest: seq<Scored>, threshold: real)
    requires AllReportable(done) && forall k :: 0 <= k < |own| ==> HasScore(own[k].node)
    ensures done + (own + rest) == done + own + rest
    ensures AllReportable(own) ==>
              AllReportable(done + own) && Paragraphs(done + own) == Paragraphs(done) + Paragraphs(own)
    ensures forall k :: 0 <= k < |done + own| ==> HasScore((done + own)[k].node)
    ensures Below(done + own, threshold) == Below(done, threshold) + Below(own, threshold)
    ensures !AllReportable(own) ==> !AllReportable(done + (own + rest))
  {
    hide Paragraphs, Below, LevelOf;
    ParagraphsConcat(done, own);
    ParagraphsConcat(done + own, rest);
    BelowConcat(done, own, threshold);
    assert done + (own + rest) == done + own + rest;
  }

  class Acc {
    var scored: nat
    var unscored: nat
    var belowThreshold: nat
    var paragraphs: seq<ScoredParagraph>

    constructor ()
      ensures scored == unscored == belowThreshold == 0 && paragraphs == []
    {
      scored, unscored, belowThreshold, paragraphs := 0, 0, 0, [];
    }

    /** What the accumulator has gained since it held the given values. */
    ghost predicate Gained(more: seq<Scored>, moreUnscored: nat, threshold: real,
                           scored0: nat, unscored0: nat, below0: nat, paragraphs0: seq<ScoredParagraph>)
      requires forall k :: 0 <= k < |more| ==> HasScore(more[k].node)
      reads this
    {
      && AllReportable(more)
      && scored == scored0 + |more|
      && unscored == unscored0 + moreUnscored
      && belowThreshold == below0 + Below(more, threshold)
      && paragraphs == paragraphs0 + Paragraphs(more)
    }

    /** False stands for the `AstError` of a scored node that has no level. */
    method TallyNode(node: Node, ctx: LabelCtx, threshold: real) returns (ok: bool)
      modifies this
      ensures ok <==> AllReportable(Own(node, ctx))
      ensures ok ==> Gained(Own(node, ctx), if HasScore(node) then 0 else 1, threshold,
                            old(scored), old(unscored), old(belowThreshold), old(paragraphs))
    {
      if !HasScore(node) {
        unscored := unscored + 1;
        return true;
      }
      var entry := Scored(node, ComputeLabel(ctx, node.kind));
      assert Own(node, ctx) == [entry] && [entry][1..] == [];
      scored := scored + 1;
      if Confidence(node) < threshold {
        belowThreshold := belowThreshold + 1;
      }
      if LevelOf(node.kind).None? {
        assert !Reportable(Own(node, ctx)[0]);
        return false;
      }
      paragraphs := paragraphs + [ToScoredParagraph(entry)];
      return true;
    }

    method WalkSiblings(nodes: seq<Node>, siblings: Siblings, threshold: real) returns (ok: bool)
      modifies this
      ensures ok <==> AllReportable(ScoredOfAll(nodes, 0, siblings))
      ensures ok ==> Gained(ScoredOfAll(nodes, 0, siblings), UnscoredInAll(nodes), threshold,
                            old(scored), old(unscored), old(belowThreshold), old(paragraphs))
      decreases nodes, 1
    {
      hide ScoredOf, AllReportable, Paragraphs, Below, UnscoredIn, HasScore;
      var ordinal := 0;
      ghost var done: seq<Scored>, doneUnscored: nat := [], 0;
      NothingGained(threshold);
      assert nodes[0..] == nodes && [] + ScoredOfAll(nodes, 0, siblings) == ScoredOfAll(nodes, 0, siblings);
      for i := 0 to |nodes|
        invariant forall k :: 0 <= k < |done| ==> HasScore(done[k].node)
        invariant done + ScoredOfAll(nodes[i..], ordinal, siblings) == ScoredOfAll(nodes, 0, siblings)
        invariant doneUnscored + UnscoredInAll(nodes[i..]) == UnscoredInAll(nodes)
        invariant Gained(done, doneUnscored, threshold, old(scored), old(unscored), old(belowThreshold), old(paragraphs))
      {
        var node := nodes[i];
        ghost var own := ScoredOf(node, CtxAt(siblings, ordinal));
        ghost var rest := ScoredOfAll(nodes[i + 1..], NextOrdinal(node, ordinal), siblings);
        assert nodes[i..][1..] == nodes[i + 1..] && nodes[i..][0] == node;
        Gaining(done, own, rest, threshold);
        var visited := VisitNode(node, CtxAt(siblings, ordinal), threshold);
        if !visited {
          return false;
        }
        done, doneUnscored := done + own, doneUnscored + UnscoredIn(node);
        if ConsumesNumber(node) && !Skipped(node.kind) {
          ordinal := ordinal + 1;
        }
      }
      assert done + [] == done;
      return true;
    }

    method VisitNode(node: Node, ctx: LabelCtx, threshold: real) returns (ok: bool)
      modifies this
      ensures ok <==> AllReportable(ScoredOf(node, ctx))
      ensures ok ==> Gained(ScoredOf(node, ctx), UnscoredIn(node), threshold,
                            old(scored), old(unscored), old(belowThreshold), old(paragraphs))
      decreases node, 0
    {
      hide AllReportable, Paragraphs, Below, Own, ScoredOfAll;
      if node.meta.vanish {
        NothingGained(threshold);
        return true;
      }
      if Skipped(node.kind) {
        ok := WalkSiblings(node.children, Constant(ctx), threshold);
        return;
      }
      ghost var own, rest := Own(node, ctx), ScoredOfAll(node.children, 0, ChildContext(ctx));
      ParagraphsConcat(own, rest);
      OwnScored(node, ctx);
      BelowConcat(own, rest, threshold);
      ok := TallyNode(node, ctx, threshold);
      if !ok {
        return;
      }
      ok := WalkSiblings(node.children, ChildContext(ctx), threshold);
    }
  }

  lemma NothingGained(threshold: real)
    ensures AllReportable([]) && Paragraphs([]) == [] && Below([], threshold) == 0
  {
  }

  lemma OwnScored(node: Node, ctx: LabelCtx)
    ensures forall k :: 0 <= k < |Own(node, ctx)| ==> HasScore(Own(node, ctx)[k].node)
  {
  }

  method BuildHierarchyReport(tree: Tree, source: Option<string>, threshold: real,
                              collate: (string, string) -> bool)
    returns (report: Result<Report, string>)
    ensures report.Ok? <==> AllReportable(ScoredOfAll(tree.parts, 0, Roots))
    ensures report.Ok? ==>
              var scored := ScoredOfAll(tree.parts, 0, Roots);
              var unscored := UnscoredInAll(tree.parts);
              report.value == Report(Counts(|scored|, unscored, Below(scored, threshold)),
                                     UnscoredReason(unscored, source),
                                     Sort(WorstFirst(collate), Paragraphs(scored)))
  {
    hide AllReportable, Paragraphs, Below, ScoredOfAll, UnscoredInAll;
    var acc := new Acc();
    var ok := acc.WalkSiblings(tree.parts, Roots, threshold);
    if !ok {
      return Err(NO_LEVEL);
    }
    assert [] + Paragraphs(ScoredOfAll(tree.parts, 0, Roots)) == Paragraphs(ScoredOfAll(tree.parts, 0, Roots));
    return Ok(Report(Counts(acc.scored, acc.unscored, acc.belowThreshold), UnscoredReason(acc.unscored, source),
                     Sort(WorstFirst(collate), acc.paragraphs)));
  }

  // ---------------------------------------------------------------- labels never drift

  /** The scored nodes among the numbered lines, with the labels printed. */
  function ScoredLines(lines: seq<Line>): seq<Scored> {
    if lines == [] then []
    else if lines[0].Numbered? && HasScore(lines[0].node) then
      [Scored(lines[0].node, lines[0].label_)] + ScoredLines(lines[1..])
    else ScoredLines(lines[1..])
  }

  lemma {:induction false} ScoredLinesConcat(a: seq<Line>, b: seq<Line>)
    ensures ScoredLines(a + b) == ScoredLines(a) + ScoredLines(b)
  {
    if a == [] {
      assert a + b == b;
    } else {
      assert (a + b)[1..] == a[1..] + b;
      ScoredLinesConcat(a[1..], b);
    }
  }

  /** No visible `spec` node where the renderer goes. */
  predicate NoSpec(nodes: seq<Node>) {
    nodes == [] || (NoSpecIn(nodes[0]) && NoSpec(nodes[1..]))
  }

  predicate NoSpecIn(node: Node) {
    !ConsumesNumber(node) || (node.kind != Spec && NoSpec(node.children))
  }

  /** No visible node among these or below them is scored, notes, continuations and `spec` aside. */
  predicate Silent(nodes: seq<Node>)
    decreases nodes, 1
  {
    nodes == [] || (SilentIn(nodes[0]) && Silent(nodes[1..]))
  }

  predicate SilentIn(node: Node)
    decreases node, 0
  {
    node.meta.vanish || ((Skipped(node.kind) || !HasScore(node)) && Silent(node.children))
  }

  /** What the renderer gives no label, notes and objects with all below them, is silent. */
  predicate ScoresAreLabelled(nodes: seq<Node>)
    decreases nodes, 1
  {
    nodes == [] || (ScoresAreLabelledIn(nodes[0]) && ScoresAreLabelled(nodes[1..]))
  }

  predicate ScoresAreLabelledIn(node: Node)
    decreases node, 0
  {
    if node.meta.vanish then true
    else if ConsumesNumber(node) then ScoresAreLabelled(node.children)
    else SilentIn(node)
  }

  /** The report lists nothing exactly for silent nodes, in any context. */
  lemma {:induction false} SilentScores(nodes: seq<Node>, ordinal: nat, siblings: Siblings)
    ensures ScoredOfAll(nodes, ordinal, siblings) == [] <==> Silent(nodes)
    decreases nodes, 1
  {
    if nodes != [] {
      SilentScoresIn(nodes[0], CtxAt(siblings, ordinal));
      SilentScores(nodes[1..], NextOrdinal(nodes[0], ordinal), siblings);
    }
  }

  lemma {:induction false} SilentScoresIn(node: Node, ctx: LabelCtx)
    ensures ScoredOf(node, ctx) == [] <==> SilentIn(node)
    decreases node, 0
  {
    SilentScores(node.children, 0, if Skipped(node.kind) then Constant(ctx) else ChildContext(ctx));
  }

  /** How many nodes are scored does not depend on the context. */
  lemma {:induction false} CountIgnoresContext(nodes: seq<Node>, i: nat, a: Siblings, j: nat, b: Siblings)
    ensures |ScoredOfAll(nodes, i, a)| == |ScoredOfAll(nodes, j, b)|
    decreases nodes, 1
  {
    if nodes != [] {
      CountIgnoresIn(nodes[0], CtxAt(a, i), CtxAt(b, j));
      CountIgnoresContext(nodes[1..], NextOrdinal(nodes[0], i), a, NextOrdinal(nodes[0], j), b);
    }
  }

  lemma {:induction false} CountIgnoresIn(node: Node, a: LabelCtx, b: LabelCtx)
    ensures |ScoredOf(node, a)| == |ScoredOf(node, b)|
    decreases node, 0
  {
    if !node.meta.vanish {
      if Skipped(node.kind) {
        CountIgnoresContext(node.children, 0, Constant(a), 0, Constant(b));
      } else {
        CountIgnoresContext(node.children, 0, ChildContext(a), 0, ChildContext(b));
      }
    }
  }

  function SiblingsAt(position: Position): Siblings {
    match position
    case AtRoot => Roots
    case UnderPart(partNumber) => Articles(partNumber)
    case PrTier(_) => Prs
  }

  lemma {:induction false} NodeLabels(node: Node, index: nat, position: Position, path: seq<nat>)
    requires NoSpecIn(node)
    ensures var scored := ScoredOf(node, CtxAt(SiblingsAt(position), index));
            var printed := ScoredLines(LinesOf(node, index, position, path));
            && (if ScoresAreLabelledIn(node) then scored == printed else |scored| > |printed|)
    decreases node, 0
  {
    hide GetLabel, RenderObject;
    var ctx := CtxAt(SiblingsAt(position), index);
    var lines := LinesOf(node, index, position, path);
    if ConsumesNumber(node) {
      var inside := LinesOfAll(node.children, 0, ChildPosition(position, index), path + [index]);
      var own := Numbered(node, LabelAt(position, node.kind, index), position, path + [index]);
      ListLabels(node.children, 0, ChildPosition(position, index), path + [index]);
      assert lines == [own] + inside && lines[1..] == inside;
      assert SiblingsAt(ChildPosition(position, index)) == ChildContext(ctx);
    } else {
      assert |lines| == 1 && lines[1..] == [];
      SilentScoresIn(node, ctx);
    }
  }

  lemma {:induction false} ListLabels(nodes: seq<Node>, ordinal: nat, position: Position, path: seq<nat>)
    requires NoSpec(nodes)
    ensures var scored := ScoredOfAll(nodes, ordinal, SiblingsAt(position));
            var printed := ScoredLines(LinesOfAll(nodes, ordinal, position, path));
            && (if ScoresAreLabelled(nodes) then scored == printed else |scored| > |printed|)
    decreases nodes, 1
  {
    hide ScoredOf, LinesOf, ScoresAreLabelledIn;
    if nodes != [] {
      var next := if ConsumesNumber(nodes[0]) then ordinal + 1 else ordinal;
      NodeLabels(nodes[0], ordinal, position, path);
      ListLabels(nodes[1..], next, position, path);
      ScoredLinesConcat(LinesOf(nodes[0], ordinal, position, path), LinesOfAll(nodes[1..], next, position, path));
    }
  }

  /**
   The report's nodes and labels are exactly those of the scored lines the renderer prints, in
   the same order, if and only if every scored node is one the renderer labels.
   */
  lemma LabelsNeverDrift(tree: Tree)
    requires NoSpec(tree.parts)
    ensures ScoredOfAll(tree.parts, 0, Roots) == ScoredLines(LinesOfAll(tree.parts, 0, AtRoot, []))
       <==> ScoresAreLabelled(tree.parts)
  {
    ListLabels(tree.parts, 0, AtRoot, []);
  }

  /**
   Below an object they do drift: a scored paragraph there is reported, without error, with a
   label that no line shows.
   */
  lemma DriftBelowObject(object_: Node, paragraph: Node)
    requires object_.kind == Object && !object_.meta.vanish && !HasScore(object_) && object_.children == [paragraph]
    requires paragraph.kind == Pr1 && !paragraph.meta.vanish && HasScore(paragraph) && paragraph.children == []
    ensures var scored := ScoredOfAll([object_], 0, Roots);
            && AllReportable(scored) && |scored| == 1 && scored[0].node == paragraph
            && ScoredLines(LinesOfAll([object_], 0, AtRoot, [])) == []
  {
    hide RenderObject, GetLabel;
    assert [object_][1..] == [] && [paragraph][1..] == [];
    assert ScoredOfAll([], 0, Prs) == [];
    assert LinesOfAll([object_], 0, AtRoot, []) == [Unnumbered(RenderObject(object_))];
    assert [Unnumbered(RenderObject(object_))][1..] == [];
    var ctx := CtxAt(Articles(1), 0);
    assert ScoredOf(paragraph, ctx) == Own(paragraph, ctx);
    assert ScoredOfAll([], NextOrdinal(paragraph, 0), Articles(1)) == [];
    assert ScoredOfAll([paragraph], 0, Articles(1)) == Own(paragraph, ctx);
    assert ScoredOf(object_, PartCtx(0)) == Own(paragraph, ctx);
    assert ScoredOfAll([], NextOrdinal(object_, 0), Roots) == [];
  }
}
