/**
 The triage summary of src/lib/hierarchy-summary.ts, an independent walk over the same tree as
 the report of module HierarchyReport, and the proof that the report refines it.
 */
module HierarchySummary {
  import opened Text
  import opened SpecTree
  import opened Sorting
  import opened HierarchyReport

  datatype Entry = Entry(nodeId: string, nodeType: NodeType, ilvl: nat, confidence: real, evidence: seq<string>)

  datatype Summary = Summary(counts: Counts, unscoredReason: Option<string>, lowConfidence: seq<Entry>)

  // ---------------------------------------------------------------- specification

  /** The nodes the summary looks at, in document order. */
  function Tallied(nodes: seq<Node>): seq<Node> {
    if nodes == [] then []
    else TalliedOf(nodes[0]) + Tallied(nodes[1..])
  }

  function TalliedOf(node: Node): seq<Node> {
    if node.meta.vanish then []
    else (if Skipped(node.kind) then [] else [node]) + Tallied(node.children)
  }

  predicate IsLow(node: Node, threshold: real) {
    HasScore(node) && Confidence(node) < threshold
  }

  function ScoredNodes(nodes: seq<Node>): seq<Node> {
    Filter(HasScore, nodes)
  }

  function LowNodes(nodes: seq<Node>, threshold: real): (r: seq<Node>)
    ensures forall k :: 0 <= k < |r| ==> IsLow(r[k], threshold)
  {
    if nodes == [] then []
    else if IsLow(nodes[0], threshold) then [nodes[0]] + LowNodes(nodes[1..], threshold)
    else LowNodes(nodes[1..], threshold)
  }

  predicate AllLevelled(nodes: seq<Node>) {
    forall k :: 0 <= k < |nodes| ==> LevelOf(nodes[k].kind).Some?
  }

  function ToEntry(node: Node): Entry
    requires HasScore(node) && LevelOf(node.kind).Some?
  {
    Entry(node.id, node.kind, LevelOf(node.kind).value, Confidence(node), node.meta.inference.value.evidence)
  }

  function Entries(nodes: seq<Node>, threshold: real): seq<Entry>
    requires AllLevelled(LowNodes(nodes, threshold))
  {
    if nodes == [] then []
    else if IsLow(nodes[0], threshold) then
      assert LowNodes(nodes, threshold)[0] == nodes[0];
      assert LowNodes(nodes, threshold)[1..] == LowNodes(nodes[1..], threshold);
      [ToEntry(nodes[0])] + Entries(nodes[1..], threshold)
    else Entries(nodes[1..], threshold)
  }

  function WorstEntryFirst(collate: (string, string) -> bool): (Entry, Entry) -> bool {
    (a: Entry, b: Entry) =>
      a.confidence < b.confidence || (a.confidence == b.confidence && collate(a.nodeId, b.nodeId))
  }

  // ---------------------------------------------------------------- the walk

  lemma {:induction false} LowConcat(a: seq<Node>, b: seq<Node>, threshold: real)
    ensures LowNodes(a + b, threshold) == LowNodes(a, threshold) + LowNodes(b, threshold)
  {
    if a == [] {
      assert a + b == b;
    } else {
      assert (a + b)[1..] == a[1..] + b;
      LowConcat(a[1..], b, threshold);
    }
  }

  lemma LevelledConcat(a: seq<Node>, b: seq<Node>)
    ensures AllLevelled(a + b) <==> AllLevelled(a) && AllLevelled(b)
  {
    assert forall k :: 0 <= k < |a| ==> (a + b)[k] == a[k];
    assert forall k :: 0 <= k < |b| ==> (a + b)[|a| + k] == b[k];
  }

  lemma {:induction false} EntriesConcat(a: seq<Node>, b: seq<Node>, threshold: real)
    requires AllLevelled(LowNodes(a, threshold)) && AllLevelled(LowNodes(b, threshold))
    ensures AllLevelled(LowNodes(a + b, threshold))
    ensures Entries(a + b, threshold) == Entries(a, threshold) + Entries(b, threshold)
  {
    LowConcat(a, b, threshold);
    LevelledConcat(LowNodes(a, threshold), LowNodes(b, threshold));
    if a == [] {
      assert a + b == b;
    } else {
      assert (a + b)[1..] == a[1..] + b;
      if IsLow(a[0], threshold) {
        assert LowNodes(a, threshold)[1..] == LowNodes(a[1..], threshold);
      }
      EntriesConcat(a[1..], b, threshold);
    }
  }

  class Acc {
    var scored: nat
    var unscored: nat
    var belowThreshold: nat
    var lowConfidence: seq<Entry>

    constructor ()
      ensures scored == unscored == belowThreshold == 0 && lowConfidence == []
    {
      scored, unscored, belowThreshold, lowConfidence := 0, 0, 0, [];
    }

    ghost predicate Gained(more: seq<Node>, threshold: real,
                           scored0: nat, unscored0: nat, below0: nat, low0: seq<Entry>)
      reads this
    {
      && AllLevelled(LowNodes(more, threshold))
      && scored == scored0 + |ScoredNodes(more)|
      && unscored + |ScoredNodes(more)| == unscored0 + |more|
      && belowThreshold == below0 + |LowNodes(more, threshold)|
      && lowConfidence == low0 + Entries(more, threshold)
    }

    /** False stands for the `AstError` of a low-confidence node that has no level. */
    method Tally(node: Node, threshold: real) returns (ok: bool)
      modifies this
      ensures ok <==> AllLevelled(LowNodes([node], threshold))
      ensures ok ==> Gained([node], threshold, old(scored), old(unscored), old(belowThreshold), old(lowConfidence))
    {
      hide ScoredNodes, LowNodes, Entries;
      OneTallied(node, threshold);
      if !HasScore(node) {
        unscored := unscored + 1;
        assert lowConfidence == old(lowConfidence) + [];
        return true;
      }
      scored := scored + 1;
      if Confidence(node) < threshold {
        belowThreshold := belowThreshold + 1;
        if LevelOf(node.kind).None? {
          assert !AllLevelled([node]) by {
            assert [node][0] == node;
          }
          return false;
        }
        lowConfidence := lowConfidence + [ToEntry(node)];
      } else {
        assert lowConfidence == old(lowConfidence) + [];
      }
      return true;
    }

    method Walk(nodes: seq<Node>, threshold: real) returns (ok: bool)
      modifies this
      ensures ok <==> AllLevelled(LowNodes(Tallied(nodes), threshold))
      ensures ok ==> Gained(Tallied(nodes), threshold, old(scored), old(unscored), old(belowThreshold), old(lowConfidence))
      decreases nodes
    {
      hide TalliedOf, AllLevelled, LowNodes, Entries, ScoredNodes;
      ghost var done: seq<Node> := [];
      NothingTallied(threshold);
      assert nodes[0..] == nodes && [] + Tallied(nodes) == Tallied(nodes);
      for i := 0 to |nodes|
        invariant done + Tallied(nodes[i..]) == Tallied(nodes)
        invariant Gained(done, threshold, old(scored), old(unscored), old(belowThreshold), old(lowConfidence))
      {
        var n := nodes[i];
        ghost var own, rest := TalliedOf(n), Tallied(nodes[i + 1..]);
        assert nodes[i..][1..] == nodes[i + 1..] && nodes[i..][0] == n;
        assert done + (own + rest) == (done + own) + rest;
        LowConcat(done + own, rest, threshold);
        LevelledConcat(LowNodes(done + own, threshold), LowNodes(rest, threshold));
        var visited := WalkNode(n, threshold, done, old(scored), old(unscored), old(belowThreshold), old(lowConfidence));
        if !visited {
          return false;
        }
        done := done + own;
      }
      assert done + [] == done;
      return true;
    }

    /** One round of the loop of `Walk`. */
    method WalkNode(n: Node, threshold: real, ghost done: seq<Node>,
                    ghost scored0: nat, ghost unscored0: nat, ghost below0: nat, ghost low0: seq<Entry>)
      returns (ok: bool)
      requires Gained(done, threshold, scored0, unscored0, below0, low0)
      modifies this
      ensures ok <==> AllLevelled(LowNodes(done + TalliedOf(n), threshold))
      ensures ok ==> Gained(done + TalliedOf(n), threshold, scored0, unscored0, below0, low0)
      decreases n
    {
      hide AllLevelled, LowNodes, Entries, ScoredNodes, Tallied;
      if n.meta.vanish {
        assert done + [] == done;
        return true;
      }
      ghost var own, below := if Skipped(n.kind) then [] else [n], Tallied(n.children);
      NothingTallied(threshold);
      assert done + (own + below) == (done + own) + below && done + [] == done;
      LowConcat(done, own, threshold);
      LowConcat(done + own, below, threshold);
      LevelledConcat(LowNodes(done, threshold), LowNodes(own, threshold));
      LevelledConcat(LowNodes(done + own, threshold), LowNodes(below, threshold));
      if !Skipped(n.kind) {
        var tallied := Tally(n, threshold);
        if !tallied {
          return false;
        }
        GainMore(done, own, threshold);
      }
      assert Gained(done + own, threshold, scored0, unscored0, below0, low0);
      ok := Walk(n.children, threshold);
      if ok {
        GainMore(done + own, below, threshold);
      }
    }
  }

  lemma OneTallied(node: Node, threshold: real)
    ensures ScoredNodes([node]) == if HasScore(node) then [node] else []
    ensures LowNodes([node], threshold) == if IsLow(node, threshold) then [node] else []
    ensures AllLevelled(LowNodes([node], threshold)) ==>
              Entries([node], threshold) == if IsLow(node, threshold) then [ToEntry(node)] else []
  {
    var rest := [node][1..];
    assert rest == [];
    assert ScoredNodes([node]) == (if HasScore(node) then [node] + Filter(HasScore, rest) else Filter(HasScore, rest));
    if IsLow(node, threshold) && AllLevelled(LowNodes([node], threshold)) {
      assert LevelOf(LowNodes([node], threshold)[0].kind).Some?;
    }
  }

  lemma NothingTallied(threshold: real)
    ensures AllLevelled([]) && LowNodes([], threshold) == [] && Entries([], threshold) == [] && ScoredNodes([]) == []
  {
  }

  lemma GainMore(a: seq<Node>, b: seq<Node>, threshold: real)
    requires AllLevelled(LowNodes(a, threshold)) && AllLevelled(LowNodes(b, threshold))
    ensures AllLevelled(LowNodes(a + b, threshold))
    ensures Entries(a + b, threshold) == Entries(a, threshold) + Entries(b, threshold)
    ensures LowNodes(a + b, threshold) == LowNodes(a, threshold) + LowNodes(b, threshold)
    ensures ScoredNodes(a + b) == ScoredNodes(a) + ScoredNodes(b)
  {
    EntriesConcat(a, b, threshold);
    LowConcat(a, b, threshold);
    FilterConcat(HasScore, a, b);
  }

  function SummaryOf(tree: Tree, source: Option<string>, threshold: real,
                     collate: (string, string) -> bool): Result<Summary, string>
  {
    var nodes := Tallied(tree.parts);
    var low := LowNodes(nodes, threshold);
    if !AllLevelled(low) then Err(NO_LEVEL)
    else
      FilterShorter(HasScore, nodes);
      var scored := |ScoredNodes(nodes)|;
      Ok(Summary(Counts(scored, |nodes| - scored, |low|), UnscoredReason(|nodes| - scored, source),
                 Sort(WorstEntryFirst(collate), Entries(nodes, threshold))))
  }

  method SummarizeHierarchy(tree: Tree, source: Option<string>, threshold: real,
                            collate: (string, string) -> bool)
    returns (summary: Result<Summary, string>)
    ensures summary == SummaryOf(tree, source, threshold, collate)
  {
    hide AllLevelled, LowNodes, Entries, ScoredNodes, Tallied;
    var acc := new Acc();
    var ok := acc.Walk(tree.parts, threshold);
    if !ok {
      return Err(NO_LEVEL);
    }
    assert [] + Entries(Tallied(tree.parts), threshold) == Entries(Tallied(tree.parts), threshold);
    FilterShorter(HasScore, Tallied(tree.parts));
    return Ok(Summary(Counts(acc.scored, acc.unscored, acc.belowThreshold), UnscoredReason(acc.unscored, source),
                      Sort(WorstEntryFirst(collate), acc.lowConfidence)));
  }

  // ---------------------------------------------------------------- the report refines the summary

  function NodesOf(scored: seq<Scored>): (r: seq<Node>)
    ensures |r| == |scored|
  {
    if scored == [] then [] else [scored[0].node] + NodesOf(scored[1..])
  }

  lemma {:induction false} NodesOfConcat(a: seq<Scored>, b: seq<Scored>)
    ensures NodesOf(a + b) == NodesOf(a) + NodesOf(b)
  {
    if a == [] {
      assert a + b == b;
    } else {
      assert (a + b)[1..] == a[1..] + b;
      NodesOfConcat(a[1..], b);
    }
  }

  /** The report scores exactly the nodes the summary scores, and leaves as many unscored. */
  lemma {:induction false} SameNodes(nodes: seq<Node>, ordinal: nat, siblings: Siblings)
    ensures NodesOf(ScoredOfAll(nodes, ordinal, siblings)) == ScoredNodes(Tallied(nodes))
    ensures UnscoredInAll(nodes) + |ScoredNodes(Tallied(nodes))| == |Tallied(nodes)|
    decreases nodes, 1
  {
    hide ScoredOf, UnscoredIn, TalliedOf;
    if nodes != [] {
      var next := NextOrdinal(nodes[0], ordinal);
      SameNode(nodes[0], CtxAt(siblings, ordinal));
      SameNodes(nodes[1..], next, siblings);
      NodesOfConcat(ScoredOf(nodes[0], CtxAt(siblings, ordinal)), ScoredOfAll(nodes[1..], next, siblings));
      FilterConcat(HasScore, TalliedOf(nodes[0]), Tallied(nodes[1..]));
    }
  }

  lemma {:induction false} SameNode(node: Node, ctx: LabelCtx)
    ensures NodesOf(ScoredOf(node, ctx)) == ScoredNodes(TalliedOf(node))
    ensures UnscoredIn(node) + |ScoredNodes(TalliedOf(node))| == |TalliedOf(node)|
    decreases node, 0
  {
    hide ComputeLabel, Tallied, ScoredOfAll, UnscoredInAll;
    if !node.meta.vanish {
      if Skipped(node.kind) {
        SameNodes(node.children, 0, Constant(ctx));
        assert TalliedOf(node) == Tallied(node.children);
      } else {
        SameNodes(node.children, 0, ChildContext(ctx));
        NodesOfConcat(Own(node, ctx), ScoredOfAll(node.children, 0, ChildContext(ctx)));
        FilterConcat(HasScore, [node], Tallied(node.children));
        OneNode(node, ctx);
      }
    }
  }

  lemma OneNode(node: Node, ctx: LabelCtx)
    ensures NodesOf(Own(node, ctx)) == Filter(HasScore, [node])
    ensures |Filter(HasScore, [node])| == if HasScore(node) then 1 else 0
  {
    hide ComputeLabel;
    assert [node][1..] == [];
    assert forall x: Scored :: [x][1..] == [];
  }

  function Project(p: ScoredParagraph): Entry {
    Entry(p.nodeId, p.nodeType, p.ilvl, p.confidence, p.evidence)
  }

  /** The summary's entries are the report's low paragraphs, projected. */
  lemma {:induction false} SameEntries(nodes: seq<Node>, scored: seq<Scored>, threshold: real)
    requires AllReportable(scored) && NodesOf(scored) == ScoredNodes(nodes)
    ensures AllLevelled(LowNodes(nodes, threshold))
    ensures var low := (p: ScoredParagraph) => p.confidence < threshold;
            && Entries(nodes, threshold) == Map(Project, Filter(low, Paragraphs(scored)))
            && |LowNodes(nodes, threshold)| == Below(scored, threshold) == |Filter(low, Paragraphs(scored))|
    decreases |nodes|
  {
    if nodes != [] {
      if HasScore(nodes[0]) {
        assert ScoredNodes(nodes)[1..] == ScoredNodes(nodes[1..]);
        assert NodesOf(scored)[1..] == NodesOf(scored[1..]);
        SameEntries(nodes[1..], scored[1..], threshold);
      } else {
        SameEntries(nodes[1..], scored, threshold);
      }
    }
  }

  lemma ReportOrder(collate: (string, string) -> bool)
    requires TotalPreorder(collate)
    ensures TotalPreorder(WorstFirst(collate))
  {
    var leq := WorstFirst(collate);
    forall a, b ensures leq(a, b) || leq(b, a) {
      assert collate(a.nodeId, b.nodeId) || collate(b.nodeId, a.nodeId);
    }
    forall a, b, c | leq(a, b) && leq(b, c) ensures leq(a, c) {
      assert collate(a.nodeId, b.nodeId) && collate(b.nodeId, c.nodeId) ==> collate(a.nodeId, c.nodeId);
    }
  }

  /**
   When every scored node is structural, report and summary exist, agree on the counts and on why
   nodes are unscored, and the summary's list is the projection of the first `belowThreshold` paragraphs of the report.
   */
  lemma ReportRefinesSummary(tree: Tree, source: Option<string>, threshold: real,
                             collate: (string, string) -> bool)
    requires TotalPreorder(collate)
    requires AllReportable(ScoredOfAll(tree.parts, 0, Roots))
    ensures var scored := ScoredOfAll(tree.parts, 0, Roots);
            var counts := Counts(|scored|, UnscoredInAll(tree.parts), Below(scored, threshold));
            var paragraphs := Sort(WorstFirst(collate), Paragraphs(scored));
            var summary := SummaryOf(tree, source, threshold, collate);
            && counts.belowThreshold <= |paragraphs|
            && summary == Ok(Summary(counts, UnscoredReason(counts.unscored, source),
                                     Map(Project, paragraphs[..counts.belowThreshold])))
  {
    hide Paragraphs, Below, Entries, LowNodes, ScoredNodes, Tallied, ScoredOfAll, AllReportable, AllLevelled;
    var scored := ScoredOfAll(tree.parts, 0, Roots);
    var all := Paragraphs(scored);
    var leq := WorstFirst(collate);
    var low := (p: ScoredParagraph) => p.confidence < threshold;
    SameNodes(tree.parts, 0, Roots);
    SameEntries(Tallied(tree.parts), scored, threshold);
    ReportOrder(collate);
    SortFilter(leq, low, all);
    SortSorted(leq, all);
    SortedPrefix(leq, low, Sort(leq, all));
    SortMap(leq, WorstEntryFirst(collate), Project, Filter(low, all));
    SortLength(leq, Filter(low, all));
  }

  lemma SortLength<T>(leq: (T, T) -> bool, s: seq<T>)
    ensures |Sort(leq, s)| == |s|
  {
    SortPermutes(leq, s);
    assert |multiset(Sort(leq, s))| == |Sort(leq, s)|;
  }
}
