/** What report and summary show: the visible scored paragraphs, field by field, worst first. */
module HierarchyContent {
  import opened Text
  import opened SpecTree
  import opened Sorting
  import opened HierarchyReport
  import opened HierarchySummary
  import opened DocxContent

  /** The nodes that neither are hidden nor stand below a hidden one, in document order. */
  function Seen(nodes: seq<Node>): seq<Node> {
    if nodes == [] then []
    else if nodes[0].meta.vanish then Seen(nodes[1..])
    else [nodes[0]] + Seen(nodes[0].children) + Seen(nodes[1..])
  }

  predicate IsParagraph(node: Node) {
    node.kind != Spec && node.kind != Note && node.kind != Continuation
  }

  predicate IsScored(node: Node) {
    IsParagraph(node) && node.meta.inference.Some?
  }

  predicate IsUnscored(node: Node) {
    IsParagraph(node) && node.meta.inference.None?
  }

  predicate ScoredBelow(node: Node, threshold: real) {
    IsScored(node) && node.meta.inference.value.confidence < threshold
  }

  /** The report's entry for a node, its label aside. */
  predicate Describes(p: ScoredParagraph, node: Node) {
    && IsScored(node)
    && p.nodeId == node.id && p.nodeType == node.kind
    && p.ilvl < |LEVEL_NODE_TYPES| && LEVEL_NODE_TYPES[p.ilvl] == node.kind
    && p.preview <= node.text && |p.preview| == (if |node.text| < 80 then |node.text| else 80)
    && p.confidence == node.meta.inference.value.confidence
    && p.signalUsed == node.meta.inference.value.signalUsed
    && p.agreed == node.meta.inference.value.agreed
    && p.evidence == node.meta.inference.value.evidence
    && p.conflicts == (if node.meta.conflicts == [] then None else Some(node.meta.conflicts))
  }

  /** The summary's entry for a node. */
  predicate Lists(e: Entry, node: Node) {
    && IsScored(node)
    && e.nodeId == node.id && e.nodeType == node.kind
    && e.ilvl < |LEVEL_NODE_TYPES| && LEVEL_NODE_TYPES[e.ilvl] == node.kind
    && e.confidence == node.meta.inference.value.confidence
    && e.evidence == node.meta.inference.value.evidence
  }

  // ---------------------------------------------------------------- the nodes walked

  lemma {:induction false} FilterTwice<T>(first: T -> bool, second: T -> bool, both: T -> bool, s: seq<T>)
    requires forall x :: both(x) <==> first(x) && second(x)
    ensures Filter(second, Filter(first, s)) == Filter(both, s)
  {
    if s != [] {
      FilterTwice(first, second, both, s[1..]);
      if first(s[0]) {
        assert Filter(first, s)[1..] == Filter(first, s[1..]);
      }
    }
  }

  lemma {:induction false} TalliedSeen(nodes: seq<Node>)
    ensures Tallied(nodes) == Filter(IsParagraph, Seen(nodes))
  {
    if nodes != [] {
      var node := nodes[0];
      TalliedSeen(nodes[1..]);
      if node.meta.vanish {
        assert Tallied(nodes) == Tallied(nodes[1..]);
      } else {
        TalliedSeen(node.children);
        FilterConcat(IsParagraph, [node] + Seen(node.children), Seen(nodes[1..]));
        FilterConcat(IsParagraph, [node], Seen(node.children));
        FilterOne(IsParagraph, node);
      }
    }
  }

  lemma FilterOne<T>(keep: T -> bool, x: T)
    ensures Filter(keep, [x]) == if keep(x) then [x] else []
  {
    assert [x][1..] == [];
  }

  lemma {:induction false} FilterParts<T>(keep: T -> bool, drop: T -> bool, s: seq<T>)
    requires forall x :: x in s ==> (drop(x) <==> !keep(x))
    ensures |Filter(keep, s)| + |Filter(drop, s)| == |s|
  {
    if s != [] {
      FilterParts(keep, drop, s[1..]);
    }
  }

  /** Both walks score the visible paragraphs with an inference and count those without. */
  lemma NodesWalked(nodes: seq<Node>)
    ensures NodesOf(ScoredOfAll(nodes, 0, Roots)) == ScoredNodes(Tallied(nodes)) == Filter(IsScored, Seen(nodes))
    ensures UnscoredInAll(nodes) == |Filter(IsUnscored, Seen(nodes))|
  {
    hide Tallied, Seen, ScoredOfAll, UnscoredInAll;
    var without := (n: Node) => !HasScore(n);
    SameNodes(nodes, 0, Roots);
    TalliedSeen(nodes);
    FilterTwice(IsParagraph, HasScore, IsScored, Seen(nodes));
    FilterTwice(IsParagraph, without, IsUnscored, Seen(nodes));
    FilterParts(HasScore, without, Tallied(nodes));
  }

  // ---------------------------------------------------------------- the report

  lemma LevelListed(kind: NodeType)
    ensures LevelOf(kind).Some? <==> kind in LEVEL_NODE_TYPES
    ensures LevelOf(kind).Some? ==> LEVEL_NODE_TYPES[LevelOf(kind).value] == kind
  {
    hide LevelOf;
    LevelsInverse(kind, LevelOf(kind).GetOr(0));
  }

  lemma ParagraphDescribes(s: Scored)
    requires Reportable(s) && IsParagraph(s.node)
    ensures Describes(ToScoredParagraph(s), s.node) && ToScoredParagraph(s).label_ == s.label_
  {
    hide LevelOf;
    LevelListed(s.node.kind);
  }

  lemma {:induction false} ParagraphsDescribe(scored: seq<Scored>)
    requires AllReportable(scored) && forall k :: 0 <= k < |scored| ==> IsParagraph(NodesOf(scored)[k])
    ensures forall k :: 0 <= k < |scored| ==>
              Describes(Paragraphs(scored)[k], NodesOf(scored)[k]) && Paragraphs(scored)[k].label_ == scored[k].label_
  {
    hide Describes, Reportable, ToScoredParagraph, IsParagraph;
    if scored != [] {
      assert NodesOf(scored)[0] == scored[0].node && NodesOf(scored)[1..] == NodesOf(scored[1..]);
      assert Paragraphs(scored)[1..] == Paragraphs(scored[1..]);
      forall k | 0 <= k < |scored[1..]| ensures IsParagraph(NodesOf(scored[1..])[k]) {
        assert NodesOf(scored[1..])[k] == NodesOf(scored)[k + 1];
      }
      ParagraphDescribes(scored[0]);
      ParagraphsDescribe(scored[1..]);
      forall k | 1 <= k < |scored|
        ensures Describes(Paragraphs(scored)[k], NodesOf(scored)[k]) && Paragraphs(scored)[k].label_ == scored[k].label_
      {
        assert Paragraphs(scored)[k] == Paragraphs(scored[1..])[k - 1] && NodesOf(scored)[k] == NodesOf(scored[1..])[k - 1];
      }
    }
  }

  lemma {:induction false} NodeOf(scored: seq<Scored>, k: nat)
    requires k < |scored|
    ensures NodesOf(scored)[k] == scored[k].node
  {
    if k > 0 {
      NodeOf(scored[1..], k - 1);
    }
  }

  lemma {:induction false} BelowCounts(scored: seq<Scored>, threshold: real)
    requires forall k :: 0 <= k < |scored| ==> HasScore(scored[k].node)
    requires forall k :: 0 <= k < |scored| ==> IsParagraph(NodesOf(scored)[k])
    ensures Below(scored, threshold) == |Filter((n: Node) => ScoredBelow(n, threshold), NodesOf(scored))|
  {
    if scored != [] {
      assert NodesOf(scored)[0] == scored[0].node && NodesOf(scored)[1..] == NodesOf(scored[1..]);
      forall k | 0 <= k < |scored[1..]| ensures IsParagraph(NodesOf(scored[1..])[k]) {
        assert NodesOf(scored[1..])[k] == NodesOf(scored)[k + 1];
      }
      BelowCounts(scored[1..], threshold);
    }
  }

  lemma AllInFilter<T>(keep: T -> bool, s: seq<T>)
    ensures forall k :: 0 <= k < |Filter(keep, s)| ==> keep(Filter(keep, s)[k])
  {
    FilterMembers(keep, s);
    forall k | 0 <= k < |Filter(keep, s)| ensures keep(Filter(keep, s)[k]) {
      assert Filter(keep, s)[k] in Filter(keep, s);
    }
  }

  /** The report fails exactly when some visible scored paragraph is of no structural type. */
  lemma ReportFailsIff(nodes: seq<Node>)
    ensures AllReportable(ScoredOfAll(nodes, 0, Roots))
       <==> var found := Filter(IsScored, Seen(nodes)); forall k :: 0 <= k < |found| ==> found[k].kind in LEVEL_NODE_TYPES
  {
    hide ScoredOfAll, Seen, IsScored, LevelOf;
    var scored, found := ScoredOfAll(nodes, 0, Roots), Filter(IsScored, Seen(nodes));
    NodesWalked(nodes);
    forall k | 0 <= k < |scored|
      ensures found[k] == scored[k].node && (Reportable(scored[k]) <==> found[k].kind in LEVEL_NODE_TYPES)
    {
      NodeOf(scored, k);
      LevelListed(found[k].kind);
    }
  }

  /**
   The paragraphs before sorting are the visible scored ones in document order, each with its own
   values; the counts are those of the visible paragraphs.
   */
  lemma ReportShows(nodes: seq<Node>, threshold: real)
    requires AllReportable(ScoredOfAll(nodes, 0, Roots))
    ensures var found, scored := Filter(IsScored, Seen(nodes)), ScoredOfAll(nodes, 0, Roots);
            && |Paragraphs(scored)| == |scored| == |found|
            && (forall k :: 0 <= k < |found| ==>
                  Describes(Paragraphs(scored)[k], found[k]) && Paragraphs(scored)[k].label_ == scored[k].label_)
            && UnscoredInAll(nodes) == |Filter(IsUnscored, Seen(nodes))|
            && Below(scored, threshold) == |Filter((n: Node) => ScoredBelow(n, threshold), Seen(nodes))|
  {
    hide ScoredOfAll, Seen, Describes, UnscoredInAll, AllReportable, Paragraphs, Below, ScoredBelow;
    var found, scored := Filter(IsScored, Seen(nodes)), ScoredOfAll(nodes, 0, Roots);
    var below := (n: Node) => ScoredBelow(n, threshold);
    NodesWalked(nodes);
    AllInFilter(IsScored, Seen(nodes));
    assert forall k :: 0 <= k < |scored| ==> IsParagraph(found[k]);
    ParagraphsDescribe(scored);
    BelowCounts(scored, threshold);
    BelowIsScored(threshold);
    FilterTwice(IsScored, below, below, Seen(nodes));
  }

  lemma BelowIsScored(threshold: real)
    ensures forall n :: ScoredBelow(n, threshold) ==> IsScored(n)
  {
  }

  /** Sorting keeps the paragraphs and puts lower confidence first, ties in the order of the ids. */
  lemma WorstComeFirst(paragraphs: seq<ScoredParagraph>, collate: (string, string) -> bool)
    requires TotalPreorder(collate)
    ensures var sorted := Sort(WorstFirst(collate), paragraphs);
            && multiset(sorted) == multiset(paragraphs)
            && forall i, j :: 0 <= i < j < |sorted| ==>
                 || sorted[i].confidence < sorted[j].confidence
                 || (sorted[i].confidence == sorted[j].confidence && collate(sorted[i].nodeId, sorted[j].nodeId))
  {
    hide Sort;
    ReportOrder(collate);
    SortPermutes(WorstFirst(collate), paragraphs);
    SortSorted(WorstFirst(collate), paragraphs);
  }

  /** A reason is given exactly when something is unscored, and it depends on the source alone. */
  lemma ReasonGiven(unscored: nat, source: Option<string>)
    ensures UnscoredReason(unscored, source)
         == if unscored == 0 then None
            else if source == Some("ufgs") then Some("explicit structure from source markup — no inference to score")
            else Some("no inference provenance recorded — the 5-signal engine did not score these paragraphs "
                      + "(pre-provenance parse, non-DOCX source, or manually inserted); re-importing a DOCX master "
                      + "regenerates scores")
  {
  }

  // ---------------------------------------------------------------- the summary

  lemma {:induction false} LowIsFilter(nodes: seq<Node>, threshold: real)
    requires forall k :: 0 <= k < |nodes| ==> IsParagraph(nodes[k])
    ensures LowNodes(nodes, threshold) == Filter((n: Node) => ScoredBelow(n, threshold), nodes)
  {
    if nodes != [] {
      LowIsFilter(nodes[1..], threshold);
    }
  }

  lemma {:induction false} EntriesList(nodes: seq<Node>, threshold: real)
    requires forall k :: 0 <= k < |nodes| ==> IsParagraph(nodes[k])
    requires AllLevelled(LowNodes(nodes, threshold))
    ensures var low, entries := LowNodes(nodes, threshold), Entries(nodes, threshold);
            |entries| == |low| && forall k :: 0 <= k < |low| ==> Lists(entries[k], low[k])
  {
    hide Lists;
    if nodes != [] {
      if IsLow(nodes[0], threshold) {
        assert LowNodes(nodes, threshold)[0] == nodes[0];
        assert LowNodes(nodes, threshold)[1..] == LowNodes(nodes[1..], threshold);
        EntryLists(nodes[0]);
      }
      EntriesList(nodes[1..], threshold);
    }
  }

  lemma EntryLists(node: Node)
    requires HasScore(node) && LevelOf(node.kind).Some? && IsParagraph(node)
    ensures Lists(ToEntry(node), node)
  {
    hide LevelOf;
    LevelListed(node.kind);
  }

  /** The summary lists the visible paragraphs below the threshold; it fails when one of them has no level. */
  lemma SummaryShows(tree: Tree, source: Option<string>, threshold: real, collate: (string, string) -> bool)
    ensures var low := Filter((n: Node) => ScoredBelow(n, threshold), Seen(tree.parts));
            var summary := SummaryOf(tree, source, threshold, collate);
            && (summary.Ok? <==> forall k :: 0 <= k < |low| ==> low[k].kind in LEVEL_NODE_TYPES)
            && (summary.Ok? ==>
                  && summary.value.counts
                     == HierarchyReport.Counts(|Filter(IsScored, Seen(tree.parts))|,
                                               |Filter(IsUnscored, Seen(tree.parts))|, |low|)
                  && summary.value.unscoredReason == UnscoredReason(summary.value.counts.unscored, source)
                  && exists entries: seq<Entry> ::
                       && summary.value.lowConfidence == Sort(WorstEntryFirst(collate), entries)
                       && |entries| == |low| && forall k :: 0 <= k < |low| ==> Lists(entries[k], low[k]))
  {
    hide Tallied, Seen, LowNodes, Entries, Lists, LevelOf, ScoredBelow, Sort, UnscoredReason, IsParagraph, Filter;
    var nodes := Tallied(tree.parts);
    var low := LowNodes(nodes, threshold);
    NodesWalked(tree.parts);
    SameNodes(tree.parts, 0, Roots);
    LowWalked(tree.parts, threshold);
    forall k | 0 <= k < |low| ensures LevelOf(low[k].kind).Some? <==> low[k].kind in LEVEL_NODE_TYPES {
      LevelListed(low[k].kind);
    }
    if AllLevelled(low) {
      EntriesList(nodes, threshold);
      var entries := Entries(nodes, threshold);
      assert |entries| == |low| && forall k :: 0 <= k < |low| ==> Lists(entries[k], low[k]);
    }
  }

  lemma LowWalked(nodes: seq<Node>, threshold: real)
    ensures forall k :: 0 <= k < |Tallied(nodes)| ==> IsParagraph(Tallied(nodes)[k])
    ensures LowNodes(Tallied(nodes), threshold) == Filter((n: Node) => ScoredBelow(n, threshold), Seen(nodes))
  {
    hide Tallied, Seen, LowNodes, ScoredBelow;
    var below := (n: Node) => ScoredBelow(n, threshold);
    TalliedSeen(nodes);
    AllInFilter(IsParagraph, Seen(nodes));
    LowIsFilter(Tallied(nodes), threshold);
    BelowIsScored(threshold);
    FilterTwice(IsParagraph, below, below, Seen(nodes));
  }
}
