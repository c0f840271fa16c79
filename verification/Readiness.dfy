/** The issuance gate of src/lib/readiness-review.ts, against the walk that issues the document. */
module Readiness {
  import opened Text
  import opened SpecTree
  import opened Sorting
  import opened DocxContent

  datatype Finding =
    | UnresolvedChoiceToken(nodeId: string, text: string, bracket: bool, options: seq<string>)
    | SpecifierNotePresent(nodeId: string, text: string)
    | OpenComment(nodeId: string, text: string, author: string)
    | BodyObjectPresent(nodeId: string, text: string)

  function ChoiceTokenFindings(node: Node): seq<Finding> {
    seq(|node.meta.choiceTokens|, k requires 0 <= k < |node.meta.choiceTokens| =>
      UnresolvedChoiceToken(node.id, node.text, node.meta.choiceTokens[k].bracket, node.meta.choiceTokens[k].options))
  }

  function OpenCommentFindings(node: Node, comments: seq<Comment>): seq<Finding> {
    if comments == [] then []
    else
      var rest := OpenCommentFindings(node, comments[1..]);
      if comments[0].closed then rest else [OpenComment(node.id, node.text, comments[0].author)] + rest
  }

  predicate IsTextBox(node: Node) {
    node.kind == Object && node.meta.object_.Some? && node.meta.object_.value.kind.TextBox?
  }

  function BodyObjectFinding(node: Node): seq<Finding> {
    if IsTextBox(node) && !node.meta.acknowledged then [BodyObjectPresent(node.id, node.text)] else []
  }

  function AssessNode(node: Node): seq<Finding> {
    if node.kind == Note then
      if node.meta.acknowledged then ChoiceTokenFindings(node) + OpenCommentFindings(node, node.meta.comments)
      else [SpecifierNotePresent(node.id, node.text)]
    else if node.meta.vanish then []
    else ChoiceTokenFindings(node) + OpenCommentFindings(node, node.meta.comments) + BodyObjectFinding(node)
  }

  predicate IsSuppressedSubtree(node: Node) {
    node.kind != Note && node.meta.vanish
  }

  function WalkReadiness(nodes: seq<Node>): seq<Finding> {
    if nodes == [] then []
    else WalkNode(nodes[0]) + WalkReadiness(nodes[1..])
  }

  function WalkNode(node: Node): seq<Finding> {
    AssessNode(node) + if IsSuppressedSubtree(node) then [] else WalkReadiness(node.children)
  }

  // ---------------------------------------------------------------- what must be clear

  predicate CommentsClosed(comments: seq<Comment>) {
    forall k :: 0 <= k < |comments| ==> comments[k].closed
  }

  /** Nothing an editor has to resolve in what this node issues. */
  predicate Clear(node: Node) {
    || (node.kind != Note && node.meta.vanish)
    || (&& node.meta.choiceTokens == []
        && CommentsClosed(node.meta.comments)
        && (node.kind == Note ==> node.meta.acknowledged)
        && (node.kind == Object && node.meta.object_.Some? && node.meta.object_.value.kind.TextBox? ==>
              node.meta.acknowledged))
  }

  lemma {:induction false} OpenCommentsClosed(node: Node, comments: seq<Comment>)
    ensures OpenCommentFindings(node, comments) == [] <==> CommentsClosed(comments)
    ensures forall f :: f in OpenCommentFindings(node, comments) ==> f.nodeId == node.id
  {
    if comments != [] {
      OpenCommentsClosed(node, comments[1..]);
      assert comments[0].closed && CommentsClosed(comments[1..]) ==> CommentsClosed(comments) by {
        assert forall k :: 0 < k < |comments| ==> comments[k] == comments[1..][k - 1];
      }
    }
  }

  /** A node yields findings exactly when it is not clear, and they name it. */
  lemma AssessIffClear(node: Node)
    ensures AssessNode(node) == [] <==> Clear(node)
    ensures forall f :: f in AssessNode(node) ==> f.nodeId == node.id
  {
    OpenCommentsClosed(node, node.meta.comments);
    assert ChoiceTokenFindings(node) == [] <==> node.meta.choiceTokens == [] by {
      assert |ChoiceTokenFindings(node)| == |node.meta.choiceTokens|;
    }
  }

  /**
   What a node yields: its choice tokens and its open comments in order and then an unacknowledged
   text box; a note not acknowledged yields itself only, a hidden node that is no note nothing.
   */
  lemma NodeFindings(node: Node)
    ensures var found, tokens := AssessNode(node), node.meta.choiceTokens;
            var open := Filter((c: Comment) => !c.closed, node.meta.comments);
            var boxed := && node.kind == Object && node.meta.object_.Some? && node.meta.object_.value.kind.TextBox?
                         && !node.meta.acknowledged;
            if node.kind == Note && !node.meta.acknowledged then found == [SpecifierNotePresent(node.id, node.text)]
            else if node.kind != Note && node.meta.vanish then found == []
            else
              && |found| == |tokens| + |open| + (if boxed then 1 else 0)
              && (forall k :: 0 <= k < |tokens| ==>
                    found[k] == UnresolvedChoiceToken(node.id, node.text, tokens[k].bracket, tokens[k].options))
              && (forall k :: 0 <= k < |open| ==> found[|tokens| + k] == OpenComment(node.id, node.text, open[k].author))
              && (boxed ==> found[|found| - 1] == BodyObjectPresent(node.id, node.text))
  {
    hide Filter;
    OpenComments(node, node.meta.comments);
  }

  lemma {:induction false} OpenComments(node: Node, comments: seq<Comment>)
    ensures var open, found := Filter((c: Comment) => !c.closed, comments), OpenCommentFindings(node, comments);
            && |found| == |open|
            && forall k :: 0 <= k < |open| ==> found[k] == OpenComment(node.id, node.text, open[k].author)
  {
    if comments != [] {
      OpenComments(node, comments[1..]);
    }
  }

  // ---------------------------------------------------------------- gate and document

  function Assess(nodes: seq<Node>): seq<Finding> {
    if nodes == [] then [] else AssessNode(nodes[0]) + Assess(nodes[1..])
  }

  lemma {:induction false} AssessConcat(a: seq<Node>, b: seq<Node>)
    ensures Assess(a + b) == Assess(a) + Assess(b)
  {
    if a == [] {
      assert a + b == b;
    } else {
      assert (a + b)[1..] == a[1..] + b;
      AssessConcat(a[1..], b);
    }
  }

  lemma {:induction false} AssessEmpty(nodes: seq<Node>)
    ensures Assess(nodes) == [] <==> forall k :: 0 <= k < |nodes| ==> Clear(nodes[k])
    ensures forall f :: f in Assess(nodes) ==> exists k :: 0 <= k < |nodes| && f.nodeId == nodes[k].id
  {
    if nodes != [] {
      hide AssessNode, Clear;
      AssessIffClear(nodes[0]);
      AssessEmpty(nodes[1..]);
      assert forall k :: 0 < k < |nodes| ==> nodes[k] == nodes[1..][k - 1];
      forall f | f in Assess(nodes) ensures exists k :: 0 <= k < |nodes| && f.nodeId == nodes[k].id {
        if f in AssessNode(nodes[0]) {
          assert f.nodeId == nodes[0].id;
        } else {
          var k :| 0 <= k < |nodes[1..]| && f.nodeId == nodes[1..][k].id;
          assert f.nodeId == nodes[k + 1].id;
        }
      }
    }
  }

  /** The document goes on below notes and below what is visible and no object. */
  predicate IssuesBelow(node: Node) {
    node.kind == Note || (!node.meta.vanish && node.kind != Object)
  }

  /** Findings below visible objects, whose children the document walk does not visit. */
  function BelowObjects(nodes: seq<Node>): seq<Finding> {
    if nodes == [] then [] else BelowObject(nodes[0]) + BelowObjects(nodes[1..])
  }

  function BelowObject(node: Node): seq<Finding> {
    if IssuesBelow(node) then BelowObjects(node.children)
    else if node.meta.vanish then []
    else WalkReadiness(node.children)
  }

  /** What the issued part of one node's subtree yields. */
  function IssuedBy(node: Node): seq<Finding> {
    AssessNode(node) + if IssuesBelow(node) then Assess(InReach(node.children)) else []
  }

  lemma AssessOne(node: Node)
    ensures Assess([node]) == AssessNode(node)
  {
    hide AssessNode;
    assert [node][1..] == [];
  }

  lemma ReachFirst(nodes: seq<Node>)
    requires nodes != []
    ensures InReach(nodes)
         == [nodes[0]] + (if IssuesBelow(nodes[0]) then InReach(nodes[0].children) else []) + InReach(nodes[1..])
  {
  }

  lemma IssuedFirst(nodes: seq<Node>)
    requires nodes != []
    ensures Assess(InReach(nodes)) == IssuedBy(nodes[0]) + Assess(InReach(nodes[1..]))
  {
    ReachFirst(nodes);
    hide AssessNode, Assess, IssuesBelow, InReach;
    var node := nodes[0];
    var below := if IssuesBelow(node) then InReach(node.children) else [];
    var rest := InReach(nodes[1..]);
    AssessOne(node);
    AssessConcat([node], below);
    AssessConcat([node] + below, rest);
    AssessNothing();
  }

  lemma AssessNothing()
    ensures Assess([]) == []
  {
  }

  /** The gate finds what the issued nodes hold, and what hides below objects besides. */
  lemma {:induction false} WalkCounts(nodes: seq<Node>)
    ensures |WalkReadiness(nodes)| == |Assess(InReach(nodes))| + |BelowObjects(nodes)|
    ensures BelowObjects(nodes) == [] ==> WalkReadiness(nodes) == Assess(InReach(nodes))
    decreases nodes, 1
  {
    if nodes != [] {
      IssuedFirst(nodes);
      hide WalkNode, BelowObject, IssuedBy, Assess, InReach;
      NodeCounts(nodes[0]);
      WalkCounts(nodes[1..]);
    }
  }

  lemma {:induction false} NodeCounts(node: Node)
    ensures |WalkNode(node)| == |IssuedBy(node)| + |BelowObject(node)|
    ensures BelowObject(node) == [] ==> WalkNode(node) == IssuedBy(node)
    decreases node, 0
  {
    WalkCounts(node.children);
    hide AssessNode, WalkReadiness, Assess, BelowObjects, InReach;
  }

  /** The nodes inside visible objects, which the gate visits and the document walk does not. */
  function Interior(nodes: seq<Node>): seq<Node> {
    if nodes == [] then [] else InteriorOf(nodes[0]) + Interior(nodes[1..])
  }

  function InteriorOf(node: Node): seq<Node> {
    if IssuesBelow(node) then Interior(node.children)
    else if node.meta.vanish then []
    else Visited(node.children)
  }

  /** All nodes but those below hidden nodes other than notes, in document order. */
  function Visited(nodes: seq<Node>): seq<Node> {
    if nodes == [] then []
    else
      var below := nodes[0].kind == Note || !nodes[0].meta.vanish;
      [nodes[0]] + (if below then Visited(nodes[0].children) else []) + Visited(nodes[1..])
  }

  lemma {:induction false} WalkVisits(nodes: seq<Node>)
    ensures WalkReadiness(nodes) == Assess(Visited(nodes))
    decreases nodes
  {
    if nodes != [] {
      var node := nodes[0];
      var below := if IsSuppressedSubtree(node) then [] else Visited(node.children);
      WalkVisits(node.children);
      WalkVisits(nodes[1..]);
      hide AssessNode, IsSuppressedSubtree, Assess;
      AssessNothing();
      AssessOne(node);
      AssessConcat([node], below);
      AssessConcat([node] + below, Visited(nodes[1..]));
    } else {
      AssessNothing();
    }
  }

  lemma {:induction false} BelowIsInterior(nodes: seq<Node>)
    ensures BelowObjects(nodes) == Assess(Interior(nodes))
    decreases nodes
  {
    if nodes != [] {
      BelowIsInterior(nodes[0].children);
      BelowIsInterior(nodes[1..]);
      WalkVisits(nodes[0].children);
      hide Visited, WalkReadiness, IsSuppressedSubtree, IssuesBelow, Assess;
      AssessNothing();
      AssessConcat(InteriorOf(nodes[0]), Interior(nodes[1..]));
    } else {
      AssessNothing();
    }
  }

  predicate AllClear(nodes: seq<Node>) {
    forall k :: 0 <= k < |nodes| ==> Clear(nodes[k])
  }

  /**
   The gate reports exactly the findings of the nodes the document walk reaches, in document
   order, if and only if every node inside a visible object is clear. It is then empty exactly
   when every node reached is clear.
   */
  lemma GateIsExact(tree: Tree)
    ensures WalkReadiness(tree.parts) == Assess(InReach(tree.parts)) <==> AllClear(Interior(tree.parts))
    ensures AllClear(Interior(tree.parts)) ==>
              (WalkReadiness(tree.parts) == [] <==> AllClear(InReach(tree.parts)))
    ensures AllClear(Interior(tree.parts)) ==>
              forall f :: f in WalkReadiness(tree.parts) ==>
                exists k :: 0 <= k < |InReach(tree.parts)| && f.nodeId == InReach(tree.parts)[k].id
  {
    hide WalkReadiness, Clear, Assess, BelowObjects, InReach, Interior;
    WalkCounts(tree.parts);
    BelowIsInterior(tree.parts);
    AssessEmpty(Interior(tree.parts));
    AssessEmpty(InReach(tree.parts));
  }

  /**
   The two differ at an object with an unresolved choice inside: the document walk issues the
   inner text with the object's blob and visits the object only, the gate visits both.
   */
  lemma ChoiceInsideObject(tree: Tree, object_: Node, inner: Node)
    requires tree.parts == [object_] && object_.kind == Object && !object_.meta.vanish && Clear(object_)
    requires object_.children == [inner] && inner.kind == ObjectText && !inner.meta.vanish && inner.children == []
    requires inner.meta.choiceTokens != []
    ensures AllClear(InReach(tree.parts)) && WalkReadiness(tree.parts) != []
    ensures forall f :: f in WalkReadiness(tree.parts) ==> f.nodeId == inner.id
  {
    hide Clear;
    AssessIffClear(object_);
    AssessIffClear(inner);
    assert |ChoiceTokenFindings(inner)| == |inner.meta.choiceTokens|;
    assert AssessNode(inner) != [];
    hide AssessNode;
    assert [object_][1..] == [] && [inner][1..] == [];
    assert InReach([]) == [] && WalkReadiness([]) == [];
    assert InReach([object_]) == [object_];
    assert WalkReadiness([inner]) == AssessNode(inner);
    assert WalkNode(object_) == AssessNode(inner);
    assert WalkReadiness([object_]) == AssessNode(inner);
  }

  /** Even with findings below objects the gate never passes an issue that is not clear. */
  lemma GateIsSafe(tree: Tree)
    requires WalkReadiness(tree.parts) == []
    ensures AllClear(InReach(tree.parts))
  {
    hide WalkReadiness, Clear, Assess, BelowObjects, InReach;
    WalkCounts(tree.parts);
    AssessEmpty(InReach(tree.parts));
  }

  // ---------------------------------------------------------------- summary

  datatype Summary = Summary(choiceToken: nat, specifierNote: nat, openComment: nat, bodyObject: nat, total: nat)

  function CountOf(findings: seq<Finding>, ofType: Finding -> bool): nat {
    if findings == [] then 0 else (if ofType(findings[0]) then 1 else 0) + CountOf(findings[1..], ofType)
  }

  function Summarize(findings: seq<Finding>): Summary {
    Summary(CountOf(findings, (f: Finding) => f.UnresolvedChoiceToken?),
            CountOf(findings, (f: Finding) => f.SpecifierNotePresent?),
            CountOf(findings, (f: Finding) => f.OpenComment?),
            CountOf(findings, (f: Finding) => f.BodyObjectPresent?),
            |findings|)
  }

  /** The four counts add up to the total. */
  lemma {:induction false} SummaryAddsUp(findings: seq<Finding>)
    ensures var s := Summarize(findings);
            s.choiceToken + s.specifierNote + s.openComment + s.bodyObject == s.total
  {
    if findings != [] {
      SummaryAddsUp(findings[1..]);
    }
  }

  /** Every count is the number of findings of its type. */
  lemma {:induction false} SummaryCounts(findings: seq<Finding>)
    ensures var s := Summarize(findings);
            && s.choiceToken == |Filter((f: Finding) => f.UnresolvedChoiceToken?, findings)|
            && s.specifierNote == |Filter((f: Finding) => f.SpecifierNotePresent?, findings)|
            && s.openComment == |Filter((f: Finding) => f.OpenComment?, findings)|
            && s.bodyObject == |Filter((f: Finding) => f.BodyObjectPresent?, findings)|
            && s.total == |findings|
  {
    if findings != [] {
      SummaryCounts(findings[1..]);
    }
  }
}
