/**
 The vanish-style namespacing of src/generator/object-vanish-namespace.ts: every tree's hidden
 character-style ids, and the references to them, are renamed to ids of the tree's own.
 */
module VanishNamespace {
  import opened Text
  import opened SpecTree
  import opened Sorting
  import opened Counting
  import opened VanishStyles

  type Renames = map<string, string>

  const VAL := "@_w:val"
  const RSTYLE := "w:rStyle"

  // ---------------------------------------------------------------- allocation

  function BaseName(id: string, treeIndex: nat): string {
    StripVanishNamespace(id) + (SEPARATOR + Decimal(treeIndex))
  }

  function Candidate(base: string, suffix: nat): string {
    if suffix == 0 then base else base + ("-" + Decimal(suffix))
  }

  /** The first suffix from `k` on whose candidate is not taken. */
  function FreeFrom(base: string, k: nat, taken: set<string>): (suffix: nat)
    ensures k <= suffix <= k + |taken|
    ensures Candidate(base, suffix) !in taken
    ensures forall j :: k <= j < suffix ==> Candidate(base, j) in taken
    decreases |taken|
  {
    var c := Candidate(base, k);
    if c in taken then
      var rest := taken - {c};
      assert forall j :: k < j ==> Candidate(base, j) != c by {
        forall j | k < j ensures Candidate(base, j) != c {
          CandidateInjective(base, j, k);
        }
      }
      FreeFrom(base, k + 1, rest)
    else k
  }

  function Allocated(id: string, treeIndex: nat, reserved: set<string>): string {
    var base := BaseName(id, treeIndex);
    Candidate(base, FreeFrom(base, 0, reserved))
  }

  lemma CandidateInjective(base: string, j: nat, k: nat)
    ensures Candidate(base, j) == Candidate(base, k) ==> j == k
  {
    if Candidate(base, j) == Candidate(base, k) {
      assert Candidate(base, j)[|base|..] == if j == 0 then "" else "-" + Decimal(j);
      assert Candidate(base, k)[|base|..] == if k == 0 then "" else "-" + Decimal(k);
      if j > 0 && k > 0 {
        assert ("-" + Decimal(j))[1..] == Decimal(j) && ("-" + Decimal(k))[1..] == Decimal(k);
        DecimalInjective(j, k);
      }
    }
  }

  class ReservedIds {
    var ids: set<string>

    constructor (start: set<string>)
      ensures ids == start
    {
      ids := start;
    }

    /** Terminates after at most one candidate more than there are reserved ids. */
    method Allocate(id: string, treeIndex: nat) returns (candidate: string)
      modifies this
      ensures candidate == Allocated(id, treeIndex, old(ids))
      ensures ids == old(ids) + {candidate}
    {
      var base := BaseName(id, treeIndex);
      candidate := base;
      var suffix := 0;
      ghost var untried := ids;
      while candidate in ids
        invariant candidate == Candidate(base, suffix)
        invariant FreeFrom(base, suffix, untried) == FreeFrom(base, 0, ids)
        invariant untried <= ids && forall j :: suffix <= j && Candidate(base, j) in ids ==> Candidate(base, j) in untried
        decreases |untried|
      {
        forall j | suffix < j ensures Candidate(base, j) != candidate {
          CandidateInjective(base, j, suffix);
        }
        untried := untried - {candidate};
        suffix := suffix + 1;
        candidate := base + ("-" + Decimal(suffix));
      }
      ids := ids + {candidate};
    }
  }

  /** The names minted for `ids` in order, each avoiding those minted before it. */
  function Minted(ids: seq<string>, treeIndex: nat, reserved: set<string>): (names: seq<string>)
    ensures |names| == |ids|
    decreases ids
  {
    if ids == [] then []
    else
      var first := Allocated(ids[0], treeIndex, reserved);
      [first] + Minted(ids[1..], treeIndex, reserved + {first})
  }

  function Zip(ids: seq<string>, names: seq<string>): (m: Renames)
    requires |ids| == |names|
    ensures m.Keys == Elements(ids)
  {
    if ids == [] then map[]
    else
      assert ids == [ids[0]] + ids[1..];
      Zip(ids[1..], names[1..])[ids[0] := names[0]]
  }

  lemma {:induction false} ZipAt(ids: seq<string>, names: seq<string>, k: nat)
    requires |ids| == |names| && Distinct(ids) && k < |ids|
    ensures ids[k] in Zip(ids, names) && Zip(ids, names)[ids[k]] == names[k]
  {
    if k > 0 {
      ZipAt(ids[1..], names[1..], k - 1);
      assert ids[1..][k - 1] == ids[k] && ids[0] != ids[k];
    }
  }

  method AllocateFor(ids: seq<string>, treeIndex: nat, reserved: ReservedIds) returns (renames: Renames)
    modifies reserved
    ensures renames == Zip(ids, Minted(ids, treeIndex, old(reserved.ids)))
    ensures reserved.ids == old(reserved.ids) + Elements(Minted(ids, treeIndex, old(reserved.ids)))
  {
    hide Allocated, Zip;
    var names := [];
    ghost var start := reserved.ids;
    ghost var goal := Minted(ids, treeIndex, start);
    assert ids[0..] == ids;
    for i := 0 to |ids|
      invariant reserved.ids == start + Elements(names)
      invariant |names| == i && names + Minted(ids[i..], treeIndex, reserved.ids) == goal
    {
      assert ids[i..][1..] == ids[i + 1..];
      var minted := reserved.Allocate(ids[i], treeIndex);
      names := names + [minted];
    }
    assert names == goal;
    renames := Zip(ids, names);
  }

  // ---------------------------------------------------------------- renaming

  function NewName(id: string, renames: Renames): string {
    if id in renames then renames[id] else id
  }

  function NewNames(ids: seq<string>, renames: Renames): (r: seq<string>)
    ensures |r| == |ids| && forall k :: 0 <= k < |ids| ==> r[k] == NewName(ids[k], renames)
  {
    seq(|ids|, k requires 0 <= k < |ids| => NewName(ids[k], renames))
  }

  /** The style a `w:rStyle` names: its value as text, empty when it has none. */
  function StyleKey(attrs: Option<map<string, AttrValue>>): string {
    if attrs.None? || VAL !in attrs.value then ""
    else
      match attrs.value[VAL]
      case Str(s) => s
      case Num(digits) => digits
  }

  predicate IsRenamed(attrs: Option<map<string, AttrValue>>, renames: Renames) {
    StyleKey(attrs) != "" && StyleKey(attrs) in renames
  }

  function RenamedAttrs(attrs: Option<map<string, AttrValue>>, renames: Renames): Option<map<string, AttrValue>>
    requires IsRenamed(attrs, renames)
  {
    Some(attrs.value[VAL := Str(renames[StyleKey(attrs)])])
  }

  /** A renamed `w:rStyle` loses what it contained; an unrenamed node is kept whole. */
  function RenamedBlob(blob: Blob, renames: Renames): Blob
    decreases blob, 0
  {
    match blob
    case Untagged(_) => blob
    case Leaf(tag, _, attrs) =>
      if tag == RSTYLE && IsRenamed(attrs, renames) then Element(tag, [], RenamedAttrs(attrs, renames)) else blob
    case Element(tag, children, attrs) =>
      if tag == "" then blob
      else if tag == RSTYLE then
        if IsRenamed(attrs, renames) then Element(tag, [], RenamedAttrs(attrs, renames)) else blob
      else Element(tag, RenamedBlobs(children, renames), attrs)
  }

  function RenamedBlobs(blobs: seq<Blob>, renames: Renames): (r: seq<Blob>)
    ensures |r| == |blobs|
    decreases blobs, 1
  {
    if blobs == [] then [] else [RenamedBlob(blobs[0], renames)] + RenamedBlobs(blobs[1..], renames)
  }

  function RenamedObject(object_: ObjectMeta, renames: Renames): ObjectMeta {
    var ids := object_.vanishCharStyleIds;
    object_.(blob := RenamedBlobs(object_.blob, renames),
             vanishCharStyleIds := if ids.Some? then Some(NewNames(ids.value, renames)) else None)
  }

  function RenamedNode(node: Node, renames: Renames): Node
    decreases node, 0
  {
    var object_ := node.meta.object_;
    var renamed := if object_.Some? then Some(RenamedObject(object_.value, renames)) else None;
    node.(children := RenamedNodes(node.children, renames), meta := node.meta.(object_ := renamed))
  }

  function RenamedNodes(nodes: seq<Node>, renames: Renames): (r: seq<Node>)
    ensures |r| == |nodes|
    decreases nodes, 1
  {
    if nodes == [] then [] else [RenamedNode(nodes[0], renames)] + RenamedNodes(nodes[1..], renames)
  }

  // ---------------------------------------------------------------- references

  /** The styles the `w:rStyle` nodes of a blob name, in document order. */
  function BlobRefs(blob: Blob): seq<string>
    decreases blob, 0
  {
    match blob
    case Untagged(_) => []
    case Leaf(tag, _, attrs) => if tag == RSTYLE && StyleKey(attrs) != "" then [StyleKey(attrs)] else []
    case Element(tag, children, attrs) =>
      if tag == "" then []
      else if tag == RSTYLE then (if StyleKey(attrs) != "" then [StyleKey(attrs)] else [])
      else BlobsRefs(children)
  }

  function BlobsRefs(blobs: seq<Blob>): seq<string>
    decreases blobs, 1
  {
    if blobs == [] then [] else BlobRefs(blobs[0]) + BlobsRefs(blobs[1..])
  }

  function NodeRefs(node: Node): seq<string>
    decreases node, 0
  {
    (if node.meta.object_.Some? then BlobsRefs(node.meta.object_.value.blob) else []) + NodesRefs(node.children)
  }

  function NodesRefs(nodes: seq<Node>): seq<string>
    decreases nodes, 1
  {
    if nodes == [] then [] else NodeRefs(nodes[0]) + NodesRefs(nodes[1..])
  }

  lemma NewNamesConcat(a: seq<string>, b: seq<string>, renames: Renames)
    ensures NewNames(a + b, renames) == NewNames(a, renames) + NewNames(b, renames)
  {
  }

  /** Every reference of the renamed blob is the new name of the reference at its place. */
  lemma {:induction false} BlobRefsRenamed(blob: Blob, renames: Renames)
    requires "" !in renames.Values
    ensures BlobRefs(RenamedBlob(blob, renames)) == NewNames(BlobRefs(blob), renames)
    decreases blob, 0
  {
    if blob.Element? && blob.tag != "" && blob.tag != RSTYLE {
      BlobsRefsRenamed(blob.children, renames);
    } else if blob.Leaf? || blob.Element? {
      if blob.tag == RSTYLE && IsRenamed(blob.attrs, renames) {
        assert StyleKey(RenamedAttrs(blob.attrs, renames)) == renames[StyleKey(blob.attrs)];
        assert renames[StyleKey(blob.attrs)] in renames.Values;
      }
    }
  }

  lemma {:induction false} BlobsRefsRenamed(blobs: seq<Blob>, renames: Renames)
    requires "" !in renames.Values
    ensures BlobsRefs(RenamedBlobs(blobs, renames)) == NewNames(BlobsRefs(blobs), renames)
    decreases blobs, 1
  {
    if blobs != [] {
      BlobRefsRenamed(blobs[0], renames);
      BlobsRefsRenamed(blobs[1..], renames);
      NewNamesConcat(BlobRefs(blobs[0]), BlobsRefs(blobs[1..]), renames);
    }
  }

  lemma {:induction false} NodesRefsRenamed(nodes: seq<Node>, renames: Renames)
    requires "" !in renames.Values
    ensures NodesRefs(RenamedNodes(nodes, renames)) == NewNames(NodesRefs(nodes), renames)
    decreases nodes
  {
    if nodes != [] {
      var node := nodes[0];
      var own := if node.meta.object_.Some? then BlobsRefs(node.meta.object_.value.blob) else [];
      if node.meta.object_.Some? {
        BlobsRefsRenamed(node.meta.object_.value.blob, renames);
      }
      NodesRefsRenamed(node.children, renames);
      NodesRefsRenamed(nodes[1..], renames);
      NewNamesConcat(own, NodesRefs(node.children), renames);
      NewNamesConcat(NodeRefs(node), NodesRefs(nodes[1..]), renames);
    }
  }

  function Image(ids: set<string>, renames: Renames): set<string> {
    set id | id in ids :: NewName(id, renames)
  }

  lemma ImageUnion(a: set<string>, b: set<string>, renames: Renames)
    ensures Image(a + b, renames) == Image(a, renames) + Image(b, renames)
  {
  }

  lemma ImageElements(ids: seq<string>, renames: Renames)
    ensures Elements(NewNames(ids, renames)) == Image(Elements(ids), renames)
  {
    var names := NewNames(ids, renames);
    forall id | id in names ensures id in Image(Elements(ids), renames) {
      var k :| 0 <= k < |names| && names[k] == id;
      assert ids[k] in Elements(ids);
    }
    forall id | id in Image(Elements(ids), renames) ensures id in names {
      var x :| x in ids && id == NewName(x, renames);
      var k :| 0 <= k < |ids| && ids[k] == x;
      assert names[k] == id;
    }
  }

  /** The vanish ids of renamed nodes are the new names of their vanish ids. */
  lemma {:induction false} VanishIdsRenamed(nodes: seq<Node>, renames: Renames)
    ensures VanishIds(RenamedNodes(nodes, renames)) == Image(VanishIds(nodes), renames)
    decreases nodes
  {
    hide Image, Elements, NewNames;
    if nodes == [] {
      ImageEmpty(renames);
    } else {
      var own, below := OwnVanishIds(nodes[0]), VanishIds(nodes[0].children);
      VanishIdsRenamed(nodes[0].children, renames);
      VanishIdsRenamed(nodes[1..], renames);
      OwnRenamed(nodes[0], renames);
      ImageElements(own, renames);
      ImageUnion(Elements(own), below, renames);
      ImageUnion(Elements(own) + below, VanishIds(nodes[1..]), renames);
    }
  }

  lemma ImageEmpty(renames: Renames)
    ensures Image({}, renames) == {}
  {
  }

  lemma OwnRenamed(node: Node, renames: Renames)
    ensures OwnVanishIds(RenamedNode(node, renames)) == NewNames(OwnVanishIds(node), renames)
  {
  }
}
