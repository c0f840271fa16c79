/**
 Generating, re-reading and generating again must not grow or change style ids: when namespacing a
 namespaced list of trees gives the same trees back, and what holds when it does not.
 */
module VanishStability {
  import opened Text
  import opened SpecTree
  import opened Sorting
  import opened Counting
  import opened VanishStyles
  import opened VanishNamespace
  import opened VanishTrees
  import opened VanishRanks

  // ---------------------------------------------------------------- what stays in use

  lemma {:induction false} StyleIdsRenamed(nodes: seq<Node>, renames: Renames)
    requires "" !in renames.Values
    ensures StyleIds(RenamedNodes(nodes, renames)) == Image(StyleIds(nodes), renames)
    decreases nodes
  {
    hide Image, Elements, NewNames;
    if nodes == [] {
      ImageEmpty(renames);
    } else {
      var own, below := ObjectIds(nodes[0]), StyleIds(nodes[0].children);
      StyleIdsRenamed(nodes[0].children, renames);
      StyleIdsRenamed(nodes[1..], renames);
      ObjectIdsRenamed(nodes[0], renames);
      ImageUnion(own, below, renames);
      ImageUnion(own + below, StyleIds(nodes[1..]), renames);
    }
  }

  lemma ObjectIdsRenamed(node: Node, renames: Renames)
    requires "" !in renames.Values
    ensures ObjectIds(RenamedNode(node, renames)) == Image(ObjectIds(node), renames)
  {
    hide Image, Elements;
    if node.meta.object_.Some? {
      var object_ := node.meta.object_.value;
      var ids, refs := object_.vanishCharStyleIds.GetOr([]), BlobsRefs(object_.blob);
      BlobsRefsRenamed(object_.blob, renames);
      assert RenamedObject(object_, renames).vanishCharStyleIds.GetOr([]) == NewNames(ids, renames);
      ImageElements(ids, renames);
      ImageElements(refs, renames);
      ImageUnion(Elements(ids), Elements(refs), renames);
    } else {
      ImageEmpty(renames);
    }
  }

  /** Renaming a tree leaves in use what it left in use. */
  lemma TreeRemaining(tree: Tree, renames: Renames)
    requires renames.Keys == VanishIds(tree.parts) && "" !in renames.Values
    requires (StyleIds(tree.parts) - VanishIds(tree.parts)) !! renames.Values
    ensures var parts := RenamedNodes(tree.parts, renames);
            StyleIds(parts) - VanishIds(parts) == StyleIds(tree.parts) - VanishIds(tree.parts)
  {
    hide StyleIds, VanishIds;
    var s, v := StyleIds(tree.parts), VanishIds(tree.parts);
    StyleIdsRenamed(tree.parts, renames);
    VanishIdsRenamed(tree.parts, renames);
    VanishAreStyleIds(tree.parts);
    forall id ensures id in Image(s, renames) - Image(v, renames) <==> id in s - v {
      if id in s - v {
        assert NewName(id, renames) == id;
        assert forall x :: x in v ==> NewName(x, renames) in renames.Values;
      }
      if id in Image(s, renames) - Image(v, renames) {
        var x :| x in s && id == NewName(x, renames);
        assert x !in v;
      }
    }
  }

  lemma {:induction false} RemainingKept(trees: seq<Tree>, maps: seq<Renames>)
    requires |maps| == |trees|
    requires forall t :: 0 <= t < |trees| ==>
      && maps[t].Keys == VanishIds(trees[t].parts) && "" !in maps[t].Values
      && (StyleIds(trees[t].parts) - VanishIds(trees[t].parts)) !! maps[t].Values
    ensures Remaining(RenamedTrees(trees, maps)) == Remaining(trees)
  {
    if trees != [] {
      hide StyleIds, VanishIds;
      TreeRemaining(trees[0], maps[0]);
      RemainingKept(trees[1..], maps[1..]);
      assert RenamedTrees(trees, maps)[1..] == RenamedTrees(trees[1..], maps[1..]);
    }
  }

  // ---------------------------------------------------------------- renaming twice

  /** `again` keeps every name `renames` gave, and names nothing else in use. */
  ghost predicate Keeps(renames: Renames, again: Renames, ids: set<string>) {
    && (forall x :: x in renames ==> renames[x] in again && again[renames[x]] == renames[x])
    && (forall x :: x in ids && x !in renames ==> x !in again)
  }

  lemma {:induction false} BlobTwice(blob: Blob, renames: Renames, again: Renames)
    requires "" !in renames.Values && Keeps(renames, again, Elements(BlobRefs(blob)))
    ensures RenamedBlob(RenamedBlob(blob, renames), again) == RenamedBlob(blob, renames)
    decreases blob, 0
  {
    if blob.Element? && blob.tag != "" && blob.tag != RSTYLE {
      BlobsTwice(blob.children, renames, again);
    } else if (blob.Element? || blob.Leaf?) && blob.tag == RSTYLE {
      if IsRenamed(blob.attrs, renames) {
        var attrs := RenamedAttrs(blob.attrs, renames);
        assert StyleKey(attrs) == renames[StyleKey(blob.attrs)];
        assert RenamedAttrs(attrs, again).value == attrs.value;
      } else if StyleKey(blob.attrs) != "" {
        assert StyleKey(blob.attrs) in BlobRefs(blob);
      }
    }
  }

  lemma {:induction false} BlobsTwice(blobs: seq<Blob>, renames: Renames, again: Renames)
    requires "" !in renames.Values && Keeps(renames, again, Elements(BlobsRefs(blobs)))
    ensures RenamedBlobs(RenamedBlobs(blobs, renames), again) == RenamedBlobs(blobs, renames)
    decreases blobs, 1
  {
    if blobs != [] {
      BlobTwice(blobs[0], renames, again);
      BlobsTwice(blobs[1..], renames, again);
    }
  }

  lemma NamesTwice(ids: seq<string>, renames: Renames, again: Renames)
    requires Keeps(renames, again, Elements(ids))
    ensures NewNames(NewNames(ids, renames), again) == NewNames(ids, renames)
  {
    forall k | 0 <= k < |ids| ensures NewName(NewName(ids[k], renames), again) == NewName(ids[k], renames) {
      assert ids[k] in Elements(ids);
    }
  }

  lemma {:induction false} NodesTwice(nodes: seq<Node>, renames: Renames, again: Renames)
    requires "" !in renames.Values && Keeps(renames, again, StyleIds(nodes))
    ensures RenamedNodes(RenamedNodes(nodes, renames), again) == RenamedNodes(nodes, renames)
    decreases nodes
  {
    if nodes != [] {
      var node := nodes[0];
      NodesTwice(node.children, renames, again);
      NodesTwice(nodes[1..], renames, again);
      if node.meta.object_.Some? {
        ObjectTwice(node.meta.object_.value, renames, again);
      }
      assert RenamedNode(RenamedNode(node, renames), again) == RenamedNode(node, renames);
    }
  }

  lemma ObjectTwice(object_: ObjectMeta, renames: Renames, again: Renames)
    requires "" !in renames.Values
    requires Keeps(renames, again, Elements(object_.vanishCharStyleIds.GetOr([])) + Elements(BlobsRefs(object_.blob)))
    ensures RenamedObject(RenamedObject(object_, renames), again) == RenamedObject(object_, renames)
  {
    BlobsTwice(object_.blob, renames, again);
    NamesTwice(object_.vanishCharStyleIds.GetOr([]), renames, again);
  }

  // ---------------------------------------------------------------- the second pass

  lemma RemainingStable(trees: seq<Tree>, collate: Collation)
    ensures Remaining(Namespaced(trees, collate)) == Remaining(trees)
  {
    hide VanishIds, StyleIds, StripVanishNamespace, Apart, Remaining;
    var maps := Maps(trees, collate);
    MintedNames(trees, collate);
    assert SeparatorFree("");
    forall t | 0 <= t < |trees|
      ensures (StyleIds(trees[t].parts) - VanishIds(trees[t].parts)) !! maps[t].Values
    {
      forall id | id in StyleIds(trees[t].parts) && id !in VanishIds(trees[t].parts) ensures id in Remaining(trees) {
        RemainingHas(trees, t, id);
      }
    }
    RemainingKept(trees, maps);
  }

  /** A tree whose renaming changes nothing hides only ids that the renaming keeps. */
  lemma {:induction false} KeptIds(nodes: seq<Node>, renames: Renames)
    requires RenamedNodes(nodes, renames) == nodes
    ensures forall x :: x in VanishIds(nodes) ==> NewName(x, renames) == x
    decreases nodes
  {
    if nodes != [] {
      var node := nodes[0];
      assert RenamedNodes(nodes, renames) == [RenamedNode(node, renames)] + RenamedNodes(nodes[1..], renames);
      assert nodes == [node] + nodes[1..];
      assert RenamedNode(node, renames) == node;
      KeptIds(nodes[1..], renames);
      KeptIds(node.children, renames);
      OwnRenamed(node, renames);
      KeptNames(OwnVanishIds(node), renames);
      hide RenamedNode, RenamedNodes, NewName;
    }
  }

  lemma KeptNames(ids: seq<string>, renames: Renames)
    requires NewNames(ids, renames) == ids
    ensures forall x :: x in Elements(ids) ==> NewName(x, renames) == x
  {
    hide NewName;
    forall x | x in Elements(ids) ensures NewName(x, renames) == x {
      var k :| 0 <= k < |ids| && ids[k] == x;
      assert NewNames(ids, renames)[k] == NewName(ids[k], renames);
    }
  }

  ghost predicate Identity(m: Renames) {
    forall x :: x in m ==> m[x] == x
  }

  /** Namespacing the output again changes nothing exactly when every id is minted its own name. */
  lemma StableIffIdentity(trees: seq<Tree>, collate: Collation)
    ensures var out := Namespaced(trees, collate);
            Namespaced(out, collate) == out <==> forall t :: 0 <= t < |trees| ==> Identity(Maps(out, collate)[t])
  {
    hide VanishIds, StyleIds, StripVanishNamespace, Apart, Remaining, Maps, SeparatorFree;
    var out := Namespaced(trees, collate);
    var again := Maps(out, collate);
    MintedNames(trees, collate);
    MintedNames(out, collate);
    if Namespaced(out, collate) == out {
      forall t | 0 <= t < |trees| ensures Identity(again[t]) {
        assert Namespaced(out, collate)[t] == RenamedTree(out[t], again[t]);
        KeptIds(out[t].parts, again[t]);
      }
    }
    if forall t :: 0 <= t < |trees| ==> Identity(again[t]) {
      forall t | 0 <= t < |trees| ensures RenamedTree(out[t], again[t]) == out[t] {
        KeptByIdentity(trees, collate, t);
      }
      assert Namespaced(out, collate) == out;
    }
  }

  lemma KeptByIdentity(trees: seq<Tree>, collate: Collation, t: nat)
    requires t < |trees| && Identity(Maps(Namespaced(trees, collate), collate)[t])
    ensures var out := Namespaced(trees, collate); RenamedTree(out[t], Maps(out, collate)[t]) == out[t]
  {
    hide VanishIds, StyleIds, StripVanishNamespace, Apart, Remaining, Maps;
    var out := Namespaced(trees, collate);
    var m, again := Maps(trees, collate)[t], Maps(out, collate)[t];
    MintedNames(trees, collate);
    MintedNames(out, collate);
    assert SeparatorFree("");
    forall x | x in m ensures m[x] in again && again[m[x]] == m[x] {
      HiddenIds(trees, collate, t, m[x]);
    }
    forall x | x in StyleIds(trees[t].parts) && x !in m ensures x !in again {
      RemainingHas(trees, t, x);
      HiddenIds(trees, collate, t, x);
    }
    NodesTwice(trees[t].parts, m, again);
  }

  /** In the second pass each name gets the free candidate that its rank among the names numbers. */
  lemma SecondPass(trees: seq<Tree>, collate: Collation, t: nat, k: nat)
    requires t < |trees|
    requires k < |OwnIds(Namespaced(trees, collate)[t], collate)|
    ensures var out := Namespaced(trees, collate);
            var own, again := OwnIds(out[t], collate), Maps(out, collate)[t];
            own[k] in again && again[own[k]] == NthFree(own[k], t, Rank(own, k), Remaining(trees))
  {
    hide OwnIds, Maps, Remaining, NthFree, Rank, Namespaced;
    RankedNames(Namespaced(trees, collate), collate, t, k);
    RemainingStable(trees, collate);
  }

  // ---------------------------------------------------------------- groups of ids that strip alike

  function Alike(ids: set<string>, strip: string): set<string> {
    set x | x in ids && StripVanishNamespace(x) == strip
  }

  /** The ids hidden in a tree that strip to one name. */
  function Group(tree: Tree, strip: string): set<string> {
    Alike(VanishIds(tree.parts), strip)
  }

  lemma AlikeMore(ids: set<string>, id: string, strip: string)
    requires id !in ids
    ensures |Alike(ids + {id}, strip)| == |Alike(ids, strip)| + if StripVanishNamespace(id) == strip then 1 else 0
  {
    hide StripVanishNamespace;
    assert Alike(ids + {id}, strip) == Alike(ids, strip) + if StripVanishNamespace(id) == strip then {id} else {};
  }

  lemma {:induction false} CountSize(ids: seq<string>, strip: string)
    requires Distinct(ids)
    ensures Count(ids, strip) == |Alike(Elements(ids), strip)|
  {
    hide StripVanishNamespace;
    if ids != [] {
      var init, last := ids[..|ids| - 1], ids[|ids| - 1];
      CountSize(init, strip);
      AlikeMore(Elements(init), last, strip);
      hide Alike, Count;
      assert ids == init + [last];
      assert Elements(ids) == Elements(init) + {last};
    }
  }

  lemma CountIsGroup(tree: Tree, collate: Collation, strip: string)
    ensures Count(OwnIds(tree, collate), strip) == |Group(tree, strip)|
  {
    hide StripVanishNamespace, OwnIds, Count, Alike, VanishIds;
    var own := OwnIds(tree, collate);
    OwnIdsElements(tree, collate);
    CountSize(own, strip);
    assert Elements(own) == VanishIds(tree.parts);
  }

  lemma PositionOf(tree: Tree, collate: Collation, id: string) returns (k: nat)
    requires id in VanishIds(tree.parts)
    ensures k < |OwnIds(tree, collate)| && OwnIds(tree, collate)[k] == id
  {
    hide OwnIds, VanishIds;
    OwnIdsElements(tree, collate);
    k :| 0 <= k < |OwnIds(tree, collate)| && OwnIds(tree, collate)[k] == id;
  }

  lemma RankBelowGroup(tree: Tree, collate: Collation, k: nat)
    requires k < |OwnIds(tree, collate)|
    ensures Rank(OwnIds(tree, collate), k) < |Group(tree, StripVanishNamespace(OwnIds(tree, collate)[k]))|
  {
    hide StripVanishNamespace, OwnIds, Count, Group;
    var own := OwnIds(tree, collate);
    var strip := StripVanishNamespace(own[k]);
    CountIsGroup(tree, collate, strip);
    CountMonotone(own, strip, k, |own|);
    assert own[..|own|] == own;
  }

  /** A tree's minted names are, for each group of its hidden ids, as many first free candidates. */
  lemma NameHasRank(trees: seq<Tree>, collate: Collation, t: nat, name: string) returns (id: string, i: nat)
    requires t < |trees| && name in VanishIds(Namespaced(trees, collate)[t].parts)
    ensures id in VanishIds(trees[t].parts) && StripVanishNamespace(id) == StripVanishNamespace(name)
    ensures i < |Group(trees[t], StripVanishNamespace(id))| && name == NthFree(id, t, i, Remaining(trees))
  {
    hide StripVanishNamespace, OwnIds, Rank, Group, VanishIds, Maps, NthFree, Remaining, Namespaced, Apart, SeparatorFree;
    HiddenIds(trees, collate, t, name);
    MintedNames(trees, collate);
    id :| id in Maps(trees, collate)[t] && Maps(trees, collate)[t][id] == name;
    var k := PositionOf(trees[t], collate, id);
    RankedNames(trees, collate, t, k);
    RankBelowGroup(trees[t], collate, k);
    i := Rank(OwnIds(trees[t], collate), k);
  }

  lemma RankHasName(trees: seq<Tree>, collate: Collation, t: nat, id: string, i: nat)
    requires t < |trees| && id in VanishIds(trees[t].parts)
    requires i < |Group(trees[t], StripVanishNamespace(id))|
    ensures NthFree(id, t, i, Remaining(trees)) in VanishIds(Namespaced(trees, collate)[t].parts)
    ensures StripVanishNamespace(NthFree(id, t, i, Remaining(trees))) == StripVanishNamespace(id)
  {
    hide StripVanishNamespace, OwnIds, Rank, Count, Group, VanishIds, Maps, NthFree, Remaining, Namespaced, Apart,
         SeparatorFree;
    var own := OwnIds(trees[t], collate);
    CountIsGroup(trees[t], collate, StripVanishNamespace(id));
    assert own[..|own|] == own;
    var k := RankHit(own, |own|, StripVanishNamespace(id), i);
    RankedNames(trees, collate, t, k);
    NthFreeAlike(own[k], id, t, i, Remaining(trees));
    MintedNames(trees, collate);
    HiddenIds(trees, collate, t, NthFree(id, t, i, Remaining(trees)));
  }

  // ---------------------------------------------------------------- stability

  /**
   In each tree, for each name that hidden ids strip to, the collation sorts as many first free
   candidates as there are such ids by increasing suffix.
   */
  ghost predicate SuffixesInOrder(trees: seq<Tree>, collate: Collation) {
    forall t, id, i: nat, j: nat ::
      0 <= t < |trees| && id in VanishIds(trees[t].parts) && i < j < |Group(trees[t], StripVanishNamespace(id))| ==>
        collate(NthFree(id, t, i, Remaining(trees)), NthFree(id, t, j, Remaining(trees)))
  }

  lemma OwnSorted(tree: Tree, collate: Collation)
    requires TotalPreorder(collate)
    ensures Sorted(collate, OwnIds(tree, collate))
  {
    SortSorted(collate, CollectTrees([tree], []));
  }

  /** An id that has the free candidate of number `i` for a name is not sorted behind `i` others. */
  lemma RankAtMost(trees: seq<Tree>, collate: Collation, t: nat, k: nat, id: string, i: nat)
    requires t < |trees| && k < |OwnIds(Namespaced(trees, collate)[t], collate)|
    requires var own := OwnIds(Namespaced(trees, collate)[t], collate);
             && own[k] == NthFree(id, t, i, Remaining(trees))
             && StripVanishNamespace(own[k]) == StripVanishNamespace(id)
             && forall j :: 0 <= j < k ==> own[j] == NthFree(own[j], t, Rank(own, j), Remaining(trees))
    ensures Rank(OwnIds(Namespaced(trees, collate)[t], collate), k) <= i
  {
    hide StripVanishNamespace, OwnIds, Rank, Count, NthFree, Remaining, Namespaced;
    var own := OwnIds(Namespaced(trees, collate)[t], collate);
    OwnIdsElements(Namespaced(trees, collate)[t], collate);
    if i < Rank(own, k) {
      var j := RankBelow(own, k, i);
      NthFreeAlike(own[j], id, t, i, Remaining(trees));
    }
  }

  /** Nor is it sorted before its number of others, when the collation follows the suffixes. */
  lemma RankAtLeast(trees: seq<Tree>, collate: Collation, t: nat, k: nat, id: string, i: nat)
    requires TotalPreorder(collate) && Antisymmetric(collate) && SuffixesInOrder(trees, collate)
    requires t < |trees| && k < |OwnIds(Namespaced(trees, collate)[t], collate)|
    requires id in VanishIds(trees[t].parts) && i < |Group(trees[t], StripVanishNamespace(id))|
    requires var own := OwnIds(Namespaced(trees, collate)[t], collate);
             && own[k] == NthFree(id, t, i, Remaining(trees))
             && StripVanishNamespace(own[k]) == StripVanishNamespace(id)
             && forall j :: 0 <= j < k ==> own[j] == NthFree(own[j], t, Rank(own, j), Remaining(trees))
    ensures i <= Rank(OwnIds(Namespaced(trees, collate)[t], collate), k)
  {
    hide StripVanishNamespace, OwnIds, Rank, Count, NthFree, Remaining, Namespaced, Group, VanishIds;
    var tree := Namespaced(trees, collate)[t];
    var own := OwnIds(tree, collate);
    var r := Rank(own, k);
    if r < i {
      var name := NthFree(id, t, r, Remaining(trees));
      RankHasName(trees, collate, t, id, r);
      var p := PositionOf(tree, collate, name);
      OwnSorted(tree, collate);
      if p < k {
        NthFreeInjective(id, r, own[p], Rank(own, p), t, Remaining(trees));
        RankMonotone(own, p, k);
      } else {
        assert collate(name, own[k]);
        assert p > k ==> collate(own[k], own[p]);
        assert name == own[k];
        NthFreeInjective(id, r, id, i, t, Remaining(trees));
      }
    }
  }

  /** When the collation follows the suffixes, the second pass gives every name itself. */
  lemma {:induction false} OrderedFixes(trees: seq<Tree>, collate: Collation, t: nat, k: nat)
    requires TotalPreorder(collate) && Antisymmetric(collate) && SuffixesInOrder(trees, collate)
    requires t < |trees| && k < |OwnIds(Namespaced(trees, collate)[t], collate)|
    ensures var own := OwnIds(Namespaced(trees, collate)[t], collate);
            own[k] == NthFree(own[k], t, Rank(own, k), Remaining(trees))
    decreases k
  {
    hide StripVanishNamespace, OwnIds, Rank, NthFree, Remaining, Namespaced, Group, VanishIds, SuffixesInOrder;
    var tree := Namespaced(trees, collate)[t];
    var own := OwnIds(tree, collate);
    forall j | 0 <= j < k ensures own[j] == NthFree(own[j], t, Rank(own, j), Remaining(trees)) {
      OrderedFixes(trees, collate, t, j);
    }
    OwnIdsElements(tree, collate);
    var id, i := NameHasRank(trees, collate, t, own[k]);
    RankAtMost(trees, collate, t, k, id, i);
    RankAtLeast(trees, collate, t, k, id, i);
    NthFreeAlike(own[k], id, t, i, Remaining(trees));
  }

  /** When the second pass gives every name itself, the names stand in the order of their suffixes. */
  lemma FixedBefore(trees: seq<Tree>, collate: Collation, t: nat, id: string, i: nat, j: nat) returns (p: nat, q: nat)
    requires t < |trees| && Identity(Maps(Namespaced(trees, collate), collate)[t])
    requires id in VanishIds(trees[t].parts) && i < j < |Group(trees[t], StripVanishNamespace(id))|
    ensures var own := OwnIds(Namespaced(trees, collate)[t], collate);
            && p < q < |own| && own[p] == NthFree(id, t, i, Remaining(trees))
            && own[q] == NthFree(id, t, j, Remaining(trees))
  {
    hide StripVanishNamespace, OwnIds, Rank, NthFree, Remaining, Namespaced, Group, VanishIds, Maps, Identity;
    p := FixedRank(trees, collate, t, id, i);
    q := FixedRank(trees, collate, t, id, j);
    RankOrder(OwnIds(Namespaced(trees, collate)[t], collate), p, q);
  }

  lemma FixedOrders(trees: seq<Tree>, collate: Collation, t: nat, id: string, i: nat, j: nat)
    requires TotalPreorder(collate) && t < |trees| && Identity(Maps(Namespaced(trees, collate), collate)[t])
    requires id in VanishIds(trees[t].parts) && i < j < |Group(trees[t], StripVanishNamespace(id))|
    ensures collate(NthFree(id, t, i, Remaining(trees)), NthFree(id, t, j, Remaining(trees)))
  {
    hide StripVanishNamespace, OwnIds, Rank, NthFree, Remaining, Namespaced, Group, VanishIds, Maps, Identity, Sorted,
         TotalPreorder;
    var p, q := FixedBefore(trees, collate, t, id, i, j);
    OwnSorted(Namespaced(trees, collate)[t], collate);
    SortedAt(collate, OwnIds(Namespaced(trees, collate)[t], collate), p, q);
  }

  lemma RankOrder(ids: seq<string>, p: nat, q: nat)
    requires p < |ids| && q < |ids| && StripVanishNamespace(ids[p]) == StripVanishNamespace(ids[q])
    requires Rank(ids, p) < Rank(ids, q)
    ensures p < q
  {
    hide StripVanishNamespace, Rank;
    if q < p {
      RankMonotone(ids, q, p);
    }
  }

  lemma SortedAt(collate: Collation, ids: seq<string>, p: nat, q: nat)
    requires p < q < |ids| && Sorted(collate, ids)
    ensures collate(ids[p], ids[q])
  {
  }

  lemma FixedRank(trees: seq<Tree>, collate: Collation, t: nat, id: string, i: nat) returns (p: nat)
    requires t < |trees| && Identity(Maps(Namespaced(trees, collate), collate)[t])
    requires id in VanishIds(trees[t].parts) && i < |Group(trees[t], StripVanishNamespace(id))|
    ensures var own := OwnIds(Namespaced(trees, collate)[t], collate);
            && p < |own| && own[p] == NthFree(id, t, i, Remaining(trees)) && Rank(own, p) == i
            && StripVanishNamespace(own[p]) == StripVanishNamespace(id)
  {
    hide StripVanishNamespace, OwnIds, Rank, NthFree, Remaining, Namespaced, Group, VanishIds, Maps;
    RankHasName(trees, collate, t, id, i);
    p := PositionOf(Namespaced(trees, collate)[t], collate, NthFree(id, t, i, Remaining(trees)));
    SecondPass(trees, collate, t, p);
    var own := OwnIds(Namespaced(trees, collate)[t], collate);
    NthFreeInjective(id, i, own[p], Rank(own, p), t, Remaining(trees));
  }

  /** A map is the identity if it is on the ids of its tree. */
  lemma IdentityOf(trees: seq<Tree>, collate: Collation, t: nat)
    requires t < |trees|
    requires var own := OwnIds(Namespaced(trees, collate)[t], collate);
             forall k :: 0 <= k < |own| ==> own[k] == NthFree(own[k], t, Rank(own, k), Remaining(trees))
    ensures Identity(Maps(Namespaced(trees, collate), collate)[t])
  {
    hide StripVanishNamespace, OwnIds, Rank, NthFree, Remaining, Namespaced, VanishIds, Maps, Apart, SeparatorFree;
    var out := Namespaced(trees, collate);
    MintedNames(out, collate);
    forall x | x in Maps(out, collate)[t] ensures Maps(out, collate)[t][x] == x {
      var k := PositionOf(out[t], collate, x);
      SecondPass(trees, collate, t, k);
    }
  }

  /**
   Namespacing its own output changes nothing if and only if, wherever hidden ids of one tree
   strip alike, the collation sorts the names they can get by their suffixes.
   */
  lemma NamespacingStableIff(trees: seq<Tree>, collate: Collation)
    requires TotalPreorder(collate) && Antisymmetric(collate)
    ensures Namespaced(Namespaced(trees, collate), collate) == Namespaced(trees, collate)
       <==> SuffixesInOrder(trees, collate)
  {
    hide StripVanishNamespace, OwnIds, Rank, NthFree, Remaining, Namespaced, VanishIds, Maps, Group, Identity,
         TotalPreorder, Antisymmetric;
    var out := Namespaced(trees, collate);
    StableIffIdentity(trees, collate);
    if SuffixesInOrder(trees, collate) {
      hide SuffixesInOrder;
      forall t | 0 <= t < |trees| ensures Identity(Maps(out, collate)[t]) {
        forall k | 0 <= k < |OwnIds(out[t], collate)|
          ensures var own := OwnIds(out[t], collate);
                  own[k] == NthFree(own[k], t, Rank(own, k), Remaining(trees))
        {
          OrderedFixes(trees, collate, t, k);
        }
        IdentityOf(trees, collate, t);
      }
    }
    if forall t :: 0 <= t < |trees| ==> Identity(Maps(out, collate)[t]) {
      forall t, id, i: nat, j: nat |
        0 <= t < |trees| && id in VanishIds(trees[t].parts) && i < j < |Group(trees[t], StripVanishNamespace(id))|
        ensures collate(NthFree(id, t, i, Remaining(trees)), NthFree(id, t, j, Remaining(trees)))
      {
        FixedOrders(trees, collate, t, id, i, j);
      }
    }
  }

  ghost predicate IdsStripApart(ids: set<string>) {
    forall x, y :: x in ids && y in ids && StripVanishNamespace(x) == StripVanishNamespace(y) ==> x == y
  }

  /** Within each tree, the hidden ids strip to different names. */
  ghost predicate StripsApart(trees: seq<Tree>) {
    forall t :: 0 <= t < |trees| ==> IdsStripApart(VanishIds(trees[t].parts))
  }

  lemma AtMostOne(group: set<string>)
    requires forall x, y :: x in group && y in group ==> x == y
    ensures |group| <= 1
  {
    if group != {} {
      var x :| x in group;
      assert group == {x};
    }
  }

  /** With one id for each strip the order does not matter: any collation will do. */
  lemma NamespacingStable(trees: seq<Tree>, collate: Collation)
    requires StripsApart(trees)
    ensures Namespaced(Namespaced(trees, collate), collate) == Namespaced(trees, collate)
  {
    hide StripVanishNamespace, OwnIds, Rank, NthFree, Remaining, Namespaced, VanishIds, Maps, Group, Identity, StripsApart;
    var out := Namespaced(trees, collate);
    StableIffIdentity(trees, collate);
    forall t | 0 <= t < |trees| ensures Identity(Maps(out, collate)[t]) {
      forall k | 0 <= k < |OwnIds(out[t], collate)|
        ensures var own := OwnIds(out[t], collate);
                own[k] == NthFree(own[k], t, Rank(own, k), Remaining(trees))
      {
        ApartFixes(trees, collate, t, k);
      }
      IdentityOf(trees, collate, t);
    }
  }

  lemma {:induction false} ApartFixes(trees: seq<Tree>, collate: Collation, t: nat, k: nat)
    requires StripsApart(trees) && t < |trees| && k < |OwnIds(Namespaced(trees, collate)[t], collate)|
    ensures var own := OwnIds(Namespaced(trees, collate)[t], collate);
            own[k] == NthFree(own[k], t, Rank(own, k), Remaining(trees))
    decreases k
  {
    hide StripVanishNamespace, OwnIds, Rank, NthFree, Remaining, Namespaced, VanishIds;
    var tree := Namespaced(trees, collate)[t];
    var own := OwnIds(tree, collate);
    forall j | 0 <= j < k ensures own[j] == NthFree(own[j], t, Rank(own, j), Remaining(trees)) {
      ApartFixes(trees, collate, t, j);
    }
    OwnIdsElements(tree, collate);
    var id, i := NameHasRank(trees, collate, t, own[k]);
    assert IdsStripApart(VanishIds(trees[t].parts));
    AtMostOne(Group(trees[t], StripVanishNamespace(id)));
    RankAtMost(trees, collate, t, k, id, i);
    NthFreeAlike(own[k], id, t, i, Remaining(trees));
  }

  // ---------------------------------------------------------------- what always settles

  lemma {:induction false} ImageSize(ids: set<string>, m: Renames)
    requires ids <= m.Keys && forall x, y :: x in ids && y in ids && m[x] == m[y] ==> x == y
    ensures |Image(ids, m)| == |ids|
    decreases |ids|
  {
    if ids != {} {
      var x :| x in ids;
      var rest := ids - {x};
      ImageSize(rest, m);
      assert Image(ids, m) == Image(rest, m) + {m[x]};
      assert m[x] !in Image(rest, m);
    }
  }

  /** As many names strip to a name as ids did. */
  lemma GroupKept(trees: seq<Tree>, collate: Collation, t: nat, strip: string)
    requires t < |trees|
    ensures |Group(Namespaced(trees, collate)[t], strip)| == |Group(trees[t], strip)|
  {
    hide StripVanishNamespace, VanishIds, Remaining, SeparatorFree, Namespaced, Maps;
    var m, group := Maps(trees, collate)[t], Group(trees[t], strip);
    MintedNames(trees, collate);
    assert group <= m.Keys;
    forall y ensures y in Group(Namespaced(trees, collate)[t], strip) <==> y in Image(group, m) {
      HiddenIds(trees, collate, t, y);
      if y in Group(Namespaced(trees, collate)[t], strip) {
        var x :| x in m && m[x] == y;
        assert x in group && NewName(x, m) == y;
      }
      if y in Image(group, m) {
        var x :| x in group && NewName(x, m) == y;
        assert x in m && m[x] == y;
      }
    }
    ImageSize(group, m);
    assert Group(Namespaced(trees, collate)[t], strip) == Image(group, m);
  }

  /**
   Under any collation the hidden ids of a tree settle after one pass: a further pass may hand
   them out differently, but it neither adds a name nor drops one.
   */
  lemma HiddenIdsSettle(trees: seq<Tree>, collate: Collation, t: nat)
    requires t < |trees|
    ensures var once := Namespaced(trees, collate);
            VanishIds(Namespaced(once, collate)[t].parts) == VanishIds(once[t].parts)
  {
    hide StripVanishNamespace, VanishIds, Remaining, Namespaced, NthFree, Group;
    var once := Namespaced(trees, collate);
    var twice := Namespaced(once, collate);
    RemainingStable(trees, collate);
    forall name | name in VanishIds(twice[t].parts) ensures name in VanishIds(once[t].parts) {
      var x, i := NameHasRank(once, collate, t, name);
      var id, _ := NameHasRank(trees, collate, t, x);
      GroupKept(trees, collate, t, StripVanishNamespace(x));
      RankHasName(trees, collate, t, id, i);
      NthFreeAlike(x, id, t, i, Remaining(trees));
    }
    forall name | name in VanishIds(once[t].parts) ensures name in VanishIds(twice[t].parts) {
      var id, i := NameHasRank(trees, collate, t, name);
      GroupKept(trees, collate, t, StripVanishNamespace(name));
      RankHasName(once, collate, t, name, i);
      NthFreeAlike(name, id, t, i, Remaining(trees));
    }
  }
}
