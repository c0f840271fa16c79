/**
 What the namespacing allocates in all: the ids of a tree that strip to one name get, in the order
 they are sorted, the free candidates of that name and tree, whatever else is minted.
 */
module VanishRanks {
  import opened Text
  import opened SpecTree
  import opened Sorting
  import opened Counting
  import opened VanishStyles
  import opened VanishNamespace
  import opened VanishTrees

  // ---------------------------------------------------------------- names tell their origin

  function Tail(treeIndex: nat, suffix: nat): string {
    Decimal(treeIndex) + if suffix == 0 then "" else "-" + Decimal(suffix)
  }

  lemma CandidateText(id: string, treeIndex: nat, suffix: nat)
    ensures Candidate(BaseName(id, treeIndex), suffix)
         == StripVanishNamespace(id) + (SEPARATOR + Tail(treeIndex, suffix))
  {
    hide StripVanishNamespace, Decimal;
    var x, n := StripVanishNamespace(id), Decimal(treeIndex);
    if suffix == 0 {
      assert n + "" == n;
    } else {
      assert x + (SEPARATOR + n) + ("-" + Decimal(suffix)) == x + (SEPARATOR + (n + ("-" + Decimal(suffix))));
    }
  }

  lemma TailInjective(t: nat, j: nat, u: nat, k: nat)
    requires Tail(t, j) == Tail(u, k)
    ensures t == u && j == k
  {
    var a, b := Tail(t, j), Tail(u, k);
    SpanUnique(a, IsDigit, |Decimal(t)|);
    SpanUnique(b, IsDigit, |Decimal(u)|);
    assert a[..|Decimal(t)|] == Decimal(t) && b[..|Decimal(u)|] == Decimal(u);
    DecimalInjective(t, u);
    CandidateInjective(Decimal(t), j, k);
    assert Candidate(Decimal(t), j) == a by {
      assert Decimal(t) + "" == Decimal(t);
    }
    assert Candidate(Decimal(t), k) == b by {
      assert Decimal(t) + "" == Decimal(t);
    }
  }

  /** A candidate determines the stripped id, the tree and the suffix it was made from. */
  lemma CandidateOrigin(x: string, t: nat, j: nat, y: string, u: nat, k: nat)
    requires Candidate(BaseName(x, t), j) == Candidate(BaseName(y, u), k)
    ensures StripVanishNamespace(x) == StripVanishNamespace(y) && t == u && j == k
  {
    hide StripVanishNamespace, Tail, Candidate, BaseName;
    var x', y' := StripVanishNamespace(x), StripVanishNamespace(y);
    CandidateText(x, t, j);
    CandidateText(y, u, k);
    StripIsFree(x);
    StripIsFree(y);
    StripMinted(x', Tail(t, j));
    StripMinted(y', Tail(u, k));
    assert (x' + (SEPARATOR + Tail(t, j)))[|x'| + |SEPARATOR|..] == Tail(t, j);
    assert (y' + (SEPARATOR + Tail(u, k)))[|y'| + |SEPARATOR|..] == Tail(u, k);
    TailInjective(t, j, u, k);
  }

  // ---------------------------------------------------------------- free candidates

  /** Suffix of the `n`-th candidate that is not taken, counted from zero. */
  function FreeAt(base: string, n: nat, taken: set<string>): (suffix: nat)
    ensures Candidate(base, suffix) !in taken
  {
    if n == 0 then FreeFrom(base, 0, taken) else FreeFrom(base, FreeAt(base, n - 1, taken) + 1, taken)
  }

  lemma {:induction false} FreeAtMonotone(base: string, i: nat, j: nat, taken: set<string>)
    requires i < j
    ensures FreeAt(base, i, taken) < FreeAt(base, j, taken)
  {
    hide FreeFrom, Candidate;
    if i < j - 1 {
      FreeAtMonotone(base, i, j - 1, taken);
    }
  }

  /** Every free candidate has its number. */
  lemma {:induction false} FreeIsNth(base: string, suffix: nat, n: nat, taken: set<string>) returns (i: nat)
    requires Candidate(base, suffix) !in taken && suffix <= FreeAt(base, n, taken)
    ensures i <= n && FreeAt(base, i, taken) == suffix
  {
    hide FreeFrom, Candidate;
    if n == 0 || suffix > FreeAt(base, n - 1, taken) {
      i := n;
    } else {
      i := FreeIsNth(base, suffix, n - 1, taken);
    }
  }

  lemma FreeFromUnique(base: string, suffix: nat, taken: set<string>)
    requires Candidate(base, suffix) !in taken
    requires forall j: nat :: j < suffix ==> Candidate(base, j) in taken
    ensures FreeFrom(base, 0, taken) == suffix
  {
    hide Candidate;
    var f := FreeFrom(base, 0, taken);
    assert Candidate(base, f) !in taken;
  }

  /** The name of the `n`-th free candidate for what `id` strips to. */
  function NthFree(id: string, treeIndex: nat, n: nat, taken: set<string>): string {
    Candidate(BaseName(id, treeIndex), FreeAt(BaseName(id, treeIndex), n, taken))
  }

  lemma NthFreeAlike(x: string, y: string, treeIndex: nat, n: nat, taken: set<string>)
    requires StripVanishNamespace(x) == StripVanishNamespace(y)
    ensures NthFree(x, treeIndex, n, taken) == NthFree(y, treeIndex, n, taken)
  {
    hide StripVanishNamespace;
  }

  lemma NthFreeInjective(x: string, i: nat, y: string, j: nat, treeIndex: nat, taken: set<string>)
    requires NthFree(x, treeIndex, i, taken) == NthFree(y, treeIndex, j, taken)
    ensures StripVanishNamespace(x) == StripVanishNamespace(y) && i == j
  {
    hide StripVanishNamespace, Candidate, FreeAt;
    var base := BaseName(x, treeIndex);
    CandidateOrigin(x, treeIndex, FreeAt(base, i, taken), y, treeIndex, FreeAt(BaseName(y, treeIndex), j, taken));
    assert BaseName(y, treeIndex) == base;
    if i < j {
      FreeAtMonotone(base, i, j, taken);
    } else if j < i {
      FreeAtMonotone(base, j, i, taken);
    }
  }

  // ---------------------------------------------------------------- ranks

  /** How many of the ids strip to `strip`. */
  function Count(ids: seq<string>, strip: string): nat {
    if ids == [] then 0
    else Count(ids[..|ids| - 1], strip) + if StripVanishNamespace(ids[|ids| - 1]) == strip then 1 else 0
  }

  /** How many ids before the `k`-th strip alike. */
  function Rank(ids: seq<string>, k: nat): nat
    requires k < |ids|
  {
    Count(ids[..k], StripVanishNamespace(ids[k]))
  }

  lemma CountSnoc(ids: seq<string>, strip: string, k: nat)
    requires k < |ids|
    ensures Count(ids[..k + 1], strip) == Count(ids[..k], strip) + if StripVanishNamespace(ids[k]) == strip then 1 else 0
  {
    hide StripVanishNamespace;
    assert ids[..k + 1][..k] == ids[..k];
  }

  lemma {:induction false} CountMonotone(ids: seq<string>, strip: string, j: nat, k: nat)
    requires j <= k <= |ids|
    ensures Count(ids[..j], strip) <= Count(ids[..k], strip)
    ensures j < k && StripVanishNamespace(ids[j]) == strip ==> Count(ids[..j], strip) < Count(ids[..k], strip)
    decreases k
  {
    hide Count, StripVanishNamespace;
    if j < k {
      CountSnoc(ids, strip, k - 1);
      CountMonotone(ids, strip, j, k - 1);
    }
  }

  /** Ids that strip alike have different ranks, in the order they stand. */
  lemma RankMonotone(ids: seq<string>, j: nat, k: nat)
    requires j < k < |ids| && StripVanishNamespace(ids[j]) == StripVanishNamespace(ids[k])
    ensures Rank(ids, j) < Rank(ids, k)
  {
    hide Count, StripVanishNamespace;
    CountMonotone(ids, StripVanishNamespace(ids[j]), j, k);
  }

  /** Every number below the count is the rank of some id. */
  lemma {:induction false} RankHit(ids: seq<string>, k: nat, strip: string, i: nat) returns (j: nat)
    requires k <= |ids| && i < Count(ids[..k], strip)
    ensures j < k && StripVanishNamespace(ids[j]) == strip && Rank(ids, j) == i
    decreases k
  {
    hide StripVanishNamespace;
    assert k > 0;
    CountSnoc(ids, strip, k - 1);
    hide Count;
    if i < Count(ids[..k - 1], strip) {
      j := RankHit(ids, k - 1, strip, i);
    } else {
      j := k - 1;
    }
  }

  // ---------------------------------------------------------------- minting

  /** No id of `extra` is a candidate for `id` in tree `treeIndex`. */
  ghost predicate Strange(extra: set<string>, id: string, treeIndex: nat) {
    forall j: nat :: Candidate(BaseName(id, treeIndex), j) !in extra
  }

  lemma MintedStrange(name: string, x: string, t: nat, y: string, u: nat)
    requires MintedFrom(name, x, t)
    requires t != u || StripVanishNamespace(x) != StripVanishNamespace(y)
    ensures Strange({name}, y, u)
  {
    hide StripVanishNamespace, Candidate, BaseName;
    var j: nat :| name == Candidate(BaseName(x, t), j);
    forall k: nat ensures Candidate(BaseName(y, u), k) !in {name} {
      if Candidate(BaseName(y, u), k) == name {
        CandidateOrigin(x, t, j, y, u, k);
      }
    }
  }

  /** Names minted for earlier trees are strange to every id of a later one. */
  ghost predicate StrangeFrom(extra: set<string>, index: nat) {
    forall id, u: nat :: u >= index ==> Strange(extra, id, u)
  }

  lemma NamesStrange(names: seq<string>, ids: seq<string>, index: nat, extra: set<string>)
    requires |names| == |ids| && forall k :: 0 <= k < |names| ==> MintedFrom(names[k], ids[k], index)
    requires StrangeFrom(extra, index)
    ensures StrangeFrom(extra + Elements(names), index + 1)
  {
    hide MintedFrom;
    forall id, u: nat | u >= index + 1 ensures Strange(extra + Elements(names), id, u) {
      assert Strange(extra, id, u);
      forall j: nat ensures Candidate(BaseName(id, u), j) !in Elements(names) {
        if Candidate(BaseName(id, u), j) in names {
          var k :| 0 <= k < |names| && names[k] == Candidate(BaseName(id, u), j);
          MintedStrange(names[k], ids[k], index, id, u);
        }
      }
    }
  }

  lemma {:induction false} MintedAt(ids: seq<string>, treeIndex: nat, reserved: set<string>, k: nat)
    requires k < |ids|
    ensures var names := Minted(ids, treeIndex, reserved);
            names[k] == Allocated(ids[k], treeIndex, reserved + Elements(names[..k]))
    decreases ids
  {
    hide Allocated;
    var names := Minted(ids, treeIndex, reserved);
    var first := Allocated(ids[0], treeIndex, reserved);
    var rest := Minted(ids[1..], treeIndex, reserved + {first});
    if k == 0 {
      assert reserved + Elements(names[..0]) == reserved;
    } else {
      MintedAt(ids[1..], treeIndex, reserved + {first}, k - 1);
      assert names[..k] == [first] + rest[..k - 1];
      assert reserved + Elements(names[..k]) == reserved + {first} + Elements(rest[..k - 1]);
    }
  }

  /** All names minted before are those of the ranks below: the candidates between are taken. */
  lemma {:induction false} MintedRanked(ids: seq<string>, treeIndex: nat, reserved: set<string>, extra: set<string>,
                                        k: nat)
    requires k < |ids| && StrangeFrom(extra, treeIndex)
    ensures Minted(ids, treeIndex, reserved + extra)[k] == NthFree(ids[k], treeIndex, Rank(ids, k), reserved)
    decreases k
  {
    hide Candidate, BaseName, FreeAt, FreeFrom, StripVanishNamespace, Rank, Count, Minted, Strange;
    var names := Minted(ids, treeIndex, reserved + extra);
    var taken := reserved + extra + Elements(names[..k]);
    var base, r := BaseName(ids[k], treeIndex), Rank(ids, k);
    var suffix := FreeAt(base, r, reserved);
    forall j | 0 <= j < k ensures names[j] == NthFree(ids[j], treeIndex, Rank(ids, j), reserved) {
      MintedRanked(ids, treeIndex, reserved, extra, j);
    }
    MintedAt(ids, treeIndex, reserved + extra, k);
    assert Candidate(base, suffix) !in extra by {
      assert Strange(extra, ids[k], treeIndex);
      NotStrange(extra, ids[k], treeIndex, suffix);
    }
    forall j | 0 <= j < k ensures names[j] != Candidate(base, suffix) {
      if names[j] == Candidate(base, suffix) {
        NthFreeInjective(ids[j], Rank(ids, j), ids[k], r, treeIndex, reserved);
        RankMonotone(ids, j, k);
      }
    }
    forall s: nat | s < suffix ensures Candidate(base, s) in taken {
      if Candidate(base, s) !in reserved {
        var i := FreeIsNth(base, s, r, reserved);
        var j := RankBelow(ids, k, i);
        NthFreeAlike(ids[j], ids[k], treeIndex, i, reserved);
        assert names[..k][j] == names[j] == Candidate(base, s);
      }
    }
    assert Candidate(base, suffix) !in Elements(names[..k]);
    FreeFromUnique(base, suffix, taken);
    AllocatedIs(ids[k], treeIndex, taken);
  }

  lemma NotStrange(extra: set<string>, id: string, treeIndex: nat, suffix: nat)
    requires Strange(extra, id, treeIndex)
    ensures Candidate(BaseName(id, treeIndex), suffix) !in extra
  {
  }

  lemma AllocatedIs(id: string, treeIndex: nat, taken: set<string>)
    ensures Allocated(id, treeIndex, taken)
         == Candidate(BaseName(id, treeIndex), FreeFrom(BaseName(id, treeIndex), 0, taken))
  {
  }

  lemma RankBelow(ids: seq<string>, k: nat, i: nat) returns (j: nat)
    requires k < |ids| && i < Rank(ids, k)
    ensures j < k && StripVanishNamespace(ids[j]) == StripVanishNamespace(ids[k]) && Rank(ids, j) == i
  {
    hide StripVanishNamespace, Count;
    j := RankHit(ids, k, StripVanishNamespace(ids[k]), i);
  }

  // ---------------------------------------------------------------- the maps

  ghost predicate RankedMap(m: Renames, own: seq<string>, index: nat, reserved: set<string>) {
    forall k :: 0 <= k < |own| ==> own[k] in m && m[own[k]] == NthFree(own[k], index, Rank(own, k), reserved)
  }

  ghost predicate RankedMaps(maps: seq<Renames>, trees: seq<Tree>, collate: Collation, index: nat,
                             reserved: set<string>) {
    |maps| == |trees|
    && forall t :: 0 <= t < |maps| ==> RankedMap(maps[t], OwnIds(trees[t], collate), index + t, reserved)
  }

  lemma FirstRanked(tree: Tree, index: nat, reserved: set<string>, extra: set<string>, collate: Collation)
    requires StrangeFrom(extra, index)
    ensures var own := OwnIds(tree, collate);
            RankedMap(Zip(own, Minted(own, index, reserved + extra)), own, index, reserved)
  {
    hide NthFree, Rank, OwnIds, Minted, Zip, StrangeFrom;
    var own := OwnIds(tree, collate);
    OwnIdsElements(tree, collate);
    forall k | 0 <= k < |own|
      ensures var m := Zip(own, Minted(own, index, reserved + extra));
              own[k] in m && m[own[k]] == NthFree(own[k], index, Rank(own, k), reserved)
    {
      MintedRanked(own, index, reserved, extra, k);
      ZipAt(own, Minted(own, index, reserved + extra), k);
    }
  }

  lemma ConsRanked(first: Renames, rest: seq<Renames>, trees: seq<Tree>, collate: Collation, index: nat,
                   reserved: set<string>)
    requires trees != [] && RankedMap(first, OwnIds(trees[0], collate), index, reserved)
    requires RankedMaps(rest, trees[1..], collate, index + 1, reserved)
    ensures RankedMaps([first] + rest, trees, collate, index, reserved)
  {
    hide RankedMap, OwnIds;
    var maps := [first] + rest;
    forall t | 0 <= t < |maps| ensures RankedMap(maps[t], OwnIds(trees[t], collate), index + t, reserved) {
      if t > 0 {
        assert trees[1..][t - 1] == trees[t];
        assert RankedMap(rest[t - 1], OwnIds(trees[t], collate), index + 1 + (t - 1), reserved);
      }
    }
  }

  lemma NoneRanked(collate: Collation, index: nat, reserved: set<string>)
    ensures RankedMaps([], [], collate, index, reserved)
  {
  }

  lemma {:induction false} MapsRanked(trees: seq<Tree>, index: nat, reserved: set<string>, extra: set<string>,
                                      collate: Collation)
    requires StrangeFrom(extra, index)
    ensures RankedMaps(RenameMaps(trees, index, reserved + extra, collate), trees, collate, index, reserved)
    decreases trees
  {
    hide OwnIds, Zip, Minted, StrangeFrom, RankedMap, RankedMaps, MintedFrom;
    if trees == [] {
      NoneRanked(collate, index, reserved);
      assert RenameMaps(trees, index, reserved + extra, collate) == [];
    } else {
      var own := OwnIds(trees[0], collate);
      var names := Minted(own, index, reserved + extra);
      var more := extra + Elements(names);
      FirstRanked(trees[0], index, reserved, extra, collate);
      MintedFacts(own, index, reserved + extra);
      NamesStrange(names, own, index, extra);
      MapsRanked(trees[1..], index + 1, reserved, more, collate);
      assert reserved + extra + Elements(names) == reserved + more;
      ConsRanked(Zip(own, names), RenameMaps(trees[1..], index + 1, reserved + more, collate), trees, collate, index,
                 reserved);
    }
  }

  /** The `k`-th hidden id of a tree gets the free candidate of its strip that its rank numbers. */
  lemma RankedNames(trees: seq<Tree>, collate: Collation, t: nat, k: nat)
    requires t < |trees| && k < |OwnIds(trees[t], collate)|
    ensures var own, m := OwnIds(trees[t], collate), Maps(trees, collate)[t];
            own[k] in m && m[own[k]] == NthFree(own[k], t, Rank(own, k), Remaining(trees))
  {
    hide RenameMaps, NthFree, Rank, Remaining, OwnIds;
    assert StrangeFrom({}, 0);
    assert Remaining(trees) + {} == Remaining(trees);
    MapsRanked(trees, 0, Remaining(trees), {}, collate);
    assert RankedMap(Maps(trees, collate)[t], OwnIds(trees[t], collate), 0 + t, Remaining(trees));
  }
}
