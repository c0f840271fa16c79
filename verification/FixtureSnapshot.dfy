/** The snapshot diff of src/lib/fixture-snapshot.ts, as a difference of multisets. */
module FixtureSnapshot {
  import opened Text
  import opened Sorting
  import opened Counting

  /** `error` is absent unless parsing failed. */
  datatype Record = Record(parts: int, noteLeaks: int, refs: seq<string>, render: string, error: Option<string>)

  /** An object from paths to records; `keys` is the order `Object.keys` gives. */
  datatype Snapshot = Snapshot(keys: seq<string>, records: map<string, Record>) {
    ghost predicate Valid() {
      Distinct(keys) && forall p :: p in keys <==> p in records
    }

    function Get(path: string): Option<Record> {
      if path in records then Some(records[path]) else None
    }
  }

  datatype Presence = OnlyBefore | OnlyAfter

  datatype Change<T> = Change(before: T, after: T)

  datatype Delta = Delta(
    path: string,
    presence: Option<Presence>,
    parts: Option<Change<int>>,
    noteLeaks: Option<Change<int>>,
    error: Option<Change<Option<string>>>,
    refsAdded: seq<string>,
    refsRemoved: seq<string>,
    linesAdded: seq<string>,
    linesRemoved: seq<string>
  )

  // ---------------------------------------------------------------- counting

  method CountBy(items: seq<string>) returns (c: Counts)
    ensures c.Of(items)
  {
    CountNothing();
    hide Bump, Counts.Of;
    c := Counts([], map[]);
    for n := 0 to |items|
      invariant c.Of(items[..n])
    {
      var x := items[n];
      CountMore(c, items[..n], x);
      assert items[..n + 1] == items[..n] + [x];
      c := Bump(c, x);
    }
    assert items[..|items|] == items;
  }

  // ---------------------------------------------------------------- surplus

  function Repeat(x: string, n: nat): (s: seq<string>)
    ensures |s| == n && forall k :: 0 <= k < n ==> s[k] == x
  {
    seq(n, _ => x)
  }

  function Excess(from: seq<string>, other: seq<string>, x: string): nat {
    if multiset(from)[x] > multiset(other)[x] then multiset(from)[x] - multiset(other)[x] else 0
  }

  function SurplusAt(keys: seq<string>, from: seq<string>, other: seq<string>): seq<string> {
    if keys == [] then []
    else
      var x := keys[|keys| - 1];
      SurplusAt(keys[..|keys| - 1], from, other) + Repeat(x, Excess(from, other, x))
  }

  /** What `from` holds beyond `other`, grouped by item in order of first occurrence. */
  function Surplus(from: seq<string>, other: seq<string>): seq<string> {
    SurplusAt(Firsts(from), from, other)
  }

  lemma ExcessCounted(from: Counts, other: Counts, fromItems: seq<string>, otherItems: seq<string>, x: string)
    requires from.Of(fromItems) && other.Of(otherItems)
    ensures Excess(fromItems, otherItems, x)
         == if from.Get(x) > other.Get(x) then from.Get(x) - other.Get(x) else 0
  {
    hide Firsts, Counts.Get;
  }

  lemma KeysCounted(c: Counts, items: seq<string>)
    requires c.Of(items)
    ensures c.keys == Firsts(items)
  {
  }

  lemma SurplusNone(from: seq<string>, other: seq<string>)
    ensures SurplusAt([], from, other) == []
  {
  }

  lemma RepeatNone(x: string)
    ensures Repeat(x, 0) == []
  {
  }

  lemma RepeatMore(before: seq<string>, x: string, n: nat)
    ensures before + Repeat(x, n) + [x] == before + Repeat(x, n + 1)
  {
  }

  lemma SurplusStep(keys: seq<string>, k: nat, from: seq<string>, other: seq<string>)
    requires k < |keys|
    ensures SurplusAt(keys[..k + 1], from, other)
         == SurplusAt(keys[..k], from, other) + Repeat(keys[k], Excess(from, other, keys[k]))
  {
    hide Excess, Repeat;
    assert keys[..k + 1][..k] == keys[..k];
  }

  method SurplusOf(from: Counts, other: Counts, ghost fromItems: seq<string>, ghost otherItems: seq<string>)
      returns (out: seq<string>)
    requires from.Of(fromItems) && other.Of(otherItems)
    ensures out == Surplus(fromItems, otherItems)
  {
    hide Excess, Repeat, Firsts, Counts.Of, Counts.Get, SurplusAt;
    KeysCounted(from, fromItems);
    SurplusNone(fromItems, otherItems);
    out := [];
    for k := 0 to |from.keys|
      invariant out == SurplusAt(from.keys[..k], fromItems, otherItems)
    {
      var x := from.keys[k];
      ghost var before := out;
      ExcessCounted(from, other, fromItems, otherItems, x);
      RepeatNone(x);
      var i := 0;
      while i < from.Get(x) - other.Get(x)
        invariant i <= Excess(fromItems, otherItems, x)
        invariant out == before + Repeat(x, i)
      {
        RepeatMore(before, x, i);
        out := out + [x];
        i := i + 1;
      }
      SurplusStep(from.keys, k, fromItems, otherItems);
    }
    assert from.keys[..|from.keys|] == from.keys;
  }

  method DiffLists(before: seq<string>, after: seq<string>) returns (added: seq<string>, removed: seq<string>)
    ensures added == Surplus(after, before) && removed == Surplus(before, after)
  {
    var b := CountBy(before);
    var a := CountBy(after);
    added := SurplusOf(a, b, after, before);
    removed := SurplusOf(b, a, before, after);
  }

  lemma RepeatCounts(x: string, n: nat, y: string)
    ensures multiset(Repeat(x, n))[y] == if y == x then n else 0
  {
    if n > 0 {
      RepeatCounts(x, n - 1, y);
      assert Repeat(x, n) == Repeat(x, n - 1) + [x];
    }
  }

  lemma {:induction false} SurplusCounts(keys: seq<string>, from: seq<string>, other: seq<string>, y: string)
    requires Distinct(keys)
    ensures multiset(SurplusAt(keys, from, other))[y] == if y in keys then Excess(from, other, y) else 0
  {
    if keys != [] {
      hide Excess, Repeat;
      var x := keys[|keys| - 1];
      var rest := keys[..|keys| - 1];
      assert keys == rest + [x];
      SurplusCounts(rest, from, other, y);
      RepeatCounts(x, Excess(from, other, x), y);
    }
  }

  /** The surplus is the multiset difference. */
  lemma SurplusIsDifference(from: seq<string>, other: seq<string>)
    ensures multiset(Surplus(from, other)) == multiset(from) - multiset(other)
  {
    forall y ensures multiset(Surplus(from, other))[y] == (multiset(from) - multiset(other))[y] {
      SurplusCounts(Firsts(from), from, other, y);
    }
  }

  /**
   Nothing is lost: what was there with what was added is what is there with what was removed. No
   item is both added and removed, and any other account of the change lists at least as much.
   */
  lemma DiffConserves(before: seq<string>, after: seq<string>, plus: multiset<string>, minus: multiset<string>)
    ensures var added, removed := multiset(Surplus(after, before)), multiset(Surplus(before, after));
            && multiset(before) + added == multiset(after) + removed
            && added !! removed
            && (multiset(before) + plus == multiset(after) + minus ==> added <= plus && removed <= minus)
  {
    SurplusIsDifference(before, after);
    SurplusIsDifference(after, before);
    var b, a := multiset(before), multiset(after);
    if b + plus == a + minus {
      forall x ensures (a - b)[x] <= plus[x] && (b - a)[x] <= minus[x] {
        assert (b + plus)[x] == (a + minus)[x];
      }
    }
  }

  /** Both lists are empty exactly when the two hold the same items, in whatever order. */
  lemma NoDiffIffSame(before: seq<string>, after: seq<string>)
    ensures Surplus(after, before) == [] && Surplus(before, after) == []
       <==> multiset(before) == multiset(after)
  {
    hide Surplus;
    SurplusIsDifference(before, after);
    SurplusIsDifference(after, before);
    EmptyMultiset(Surplus(after, before));
    EmptyMultiset(Surplus(before, after));
    var b, a := multiset(before), multiset(after);
    if b - a == multiset{} && a - b == multiset{} {
      forall x ensures b[x] == a[x] {
        assert (b - a)[x] == 0 && (a - b)[x] == 0;
      }
      assert b == a;
    }
  }

  lemma EmptyMultiset(s: seq<string>)
    ensures s == [] <==> multiset(s) == multiset{}
  {
    if s != [] {
      assert s[0] in multiset(s);
    }
  }

  // ---------------------------------------------------------------- records and snapshots

  function ChangeOf<T(==)>(before: T, after: T): Option<Change<T>> {
    if before == after then None else Some(Change(before, after))
  }

  function Lines(render: string): seq<string> {
    Split(render, '\n')
  }

  function DeltaOf(path: string, before: Record, after: Record): Option<Delta> {
    if && before.parts == after.parts && before.noteLeaks == after.noteLeaks && before.render == after.render
       && Surplus(after.refs, before.refs) == [] && Surplus(before.refs, after.refs) == []
       && before.error == after.error
    then None
    else Some(Delta(path, None,
                    ChangeOf(before.parts, after.parts),
                    ChangeOf(before.noteLeaks, after.noteLeaks),
                    ChangeOf(before.error, after.error),
                    Surplus(after.refs, before.refs), Surplus(before.refs, after.refs),
                    Surplus(Lines(after.render), Lines(before.render)),
                    Surplus(Lines(before.render), Lines(after.render))))
  }

  method ComputeDelta(path: string, before: Record, after: Record) returns (d: Option<Delta>)
    ensures d == DeltaOf(path, before, after)
  {
    var refsAdded, refsRemoved := DiffLists(before.refs, after.refs);
    var linesAdded, linesRemoved := DiffLists(Lines(before.render), Lines(after.render));
    var changed := || before.parts != after.parts
                   || before.noteLeaks != after.noteLeaks
                   || before.render != after.render
                   || |refsAdded| + |refsRemoved| > 0
                   || before.error != after.error;
    if !changed {
      return None;
    }
    return Some(Delta(path, None, ChangeOf(before.parts, after.parts), ChangeOf(before.noteLeaks, after.noteLeaks),
                      ChangeOf(before.error, after.error), refsAdded, refsRemoved, linesAdded, linesRemoved));
  }

  function PresenceDelta(path: string, presence: Presence): Delta {
    Delta(path, Some(presence), None, None, None, [], [], [], [])
  }

  function PathDelta(path: string, before: Option<Record>, after: Option<Record>): Option<Delta> {
    match (before, after)
    case (Some(_), None) => Some(PresenceDelta(path, OnlyBefore))
    case (None, Some(_)) => Some(PresenceDelta(path, OnlyAfter))
    case (Some(b), Some(a)) => DeltaOf(path, b, a)
    case (None, None) => None
  }

  function Deltas(paths: seq<string>, before: Snapshot, after: Snapshot): seq<Delta> {
    if paths == [] then []
    else
      var d := PathDelta(paths[|paths| - 1], before.Get(paths[|paths| - 1]), after.Get(paths[|paths| - 1]));
      Deltas(paths[..|paths| - 1], before, after) + if d.Some? then [d.value] else []
  }

  function Paths(before: Snapshot, after: Snapshot, leq: (string, string) -> bool): seq<string> {
    Sort(leq, Firsts(before.keys + after.keys))
  }

  lemma NoDeltas(before: Snapshot, after: Snapshot)
    ensures Deltas([], before, after) == []
  {
  }

  lemma DeltasStep(paths: seq<string>, k: nat, before: Snapshot, after: Snapshot)
    requires k < |paths|
    ensures var d := PathDelta(paths[k], before.Get(paths[k]), after.Get(paths[k]));
            Deltas(paths[..k + 1], before, after)
              == Deltas(paths[..k], before, after) + if d.Some? then [d.value] else []
  {
    hide PathDelta, Snapshot.Get;
    assert paths[..k + 1][..k] == paths[..k];
  }

  /** `leq` is the locale's collation. */
  method DiffSnapshots(before: Snapshot, after: Snapshot, leq: (string, string) -> bool)
      returns (changed: seq<Delta>, total: nat)
    ensures changed == Deltas(Paths(before, after, leq), before, after)
    ensures total == |Paths(before, after, leq)|
  {
    hide DeltaOf, Deltas, Snapshot.Get;
    var paths := Paths(before, after, leq);
    changed := [];
    NoDeltas(before, after);
    for k := 0 to |paths|
      invariant changed == Deltas(paths[..k], before, after)
    {
      var b, a := before.Get(paths[k]), after.Get(paths[k]);
      var d := PathDelta(paths[k], b, a);
      if b.Some? && a.Some? {
        d := ComputeDelta(paths[k], b.value, a.value);
      }
      DeltasStep(paths, k, before, after);
      if d.Some? {
        changed := changed + [d.value];
      }
    }
    assert paths[..|paths|] == paths;
    return changed, |paths|;
  }

  /** The records say the same, with references in whatever order. */
  predicate Agree(before: Record, after: Record) {
    && before.parts == after.parts && before.noteLeaks == after.noteLeaks
    && multiset(before.refs) == multiset(after.refs)
    && before.render == after.render && before.error == after.error
  }

  predicate AgreeAt(path: string, before: Snapshot, after: Snapshot) {
    if path in before.records && path in after.records then Agree(before.records[path], after.records[path])
    else path !in before.records && path !in after.records
  }

  lemma PathDeltaIff(path: string, before: Snapshot, after: Snapshot)
    ensures PathDelta(path, before.Get(path), after.Get(path)).None? <==> AgreeAt(path, before, after)
    ensures var d := PathDelta(path, before.Get(path), after.Get(path)); d.Some? ==> d.value.path == path
  {
    hide Surplus, Lines;
    if path in before.records && path in after.records {
      NoDiffIffSame(before.records[path].refs, after.records[path].refs);
    }
  }

  lemma {:induction false} DeltasPaths(paths: seq<string>, before: Snapshot, after: Snapshot)
    ensures forall p :: (exists d :: d in Deltas(paths, before, after) && d.path == p)
                        <==> p in paths && !AgreeAt(p, before, after)
  {
    if paths != [] {
      hide PathDelta, AgreeAt;
      var last := paths[|paths| - 1];
      var rest := paths[..|paths| - 1];
      assert paths == rest + [last];
      DeltasPaths(rest, before, after);
      PathDeltaIff(last, before, after);
      var d := PathDelta(last, before.Get(last), after.Get(last));
      assert d.Some? ==> d.value in Deltas(paths, before, after);
      forall p ensures (exists d :: d in Deltas(paths, before, after) && d.path == p)
                       <==> p in paths && !AgreeAt(p, before, after) {
        if p in rest && !AgreeAt(p, before, after) {
          var e :| e in Deltas(rest, before, after) && e.path == p;
          assert e in Deltas(paths, before, after);
        }
      }
    }
  }

  lemma PathsMembers(before: Snapshot, after: Snapshot, leq: (string, string) -> bool)
    requires before.Valid() && after.Valid()
    ensures forall p :: p in Paths(before, after, leq) <==> p in before.records || p in after.records
  {
    var firsts := Firsts(before.keys + after.keys);
    SortPermutes(leq, firsts);
    forall p ensures p in Paths(before, after, leq) <==> p in firsts {
      assert p in multiset(Sort(leq, firsts)) <==> p in multiset(firsts);
    }
  }

  /** The paths of both snapshots, once each, in collation order. */
  lemma PathsSorted(before: Snapshot, after: Snapshot, leq: (string, string) -> bool)
    requires TotalPreorder(leq) && before.Valid() && after.Valid()
    ensures var paths := Paths(before, after, leq);
            && Sorted(leq, paths) && (forall p :: p in paths <==> p in before.records || p in after.records)
            && forall p :: multiset(paths)[p] <= 1
  {
    var firsts := Firsts(before.keys + after.keys);
    PathsMembers(before, after, leq);
    SortSorted(leq, firsts);
    SortPermutes(leq, firsts);
    forall p ensures multiset(Paths(before, after, leq))[p] <= 1 {
      DistinctCount(firsts, p);
    }
  }

  /** The diff names exactly the paths where the snapshots differ, in presence or in content. */
  lemma ChangedPaths(before: Snapshot, after: Snapshot, leq: (string, string) -> bool, path: string)
    requires before.Valid() && after.Valid()
    ensures (exists d :: d in Deltas(Paths(before, after, leq), before, after) && d.path == path)
       <==> !AgreeAt(path, before, after)
  {
    hide Paths, Deltas;
    PathsMembers(before, after, leq);
    DeltasPaths(Paths(before, after, leq), before, after);
  }

  /** No change is reported exactly when the paths match and the records agree. */
  lemma NoChangeIff(before: Snapshot, after: Snapshot, leq: (string, string) -> bool)
    requires before.Valid() && after.Valid()
    ensures Deltas(Paths(before, after, leq), before, after) == []
       <==> && before.records.Keys == after.records.Keys
            && forall p :: p in before.records && p in after.records ==> Agree(before.records[p], after.records[p])
  {
    hide Paths, Deltas, Agree;
    var changed := Deltas(Paths(before, after, leq), before, after);
    if changed == [] {
      forall p ensures AgreeAt(p, before, after) {
        ChangedPaths(before, after, leq, p);
      }
      assert forall p :: p in before.records.Keys <==> p in after.records.Keys by {
        forall p ensures p in before.records.Keys <==> p in after.records.Keys {
          assert AgreeAt(p, before, after);
        }
      }
      forall p | p in before.records && p in after.records ensures Agree(before.records[p], after.records[p]) {
        assert AgreeAt(p, before, after);
      }
    } else {
      var d := changed[0];
      assert d in changed;
      ChangedPaths(before, after, leq, d.path);
      assert !AgreeAt(d.path, before, after);
      assert before.records.Keys == after.records.Keys ==>
               (d.path in before.records.Keys <==> d.path in after.records.Keys);
    }
  }

  // ---------------------------------------------------------------- what a delta says

  /** Added and removed items account for the change, share nothing, and come in order of first occurrence. */
  ghost predicate Accounts(added: seq<string>, removed: seq<string>, before: seq<string>, after: seq<string>) {
    && multiset(before) + multiset(added) == multiset(after) + multiset(removed)
    && multiset(added) !! multiset(removed)
    && ByFirst(added, after) && ByFirst(removed, before)
  }

  predicate Tells<T(==)>(change: Option<Change<T>>, before: T, after: T) {
    if before == after then change.None?
    else change.Some? && change.value.before == before && change.value.after == after
  }

  /** A delta shows on which side a record is missing, or else all that differs between the two. */
  ghost predicate Says(d: Delta, before: Option<Record>, after: Option<Record>) {
    if before.None? || after.None? then
      && d.presence == Some(if after.None? then OnlyBefore else OnlyAfter)
      && d.parts.None? && d.noteLeaks.None? && d.error.None?
      && d.refsAdded == d.refsRemoved == d.linesAdded == d.linesRemoved == []
    else
      var b, a := before.value, after.value;
      && d.presence.None?
      && Tells(d.parts, b.parts, a.parts) && Tells(d.noteLeaks, b.noteLeaks, a.noteLeaks)
      && Tells(d.error, b.error, a.error)
      && Accounts(d.refsAdded, d.refsRemoved, b.refs, a.refs)
      && Accounts(d.linesAdded, d.linesRemoved, Split(b.render, '\n'), Split(a.render, '\n'))
  }

  lemma {:induction false} SurplusByFirst(keys: seq<string>, from: seq<string>, other: seq<string>)
    requires ByFirst(keys, from)
    ensures ByFirst(SurplusAt(keys, from, other), from)
    ensures forall x :: x in SurplusAt(keys, from, other) ==> x in keys
  {
    if keys != [] {
      hide FirstAt, Excess, Firsts, Repeat;
      var rest, last := keys[..|keys| - 1], keys[|keys| - 1];
      assert ByFirst(rest, from);
      SurplusByFirst(rest, from, other);
      var before, more := SurplusAt(rest, from, other), Repeat(last, Excess(from, other, last));
      var s := before + more;
      assert forall k :: |before| <= k < |s| ==> s[k] == last;
      forall k | 0 <= k < |before| ensures s[k] in from && FirstAt(from, s[k]) <= FirstAt(from, last) {
        assert s[k] in before;
        var i :| 0 <= i < |rest| && rest[i] == s[k];
        assert keys[i] == s[k];
      }
    }
  }

  lemma SurplusAccounts(before: seq<string>, after: seq<string>)
    ensures Accounts(Surplus(after, before), Surplus(before, after), before, after)
  {
    hide ByFirst, Firsts, SurplusAt;
    DiffConserves(before, after, multiset{}, multiset{});
    FirstsByFirst(after);
    FirstsByFirst(before);
    SurplusByFirst(Firsts(after), after, before);
    SurplusByFirst(Firsts(before), before, after);
  }

  lemma PathDeltaSays(path: string, before: Option<Record>, after: Option<Record>)
    requires PathDelta(path, before, after).Some?
    ensures PathDelta(path, before, after).value.path == path && Says(PathDelta(path, before, after).value, before, after)
  {
    hide Surplus, Accounts, Split;
    if before.Some? && after.Some? {
      SurplusAccounts(before.value.refs, after.value.refs);
      SurplusAccounts(Lines(before.value.render), Lines(after.value.render));
    }
  }

  ghost predicate AllSay(deltas: seq<Delta>, paths: seq<string>, before: Snapshot, after: Snapshot) {
    && |deltas| == |paths|
    && forall k :: 0 <= k < |paths| ==>
         deltas[k].path == paths[k] && Says(deltas[k], before.Get(paths[k]), after.Get(paths[k]))
  }

  /** The deltas are those of the paths where the snapshots differ, in order, and each says what differs. */
  lemma {:induction false} DeltasSay(paths: seq<string>, before: Snapshot, after: Snapshot)
    ensures AllSay(Deltas(paths, before, after), Filter((p: string) => !AgreeAt(p, before, after), paths), before, after)
  {
    hide PathDelta, AgreeAt, Says, Snapshot.Get;
    var differs := (p: string) => !AgreeAt(p, before, after);
    if paths != [] {
      var init, last := paths[..|paths| - 1], paths[|paths| - 1];
      assert paths == init + [last] && [last][1..] == [];
      DeltasSay(init, before, after);
      FilterConcat(differs, init, [last]);
      PathDeltaIff(last, before, after);
      if differs(last) {
        PathDeltaSays(last, before.Get(last), after.Get(last));
      }
    }
  }

  // ---------------------------------------------------------------- swapping the arguments

  function MirrorChange<T>(c: Option<Change<T>>): Option<Change<T>> {
    if c.Some? then Some(Change(c.value.after, c.value.before)) else None
  }

  function Mirror(d: Delta): Delta {
    Delta(d.path,
          match d.presence
          case Some(OnlyBefore) => Some(OnlyAfter)
          case Some(OnlyAfter) => Some(OnlyBefore)
          case None => None,
          MirrorChange(d.parts), MirrorChange(d.noteLeaks), MirrorChange(d.error),
          d.refsRemoved, d.refsAdded, d.linesRemoved, d.linesAdded)
  }

  lemma PathDeltaMirrors(path: string, before: Option<Record>, after: Option<Record>)
    ensures var d := PathDelta(path, before, after);
            PathDelta(path, after, before) == if d.Some? then Some(Mirror(d.value)) else None
  {
    hide Surplus, Lines;
  }

  lemma {:induction false} DeltasMirror(paths: seq<string>, before: Snapshot, after: Snapshot)
    ensures Deltas(paths, after, before) == Map(Mirror, Deltas(paths, before, after))
  {
    if paths != [] {
      hide PathDelta, Mirror;
      var last := paths[|paths| - 1];
      DeltasMirror(paths[..|paths| - 1], before, after);
      PathDeltaMirrors(last, before.Get(last), after.Get(last));
      var d := PathDelta(last, before.Get(last), after.Get(last));
      MapAppend(Mirror, Deltas(paths[..|paths| - 1], before, after), if d.Some? then [d.value] else []);
    }
  }

  lemma MapAppend<T, U>(f: T -> U, s: seq<T>, t: seq<T>)
    ensures Map(f, s + t) == Map(f, s) + Map(f, t)
  {
  }

  lemma PathsSymmetric(before: Snapshot, after: Snapshot, leq: (string, string) -> bool)
    requires TotalPreorder(leq) && Antisymmetric(leq)
    ensures Paths(before, after, leq) == Paths(after, before, leq)
  {
    var one, two := Firsts(before.keys + after.keys), Firsts(after.keys + before.keys);
    DistinctMultiset(one, two);
    SortPermutes(leq, one);
    SortPermutes(leq, two);
    SortSorted(leq, one);
    SortSorted(leq, two);
    SortedUnique(leq, Sort(leq, one), Sort(leq, two));
  }

  lemma DistinctMultiset(s: seq<string>, t: seq<string>)
    requires Distinct(s) && Distinct(t) && forall x :: x in s <==> x in t
    ensures multiset(s) == multiset(t)
  {
    forall x ensures multiset(s)[x] == multiset(t)[x] {
      DistinctCount(s, x);
      DistinctCount(t, x);
    }
  }

  lemma TailMultiset(s: seq<string>)
    requires s != []
    ensures multiset(s[1..]) == multiset(s) - multiset{s[0]}
  {
    assert s == [s[0]] + s[1..];
  }

  lemma SortedHead(leq: (string, string) -> bool, s: seq<string>, t: seq<string>)
    requires Sorted(leq, s) && s != [] && t != [] && multiset(s) == multiset(t) && leq(s[0], s[0])
    ensures leq(s[0], t[0])
  {
    assert t[0] in multiset(s);
    var k :| 0 <= k < |s| && s[k] == t[0];
  }

  lemma {:induction false} SortedUnique(leq: (string, string) -> bool, s: seq<string>, t: seq<string>)
    requires Antisymmetric(leq) && Sorted(leq, s) && Sorted(leq, t) && multiset(s) == multiset(t)
    requires forall x :: leq(x, x)
    ensures s == t
  {
    assert |s| == |multiset(s)| && |t| == |multiset(t)|;
    if s != [] {
      SortedHead(leq, s, t);
      SortedHead(leq, t, s);
      TailMultiset(s);
      TailMultiset(t);
      SortedUnique(leq, s[1..], t[1..]);
      assert s == [s[0]] + s[1..] && t == [t[0]] + t[1..];
    }
  }

  /** Swapping the snapshots swaps added and removed, path by path, and nothing else. */
  lemma DiffMirrors(before: Snapshot, after: Snapshot, leq: (string, string) -> bool)
    requires TotalPreorder(leq) && Antisymmetric(leq)
    ensures Deltas(Paths(after, before, leq), after, before)
         == Map(Mirror, Deltas(Paths(before, after, leq), before, after))
  {
    PathsSymmetric(before, after, leq);
    DeltasMirror(Paths(before, after, leq), before, after);
  }
}
