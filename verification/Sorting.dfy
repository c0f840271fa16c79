/**
 `Array.prototype.sort` of ECMAScript: a stable sort. `Sort` is an insertion sort; the lemmas
 say it is sorted, a permutation and stable, which determines the result.
 */
module Sorting {

  ghost predicate TotalPreorder<T(!new)>(leq: (T, T) -> bool) {
    && (forall a, b :: leq(a, b) || leq(b, a))
    && (forall a, b, c :: leq(a, b) && leq(b, c) ==> leq(a, c))
  }

  ghost predicate Antisymmetric<T(!new)>(leq: (T, T) -> bool) {
    forall a, b :: leq(a, b) && leq(b, a) ==> a == b
  }

  function Insert<T>(leq: (T, T) -> bool, x: T, s: seq<T>): seq<T> {
    if s == [] then [x]
    else if leq(x, s[0]) then [x] + s
    else [s[0]] + Insert(leq, x, s[1..])
  }

  function Sort<T>(leq: (T, T) -> bool, s: seq<T>): seq<T> {
    if s == [] then [] else Insert(leq, s[0], Sort(leq, s[1..]))
  }

  function Filter<T>(keep: T -> bool, s: seq<T>): seq<T> {
    if s == [] then []
    else if keep(s[0]) then [s[0]] + Filter(keep, s[1..])
    else Filter(keep, s[1..])
  }

  function Map<T, U>(f: T -> U, s: seq<T>): (r: seq<U>)
    ensures |r| == |s| && forall i :: 0 <= i < |s| ==> r[i] == f(s[i])
  {
    if s == [] then [] else [f(s[0])] + Map(f, s[1..])
  }

  ghost predicate Sorted<T>(leq: (T, T) -> bool, s: seq<T>) {
    forall i, j :: 0 <= i < j < |s| ==> leq(s[i], s[j])
  }

  // ---------------------------------------------------------------- permutation and order

  lemma {:induction false} InsertPermutes<T>(leq: (T, T) -> bool, x: T, s: seq<T>)
    ensures multiset(Insert(leq, x, s)) == multiset{x} + multiset(s)
  {
    if s != [] {
      assert s == [s[0]] + s[1..];
      if !leq(x, s[0]) {
        InsertPermutes(leq, x, s[1..]);
      }
    }
  }

  lemma {:induction false} SortPermutes<T>(leq: (T, T) -> bool, s: seq<T>)
    ensures multiset(Sort(leq, s)) == multiset(s)
  {
    if s != [] {
      SortPermutes(leq, s[1..]);
      InsertPermutes(leq, s[0], Sort(leq, s[1..]));
      assert s == [s[0]] + s[1..];
    }
  }

  lemma {:induction false} InsertSorted<T(!new)>(leq: (T, T) -> bool, x: T, s: seq<T>)
    requires TotalPreorder(leq) && Sorted(leq, s)
    ensures Sorted(leq, Insert(leq, x, s))
  {
    if s != [] && !leq(x, s[0]) {
      var rest := Insert(leq, x, s[1..]);
      InsertSorted(leq, x, s[1..]);
      InsertPermutes(leq, x, s[1..]);
      forall i | 0 <= i < |rest| ensures leq(s[0], rest[i]) {
        assert rest[i] in multiset(rest);
        assert rest[i] == x || rest[i] in s[1..];
      }
    }
  }

  lemma {:induction false} SortSorted<T(!new)>(leq: (T, T) -> bool, s: seq<T>)
    requires TotalPreorder(leq)
    ensures Sorted(leq, Sort(leq, s))
  {
    if s != [] {
      SortSorted(leq, s[1..]);
      InsertSorted(leq, s[0], Sort(leq, s[1..]));
    }
  }

  // ---------------------------------------------------------------- filters and maps

  lemma {:induction false} InsertFilter<T(!new)>(leq: (T, T) -> bool, keep: T -> bool, x: T, s: seq<T>)
    requires TotalPreorder(leq) && Sorted(leq, s)
    ensures Filter(keep, Insert(leq, x, s))
         == if keep(x) then Insert(leq, x, Filter(keep, s)) else Filter(keep, s)
  {
    if s == [] {
    } else if leq(x, s[0]) {
      assert ([x] + s)[1..] == s;
      if keep(x) {
        FilterMembers(keep, s);
        var kept := Filter(keep, s);
        assert kept != [] ==> kept[0] in s && leq(x, kept[0]);
      }
    } else {
      InsertFilter(leq, keep, x, s[1..]);
      assert Insert(leq, x, s)[1..] == Insert(leq, x, s[1..]);
      if keep(s[0]) {
        assert Filter(keep, s)[1..] == Filter(keep, s[1..]);
      }
    }
  }

  lemma {:induction false} FilterMembers<T>(keep: T -> bool, s: seq<T>)
    ensures forall x :: x in Filter(keep, s) <==> x in s && keep(x)
  {
    if s != [] {
      FilterMembers(keep, s[1..]);
    }
  }

  lemma {:induction false} FilterConcat<T>(keep: T -> bool, a: seq<T>, b: seq<T>)
    ensures Filter(keep, a + b) == Filter(keep, a) + Filter(keep, b)
  {
    if a == [] {
      assert a + b == b;
    } else {
      assert (a + b)[1..] == a[1..] + b;
      FilterConcat(keep, a[1..], b);
    }
  }

  lemma {:induction false} FilterShorter<T>(keep: T -> bool, s: seq<T>)
    ensures |Filter(keep, s)| <= |s|
  {
    if s != [] {
      FilterShorter(keep, s[1..]);
    }
  }

  /** Sorting commutes with filtering. */
  lemma {:induction false} SortFilter<T(!new)>(leq: (T, T) -> bool, keep: T -> bool, s: seq<T>)
    requires TotalPreorder(leq)
    ensures Filter(keep, Sort(leq, s)) == Sort(leq, Filter(keep, s))
  {
    if s != [] {
      SortFilter(leq, keep, s[1..]);
      SortSorted(leq, s[1..]);
      InsertFilter(leq, keep, s[0], Sort(leq, s[1..]));
      if keep(s[0]) {
        assert Filter(keep, s)[1..] == Filter(keep, s[1..]);
      }
    }
  }

  /** Elements that compare equal to `key` keep the order they came in. */
  lemma SortStable<T(!new)>(leq: (T, T) -> bool, s: seq<T>, key: T)
    requires TotalPreorder(leq)
    ensures var tied := (x: T) => leq(key, x) && leq(x, key);
            Filter(tied, Sort(leq, s)) == Filter(tied, s)
  {
    var tied := (x: T) => leq(key, x) && leq(x, key);
    SortFilter(leq, tied, s);
    FilterMembers(tied, s);
    SortTied(leq, Filter(tied, s), key);
  }

  lemma {:induction false} SortTied<T(!new)>(leq: (T, T) -> bool, s: seq<T>, key: T)
    requires TotalPreorder(leq)
    requires forall x :: x in s ==> leq(key, x) && leq(x, key)
    ensures Sort(leq, s) == s
  {
    if s != [] {
      SortTied(leq, s[1..], key);
      if |s| > 1 {
        assert s[1] in s;
        assert leq(s[0], s[1]);
      }
    }
  }

  lemma {:induction false} InsertMap<T, U>(leqT: (T, T) -> bool, leqU: (U, U) -> bool, f: T -> U, x: T, s: seq<T>)
    requires forall a, b | a in [x] + s && b in [x] + s :: leqT(a, b) == leqU(f(a), f(b))
    ensures Map(f, Insert(leqT, x, s)) == Insert(leqU, f(x), Map(f, s))
  {
    if s != [] {
      assert x in [x] + s && s[0] in [x] + s;
      if leqT(x, s[0]) {
        assert ([x] + s)[1..] == s;
      } else {
        InsertMap(leqT, leqU, f, x, s[1..]);
        assert Insert(leqT, x, s)[1..] == Insert(leqT, x, s[1..]);
        assert Map(f, s)[1..] == Map(f, s[1..]);
      }
    }
  }

  /** Sorting commutes with a map that keeps the comparison. */
  lemma {:induction false} SortMap<T, U>(leqT: (T, T) -> bool, leqU: (U, U) -> bool, f: T -> U, s: seq<T>)
    requires forall a, b | a in s && b in s :: leqT(a, b) == leqU(f(a), f(b))
    ensures Map(f, Sort(leqT, s)) == Sort(leqU, Map(f, s))
  {
    if s != [] {
      SortMap(leqT, leqU, f, s[1..]);
      SortPermutes(leqT, s[1..]);
      var rest := Sort(leqT, s[1..]);
      forall a | a in [s[0]] + rest ensures a in s {
        assert a != s[0] ==> a in multiset(rest);
      }
      InsertMap(leqT, leqU, f, s[0], rest);
      assert Map(f, s)[1..] == Map(f, s[1..]);
    }
  }

  /** In a sorted list the elements below a bound form a prefix. */
  lemma {:induction false} SortedPrefix<T>(leq: (T, T) -> bool, below: T -> bool, s: seq<T>)
    requires Sorted(leq, s)
    requires forall a, b | leq(a, b) && below(b) && a in s && b in s :: below(a)
    ensures |Filter(below, s)| <= |s| && Filter(below, s) == s[..|Filter(below, s)|]
  {
    if s == [] {
    } else if below(s[0]) {
      SortedPrefix(leq, below, s[1..]);
    } else {
      forall k | 1 <= k < |s| ensures !below(s[k]) {
        assert leq(s[0], s[k]) && s[k] in s;
      }
      FilterNone(below, s);
    }
  }

  lemma {:induction false} FilterNone<T>(keep: T -> bool, s: seq<T>)
    requires forall k :: 0 <= k < |s| ==> !keep(s[k])
    ensures Filter(keep, s) == []
  {
    if s != [] {
      FilterNone(keep, s[1..]);
    }
  }
}
