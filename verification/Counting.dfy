/** The insertion-ordered `Set` and `Map` of ECMAScript, as far as the modelled code counts with them. */
module Counting {

  ghost predicate Distinct(s: seq<string>) {
    forall i, j :: 0 <= i < j < |s| ==> s[i] != s[j]
  }

  /** The items without repeats, in order of first occurrence: the key order of a `Map` or `Set`. */
  function Firsts(items: seq<string>): (keys: seq<string>)
    ensures Distinct(keys)
    ensures forall x :: x in keys <==> x in items
  {
    if items == [] then []
    else
      var before := Firsts(items[..|items| - 1]);
      var x := items[|items| - 1];
      assert items == items[..|items| - 1] + [x];
      if x in before then before else before + [x]
  }

  /** A `Map` from items to their counts: the keys in insertion order, and the entries. */
  datatype Counts = Counts(keys: seq<string>, counts: map<string, nat>) {
    ghost predicate Of(items: seq<string>) {
      && keys == Firsts(items)
      && (forall x :: x in keys <==> x in counts)
      && forall x :: Get(x) == multiset(items)[x]
    }

    function Get(x: string): nat {
      if x in counts then counts[x] else 0
    }
  }

  function Bump(c: Counts, x: string): Counts {
    Counts(if x in c.counts then c.keys else c.keys + [x], c.counts[x := c.Get(x) + 1])
  }

  lemma FirstsMore(items: seq<string>, x: string)
    ensures Firsts(items + [x]) == if x in Firsts(items) then Firsts(items) else Firsts(items) + [x]
  {
    hide Distinct;
    assert (items + [x])[..|items|] == items;
  }

  lemma BumpedKeys(c: Counts, x: string)
    requires forall y :: y in c.keys <==> y in c.counts
    ensures forall y :: y in Bump(c, x).keys <==> y in Bump(c, x).counts
  {
  }

  lemma BumpedCounts(c: Counts, x: string, items: seq<string>)
    requires forall y :: c.Get(y) == multiset(items)[y]
    ensures forall y :: Bump(c, x).Get(y) == multiset(items + [x])[y]
  {
    forall y ensures Bump(c, x).Get(y) == multiset(items + [x])[y] {
      assert c.Get(y) == multiset(items)[y];
    }
  }

  lemma CountMore(c: Counts, items: seq<string>, x: string)
    requires c.Of(items)
    ensures Bump(c, x).Of(items + [x])
  {
    BumpedKeys(c, x);
    BumpedCounts(c, x, items);
    FirstsMore(items, x);
    assert Bump(c, x).keys == if x in c.keys then c.keys else c.keys + [x];
    hide Firsts, Counts.Get, Bump;
  }

  lemma CountNothing()
    ensures Counts([], map[]).Of([])
  {
  }

  lemma DistinctCount(s: seq<string>, x: string)
    requires Distinct(s)
    ensures multiset(s)[x] == if x in s then 1 else 0
  {
    if s != [] {
      DistinctCount(s[1..], x);
      assert s == [s[0]] + s[1..];
    }
  }

  /** Where an item occurs first. */
  function FirstAt(items: seq<string>, x: string): (k: nat)
    requires x in items
    ensures k < |items| && items[k] == x && x !in items[..k]
  {
    if items[0] == x then 0
    else
      var rest := FirstAt(items[1..], x);
      assert items[..rest + 1] == [items[0]] + items[1..][..rest];
      rest + 1
  }

  /** `s` lists items of `items`, equal ones together, in the order of their first occurrences. */
  ghost predicate ByFirst(s: seq<string>, items: seq<string>) {
    && (forall k :: 0 <= k < |s| ==> s[k] in items)
    && forall i, j :: 0 <= i < j < |s| ==> FirstAt(items, s[i]) <= FirstAt(items, s[j])
  }

  lemma {:induction false} FirstAtAppend(items: seq<string>, x: string, y: string)
    requires x in items + [y]
    ensures FirstAt(items + [y], x) == if x in items then FirstAt(items, x) else |items|
  {
    if items != [] && items[0] != x {
      assert (items + [y])[1..] == items[1..] + [y];
      FirstAtAppend(items[1..], x, y);
    }
  }

  lemma ByFirstMore(s: seq<string>, items: seq<string>, x: string)
    requires ByFirst(s, items)
    ensures ByFirst(s, items + [x]) && (x !in items ==> ByFirst(s + [x], items + [x]))
  {
    hide FirstAt;
    forall k | 0 <= k < |s| ensures s[k] in items + [x] && FirstAt(items + [x], s[k]) == FirstAt(items, s[k]) < |items| {
      FirstAtAppend(items, s[k], x);
    }
    FirstAtAppend(items, x, x);
    assert forall k :: 0 <= k < |s| ==> (s + [x])[k] == s[k];
  }

  lemma {:induction false} FirstsByFirst(items: seq<string>)
    ensures ByFirst(Firsts(items), items)
  {
    if items != [] {
      var init, x := items[..|items| - 1], items[|items| - 1];
      assert items == init + [x];
      FirstsByFirst(init);
      FirstsMore(init, x);
      hide Firsts, ByFirst;
      ByFirstMore(Firsts(init), init, x);
    }
  }
}
