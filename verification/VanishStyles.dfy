/** The vanish character styles of src/generator/object-vanish-styles.ts. */
module VanishStyles {
  import opened Text
  import opened SpecTree
  import opened Sorting
  import opened Counting

  const SEPARATOR := "#specr-vanish-t"

  type Collation = (string, string) -> bool

  // ---------------------------------------------------------------- the ids of a tree

  /** A set as ECMAScript keeps it: without duplicates, in insertion order. */
  function Add(ids: seq<string>, id: string): seq<string> {
    if id in ids then ids else ids + [id]
  }

  function AddAll(ids: seq<string>, more: seq<string>): seq<string>
    decreases more
  {
    if more == [] then ids else AddAll(Add(ids, more[0]), more[1..])
  }

  class IdSet {
    var ids: seq<string>

    constructor ()
      ensures ids == []
    {
      ids := [];
    }

    method Insert(id: string)
      modifies this
      ensures ids == Add(old(ids), id)
    {
      if id !in ids {
        ids := ids + [id];
      }
    }
  }

  function OwnVanishIds(node: Node): seq<string> {
    if node.kind == Object && node.meta.object_.Some? then node.meta.object_.value.vanishCharStyleIds.GetOr([])
    else []
  }

  function Collect(nodes: seq<Node>, ids: seq<string>): seq<string> {
    if nodes == [] then ids
    else Collect(nodes[1..], Collect(nodes[0].children, AddAll(ids, OwnVanishIds(nodes[0]))))
  }

  method CollectFromNodes(nodes: seq<Node>, acc: IdSet)
    modifies acc
    ensures acc.ids == Collect(nodes, old(acc.ids))
    decreases nodes
  {
    hide AddAll, OwnVanishIds;
    ghost var goal := Collect(nodes, acc.ids);
    assert nodes[0..] == nodes;
    for i := 0 to |nodes|
      invariant Collect(nodes[i..], acc.ids) == goal
    {
      assert nodes[i..][1..] == nodes[i + 1..];
      InsertAll(OwnVanishIds(nodes[i]), acc);
      CollectFromNodes(nodes[i].children, acc);
    }
  }

  method InsertAll(more: seq<string>, acc: IdSet)
    modifies acc
    ensures acc.ids == AddAll(old(acc.ids), more)
  {
    ghost var goal := AddAll(acc.ids, more);
    assert more[0..] == more;
    for i := 0 to |more|
      invariant AddAll(acc.ids, more[i..]) == goal
    {
      assert more[i..][1..] == more[i + 1..];
      acc.Insert(more[i]);
    }
  }

  function CollectTrees(trees: seq<Tree>, ids: seq<string>): seq<string> {
    if trees == [] then ids else CollectTrees(trees[1..], Collect(trees[0].parts, ids))
  }

  /** Every vanish id of the trees, sorted by an arbitrary collation. */
  method CollectVanishCharacterStyleIds(trees: seq<Tree>, collate: Collation) returns (ids: seq<string>)
    ensures ids == Sort(collate, CollectTrees(trees, []))
  {
    var acc := new IdSet();
    ghost var goal := CollectTrees(trees, []);
    assert trees[0..] == trees;
    for i := 0 to |trees|
      invariant CollectTrees(trees[i..], acc.ids) == goal
    {
      assert trees[i..][1..] == trees[i + 1..];
      CollectFromNodes(trees[i].parts, acc);
    }
    ids := Sort(collate, acc.ids);
  }

  function OwnIds(tree: Tree, collate: Collation): seq<string> {
    Sort(collate, CollectTrees([tree], []))
  }

  // ---------------------------------------------------------------- as sets

  function Elements(ids: seq<string>): set<string> {
    set id | id in ids
  }

  /** The vanish ids of the objects among `nodes` and below them. */
  function VanishIds(nodes: seq<Node>): set<string> {
    if nodes == [] then {}
    else Elements(OwnVanishIds(nodes[0])) + VanishIds(nodes[0].children) + VanishIds(nodes[1..])
  }

  lemma {:induction false} AddAllElements(ids: seq<string>, more: seq<string>)
    requires Distinct(ids)
    ensures Distinct(AddAll(ids, more)) && Elements(AddAll(ids, more)) == Elements(ids) + Elements(more)
    decreases more
  {
    if more != [] {
      AddAllElements(Add(ids, more[0]), more[1..]);
      assert more == [more[0]] + more[1..];
    }
  }

  lemma {:induction false} CollectElements(nodes: seq<Node>, ids: seq<string>)
    requires Distinct(ids)
    ensures Distinct(Collect(nodes, ids)) && Elements(Collect(nodes, ids)) == Elements(ids) + VanishIds(nodes)
    decreases nodes
  {
    hide Distinct, Elements, AddAll, OwnVanishIds;
    if nodes != [] {
      var own := AddAll(ids, OwnVanishIds(nodes[0]));
      var below := Collect(nodes[0].children, own);
      AddAllElements(ids, OwnVanishIds(nodes[0]));
      CollectElements(nodes[0].children, own);
      CollectElements(nodes[1..], below);
    }
  }

  lemma {:induction false} CollectTreesElements(trees: seq<Tree>, ids: seq<string>)
    requires Distinct(ids)
    ensures var all := CollectTrees(trees, ids);
            && Distinct(all)
            && (forall id :: id in all <==> id in ids || exists t :: 0 <= t < |trees| && id in VanishIds(trees[t].parts))
  {
    if trees != [] {
      var first := Collect(trees[0].parts, ids);
      CollectElements(trees[0].parts, ids);
      CollectTreesElements(trees[1..], first);
      forall id
        ensures id in CollectTrees(trees, ids)
           <==> id in ids || exists t :: 0 <= t < |trees| && id in VanishIds(trees[t].parts)
      {
        assert id in first <==> id in Elements(first);
        assert id in ids <==> id in Elements(ids);
        if id in CollectTrees(trees[1..], first) && id !in first {
          var t :| 0 <= t < |trees[1..]| && id in VanishIds(trees[1..][t].parts);
          assert id in VanishIds(trees[t + 1].parts);
        }
        if exists t :: 0 <= t < |trees| && id in VanishIds(trees[t].parts) {
          var t :| 0 <= t < |trees| && id in VanishIds(trees[t].parts);
          if t > 0 {
            assert id in VanishIds(trees[1..][t - 1].parts);
          }
        }
      }
    }
  }

  lemma SortElements(collate: Collation, ids: seq<string>)
    requires Distinct(ids)
    ensures Distinct(Sort(collate, ids)) && forall id :: id in Sort(collate, ids) <==> id in ids
  {
    var sorted := Sort(collate, ids);
    SortPermutes(collate, ids);
    forall id ensures id in sorted <==> id in ids {
      assert id in sorted <==> id in multiset(sorted);
      assert id in ids <==> id in multiset(ids);
    }
    forall id ensures multiset(ids)[id] <= 1 {
      DistinctCount(ids, id);
    }
    MultisetDistinct(sorted);
  }

  lemma {:induction false} MultisetDistinct(ids: seq<string>)
    requires forall id :: multiset(ids)[id] <= 1
    ensures Distinct(ids)
  {
    if ids != [] {
      assert ids == [ids[0]] + ids[1..];
      assert multiset(ids) == multiset{ids[0]} + multiset(ids[1..]);
      forall id ensures multiset(ids[1..])[id] <= 1 {
        assert multiset(ids[1..])[id] <= multiset(ids)[id];
      }
      MultisetDistinct(ids[1..]);
      assert multiset(ids)[ids[0]] == 1 + multiset(ids[1..])[ids[0]];
      assert ids[0] !in ids[1..];
    }
  }

  lemma OwnIdsElements(tree: Tree, collate: Collation)
    ensures Distinct(OwnIds(tree, collate))
    ensures forall id :: id in OwnIds(tree, collate) <==> id in VanishIds(tree.parts)
  {
    CollectTreesElements([tree], []);
    SortElements(collate, CollectTrees([tree], []));
    forall id ensures id in OwnIds(tree, collate) <==> id in VanishIds(tree.parts) {
      if id in VanishIds(tree.parts) {
        assert id in VanishIds([tree][0].parts);
      }
    }
  }

  // ---------------------------------------------------------------- the separator

  predicate OccursAt(s: string, k: nat) {
    k + |SEPARATOR| <= |s| && s[k..k + |SEPARATOR|] == SEPARATOR
  }

  /** `id.indexOf(NAMESPACE_SEPARATOR)`, searching from index `k` on. */
  function FindSeparator(s: string, k: nat): (at: Option<nat>)
    ensures at.Some? ==> k <= at.value && OccursAt(s, at.value)
    ensures forall j :: k <= j && (at.None? || j < at.value) ==> !OccursAt(s, j)
    decreases |s| - k
  {
    if k + |SEPARATOR| > |s| then None
    else if OccursAt(s, k) then Some(k)
    else FindSeparator(s, k + 1)
  }

  function StripVanishNamespace(id: string): string {
    var at := FindSeparator(id, 0);
    if at.None? then id else id[..at.value]
  }

  ghost predicate SeparatorFree(s: string) {
    forall k: nat :: !OccursAt(s, k)
  }

  /** The stripped id holds no separator. */
  lemma StripIsFree(id: string)
    ensures SeparatorFree(StripVanishNamespace(id))
  {
    var at := FindSeparator(id, 0);
    if at.Some? {
      var stripped := StripVanishNamespace(id);
      forall k: nat ensures !OccursAt(stripped, k) {
        if OccursAt(stripped, k) {
          assert id[k..k + |SEPARATOR|] == stripped[k..k + |SEPARATOR|];
          assert OccursAt(id, k);
        }
      }
    }
  }

  /** No separator starts earlier: its `#` stands at its front only. */
  lemma FirstSeparator(x: string, rest: string, k: nat)
    requires SeparatorFree(x) && k < |x|
    ensures !OccursAt(x + (SEPARATOR + rest), k)
  {
    var s := x + (SEPARATOR + rest);
    assert !OccursAt(x, k);
    if k + |SEPARATOR| <= |x| {
      assert x[k..k + |SEPARATOR|] == s[k..k + |SEPARATOR|];
    } else if k + |SEPARATOR| <= |s| {
      var j := |x| - k;
      assert s[|x|] == (SEPARATOR + rest)[0] == '#';
      assert s[k..k + |SEPARATOR|][j] == s[|x|];
      assert SEPARATOR[j] != '#';
    }
  }

  /** Stripping undoes minting, for any name that holds no separator itself. */
  lemma StripMinted(x: string, rest: string)
    requires SeparatorFree(x)
    ensures StripVanishNamespace(x + (SEPARATOR + rest)) == x
  {
    var s := x + (SEPARATOR + rest);
    forall k | 0 <= k < |x| ensures !OccursAt(s, k) {
      FirstSeparator(x, rest, k);
    }
    assert s[|x|..|x| + |SEPARATOR|] == SEPARATOR;
    assert OccursAt(s, |x|);
    assert s[..|x|] == x;
  }

  /** The stripped id is what stands before the first separator; all of the id without one. */
  lemma StripIff(id: string, name: string)
    ensures StripVanishNamespace(id) == name
       <==> SeparatorFree(name) && (id == name || exists rest :: id == name + ("#specr-vanish-t" + rest))
  {
    hide SeparatorFree;
    var at := FindSeparator(id, 0);
    StripIsFree(id);
    if at.Some? {
      assert id == id[..at.value] + (SEPARATOR + id[at.value + |SEPARATOR|..]);
    }
    if SeparatorFree(name) && id == name {
      NothingToStrip(id);
    }
    forall rest | SeparatorFree(name) && id == name + ("#specr-vanish-t" + rest) ensures StripVanishNamespace(id) == name {
      StripMinted(name, rest);
    }
  }

  lemma NothingToStrip(id: string)
    requires SeparatorFree(id)
    ensures StripVanishNamespace(id) == id
  {
  }

  // ---------------------------------------------------------------- the style table

  datatype CharacterStyle = CharacterStyle(id: string, name: string, vanish: bool)

  /** One hidden style per id, under the name the source document gave it. */
  function VanishCharacterStyleOptions(ids: seq<string>): (styles: seq<CharacterStyle>)
    ensures |styles| == |ids|
  {
    seq(|ids|, k requires 0 <= k < |ids| => CharacterStyle(ids[k], StripVanishNamespace(ids[k]), true))
  }

  predicate Hides(styles: seq<CharacterStyle>, id: string) {
    exists k :: 0 <= k < |styles| && styles[k].id == id && styles[k].vanish
  }
}
