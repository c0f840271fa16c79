/**
 `namespaceVanishTrees` of src/generator/object-vanish-namespace.ts over a list of trees: what it
 computes, which names it mints and what it keeps. Its walks and loops are in module VanishWalks.
 */
module VanishTrees {
  import opened Text
  import opened SpecTree
  import opened Sorting
  import opened Counting
  import opened VanishStyles
  import opened VanishNamespace

  // ---------------------------------------------------------------- specification

  /** Every style id an object among `nodes` or below lists as hidden or refers to. */
  function StyleIds(nodes: seq<Node>): set<string> {
    if nodes == [] then {}
    else ObjectIds(nodes[0]) + StyleIds(nodes[0].children) + StyleIds(nodes[1..])
  }

  function ObjectIds(node: Node): set<string> {
    if node.meta.object_.None? then {}
    else
      var object_ := node.meta.object_.value;
      Elements(object_.vanishCharStyleIds.GetOr([])) + Elements(BlobsRefs(object_.blob))
  }

  /** The ids still in use after the renaming: each tree's, without those it renames away. */
  function Remaining(trees: seq<Tree>): set<string> {
    if trees == [] then {}
    else (StyleIds(trees[0].parts) - VanishIds(trees[0].parts)) + Remaining(trees[1..])
  }

  /** One rename map per tree; a name minted for one tree is reserved for the next. */
  function RenameMaps(trees: seq<Tree>, index: nat, reserved: set<string>, collate: Collation): (maps: seq<Renames>)
    ensures |maps| == |trees|
    decreases trees
  {
    if trees == [] then []
    else
      var own := OwnIds(trees[0], collate);
      var names := Minted(own, index, reserved);
      [Zip(own, names)] + RenameMaps(trees[1..], index + 1, reserved + Elements(names), collate)
  }

  function Maps(trees: seq<Tree>, collate: Collation): (maps: seq<Renames>)
    ensures |maps| == |trees|
  {
    RenameMaps(trees, 0, Remaining(trees), collate)
  }

  function RenamedTree(tree: Tree, renames: Renames): Tree {
    tree.(parts := RenamedNodes(tree.parts, renames))
  }

  function RenamedTrees(trees: seq<Tree>, maps: seq<Renames>): (r: seq<Tree>)
    requires |maps| == |trees|
    ensures |r| == |trees| && forall t :: 0 <= t < |trees| ==> r[t] == RenamedTree(trees[t], maps[t])
  {
    seq(|trees|, t requires 0 <= t < |trees| => RenamedTree(trees[t], maps[t]))
  }

  function Namespaced(trees: seq<Tree>, collate: Collation): (r: seq<Tree>)
    ensures |r| == |trees|
  {
    RenamedTrees(trees, Maps(trees, collate))
  }

  // ---------------------------------------------------------------- minted names

  predicate NewTo(names: seq<string>, reserved: set<string>) {
    forall k :: 0 <= k < |names| ==> names[k] !in reserved
  }

  ghost predicate MintedFrom(name: string, id: string, treeIndex: nat) {
    exists suffix: nat :: name == Candidate(BaseName(id, treeIndex), suffix)
  }

  lemma {:induction false} MintedFacts(ids: seq<string>, treeIndex: nat, reserved: set<string>)
    ensures var names := Minted(ids, treeIndex, reserved);
            && NewTo(names, reserved) && Distinct(names)
            && forall k :: 0 <= k < |names| ==> MintedFrom(names[k], ids[k], treeIndex)
    decreases ids
  {
    hide BaseName, Candidate, FreeFrom;
    if ids != [] {
      var first := Allocated(ids[0], treeIndex, reserved);
      var rest := Minted(ids[1..], treeIndex, reserved + {first});
      MintedFacts(ids[1..], treeIndex, reserved + {first});
      assert MintedFrom(first, ids[0], treeIndex);
      forall k | 0 < k <= |rest| ensures MintedFrom(([first] + rest)[k], ids[k], treeIndex) && ([first] + rest)[k] == rest[k - 1] {
        assert ids[1..][k - 1] == ids[k];
      }
    }
  }

  /** A rename map: the vanish ids of its tree, to names minted from them and not reserved. */
  ghost predicate GoodMap(m: Renames, tree: Tree, index: nat, reserved: set<string>) {
    && m.Keys == VanishIds(tree.parts)
    && forall x :: x in m ==> m[x] !in reserved && MintedFrom(m[x], x, index)
  }

  /** No name is minted twice, neither within a map nor across maps. */
  ghost predicate Apart(maps: seq<Renames>) {
    forall t, x, u, y | 0 <= t < |maps| && x in maps[t] && 0 <= u < |maps| && y in maps[u] ::
      maps[t][x] == maps[u][y] ==> t == u && x == y
  }

  ghost predicate GoodMaps(maps: seq<Renames>, trees: seq<Tree>, index: nat, reserved: set<string>) {
    |maps| == |trees| && forall t :: 0 <= t < |maps| ==> GoodMap(maps[t], trees[t], index + t, reserved)
  }

  lemma FirstMap(tree: Tree, index: nat, reserved: set<string>, collate: Collation)
    ensures var names := Minted(OwnIds(tree, collate), index, reserved);
            var m := Zip(OwnIds(tree, collate), names);
            && GoodMap(m, tree, index, reserved)
            && (forall x :: x in m ==> m[x] in names)
            && (forall x, y :: x in m && y in m && m[x] == m[y] ==> x == y)
  {
    hide Minted, Zip, OwnIds, VanishIds, MintedFrom;
    var own := OwnIds(tree, collate);
    var names := Minted(own, index, reserved);
    var m := Zip(own, names);
    OwnIdsElements(tree, collate);
    MintedFacts(own, index, reserved);
    forall x | x in m ensures exists k :: 0 <= k < |own| && own[k] == x && m[x] == names[k] {
      assert x in own;
      var k :| 0 <= k < |own| && own[k] == x;
      ZipAt(own, names, k);
    }
    forall x, y | x in m && y in m && m[x] == m[y] ensures x == y {
      var j :| 0 <= j < |own| && own[j] == x && m[x] == names[j];
      var k :| 0 <= k < |own| && own[k] == y && m[y] == names[k];
    }
  }

  lemma {:induction false} MapsGood(trees: seq<Tree>, index: nat, reserved: set<string>, collate: Collation)
    ensures var maps := RenameMaps(trees, index, reserved, collate);
            GoodMaps(maps, trees, index, reserved) && Apart(maps)
    decreases trees
  {
    hide Minted, Zip, OwnIds, GoodMap, Apart, GoodMaps;
    if trees == [] {
      NoMaps(index, reserved);
    } else {
      var names := Minted(OwnIds(trees[0], collate), index, reserved);
      var first := Zip(OwnIds(trees[0], collate), names);
      var rest := RenameMaps(trees[1..], index + 1, reserved + Elements(names), collate);
      FirstMap(trees[0], index, reserved, collate);
      MapsGood(trees[1..], index + 1, reserved + Elements(names), collate);
      ConsGood(first, rest, trees, index, reserved, reserved + Elements(names));
      ConsApart(first, rest, trees[1..], index + 1, reserved, names);
    }
  }

  lemma NoMaps(index: nat, reserved: set<string>)
    ensures GoodMaps([], [], index, reserved) && Apart([])
  {
  }

  lemma ConsGood(first: Renames, rest: seq<Renames>, trees: seq<Tree>, index: nat, reserved: set<string>,
                 more: set<string>)
    requires trees != [] && reserved <= more
    requires GoodMap(first, trees[0], index, reserved)
    requires GoodMaps(rest, trees[1..], index + 1, more)
    ensures GoodMaps([first] + rest, trees, index, reserved)
  {
    hide GoodMap;
    forall t | 0 <= t < |trees| ensures GoodMap(([first] + rest)[t], trees[t], index + t, reserved) {
      if t > 0 {
        assert GoodMap(rest[t - 1], trees[1..][t - 1], index + 1 + (t - 1), more);
        FewerReserved(rest[t - 1], trees[t], index + t, reserved, more);
      }
    }
  }

  lemma FewerReserved(m: Renames, tree: Tree, index: nat, reserved: set<string>, more: set<string>)
    requires GoodMap(m, tree, index, more) && reserved <= more
    ensures GoodMap(m, tree, index, reserved)
  {
  }

  lemma ConsApart(first: Renames, rest: seq<Renames>, trees: seq<Tree>, index: nat, reserved: set<string>,
                  names: seq<string>)
    requires forall x :: x in first ==> first[x] in names
    requires forall x, y :: x in first && y in first && first[x] == first[y] ==> x == y
    requires GoodMaps(rest, trees, index, reserved + Elements(names)) && Apart(rest)
    ensures Apart([first] + rest)
  {
    hide VanishIds, MintedFrom;
    var maps := [first] + rest;
    forall t, x | 0 < t < |maps| && x in maps[t] ensures maps[t][x] !in names {
      assert GoodMap(rest[t - 1], trees[t - 1], index + (t - 1), reserved + Elements(names));
    }
    forall t, x, u, y | 0 <= t < |maps| && x in maps[t] && 0 <= u < |maps| && y in maps[u] && maps[t][x] == maps[u][y]
      ensures t == u && x == y
    {
      if t > 0 && u > 0 {
        assert maps[t] == rest[t - 1] && maps[u] == rest[u - 1];
      }
    }
  }

  /** A minted name is as its id under the original name, and can be no name without separator. */
  lemma MintedName(name: string, id: string, treeIndex: nat)
    requires MintedFrom(name, id, treeIndex)
    ensures StripVanishNamespace(name) == StripVanishNamespace(id)
    ensures !SeparatorFree(name) && name != ""
  {
    var x := StripVanishNamespace(id);
    var suffix: nat :| name == Candidate(BaseName(id, treeIndex), suffix);
    var tail := Decimal(treeIndex) + if suffix == 0 then "" else "-" + Decimal(suffix);
    assert name == x + (SEPARATOR + tail);
    StripIsFree(id);
    StripMinted(x, tail);
    assert name[|x|..|x| + |SEPARATOR|] == SEPARATOR;
    assert OccursAt(name, |x|);
  }

  lemma MapFacts(m: Renames, tree: Tree, index: nat, reserved: set<string>)
    requires GoodMap(m, tree, index, reserved)
    ensures m.Keys == VanishIds(tree.parts)
    ensures forall x :: x in m ==>
              m[x] !in reserved && !SeparatorFree(m[x]) && StripVanishNamespace(m[x]) == StripVanishNamespace(x)
  {
    hide MintedFrom, VanishIds, SeparatorFree, StripVanishNamespace;
    forall x | x in m
      ensures !SeparatorFree(m[x]) && StripVanishNamespace(m[x]) == StripVanishNamespace(x)
    {
      MintedName(m[x], x, index);
    }
  }

  /**
   All names minted over all trees are pairwise different, avoid every id left in the output,
   hold the separator and strip to what their ids strip to.
   */
  lemma MintedNames(trees: seq<Tree>, collate: Collation)
    ensures var maps := Maps(trees, collate);
            && Apart(maps)
            && (forall t :: 0 <= t < |trees| ==> maps[t].Keys == VanishIds(trees[t].parts))
            && (forall t, x :: 0 <= t < |trees| && x in maps[t] ==>
                 && maps[t][x] !in Remaining(trees)
                 && !SeparatorFree(maps[t][x])
                 && StripVanishNamespace(maps[t][x]) == StripVanishNamespace(x))
  {
    hide GoodMap, RenameMaps, VanishIds, Remaining, Apart, SeparatorFree, StripVanishNamespace;
    var maps := Maps(trees, collate);
    MapsGood(trees, 0, Remaining(trees), collate);
    forall t | 0 <= t < |trees|
      ensures maps[t].Keys == VanishIds(trees[t].parts)
      ensures forall x :: x in maps[t] ==>
                && maps[t][x] !in Remaining(trees) && !SeparatorFree(maps[t][x])
                && StripVanishNamespace(maps[t][x]) == StripVanishNamespace(x)
    {
      assert GoodMap(maps[t], trees[t], 0 + t, Remaining(trees));
      MapFacts(maps[t], trees[t], 0 + t, Remaining(trees));
    }
  }

  // ---------------------------------------------------------------- hiding

  lemma {:induction false} RefsAreStyleIds(nodes: seq<Node>)
    ensures forall id :: id in NodesRefs(nodes) ==> id in StyleIds(nodes)
    decreases nodes
  {
    if nodes != [] {
      RefsAreStyleIds(nodes[0].children);
      RefsAreStyleIds(nodes[1..]);
    }
  }

  lemma {:induction false} VanishAreStyleIds(nodes: seq<Node>)
    ensures VanishIds(nodes) <= StyleIds(nodes)
    decreases nodes
  {
    if nodes != [] {
      VanishAreStyleIds(nodes[0].children);
      VanishAreStyleIds(nodes[1..]);
    }
  }

  lemma {:induction false} RemainingHas(trees: seq<Tree>, t: nat, id: string)
    requires t < |trees| && id in StyleIds(trees[t].parts) && id !in VanishIds(trees[t].parts)
    ensures id in Remaining(trees)
  {
    hide StyleIds, VanishIds;
    if t > 0 {
      RemainingHas(trees[1..], t - 1, id);
    }
  }

  /** The ids hidden in the output: the minted ones. */
  lemma HiddenIds(trees: seq<Tree>, collate: Collation, u: nat, id: string)
    requires u < |trees|
    ensures var m := Maps(trees, collate)[u];
            id in VanishIds(Namespaced(trees, collate)[u].parts) <==> exists y :: y in m && m[y] == id
  {
    hide VanishIds, Apart, SeparatorFree;
    var m := Maps(trees, collate)[u];
    MintedNames(trees, collate);
    VanishIdsRenamed(trees[u].parts, m);
    assert Image(m.Keys, m) == set y | y in m.Keys :: m[y];
  }

  ghost predicate HiddenIn(trees: seq<Tree>, id: string) {
    exists u :: 0 <= u < |trees| && id in VanishIds(trees[u].parts)
  }

  /**
   Namespacing preserves hiding: in the output, whose trees share one style table, a reference
   is hidden if and only if it was hidden in its own tree.
   */
  lemma HidingPreserved(trees: seq<Tree>, collate: Collation, t: nat, k: nat)
    requires t < |trees| && k < |NodesRefs(trees[t].parts)|
    ensures var out := Namespaced(trees, collate);
            var before, after := NodesRefs(trees[t].parts), NodesRefs(out[t].parts);
            && |after| == |before|
            && (HiddenIn(out, after[k]) <==> before[k] in VanishIds(trees[t].parts))
  {
    hide VanishIds, NodesRefs, StyleIds, Remaining;
    var maps, out := Maps(trees, collate), Namespaced(trees, collate);
    var before, after := NodesRefs(trees[t].parts), NodesRefs(out[t].parts);
    MintedNames(trees, collate);
    assert SeparatorFree("");
    assert "" !in maps[t].Values;
    NodesRefsRenamed(trees[t].parts, maps[t]);
    forall u | 0 <= u < |trees|
      ensures after[k] in VanishIds(out[u].parts) <==> exists y :: y in maps[u] && maps[u][y] == after[k]
    {
      HiddenIds(trees, collate, u, after[k]);
    }
    if before[k] !in VanishIds(trees[t].parts) {
      RefsAreStyleIds(trees[t].parts);
      RemainingHas(trees, t, before[k]);
    } else {
      assert before[k] in maps[t] && maps[t][before[k]] == after[k];
    }
  }
}
