/**
 The walks of src/generator/object-vanish-namespace.ts with their loops, growing sets and
 `changed` flags. `changed` stands for "a new object": a result that is not changed is its input,
 which the source then returns by reference.
 */
module VanishWalks {
  import opened Text
  import opened SpecTree
  import opened Sorting
  import opened VanishStyles
  import opened VanishNamespace
  import opened VanishTrees

  // ---------------------------------------------------------------- collecting

  lemma ElementsConcat(a: seq<string>, b: seq<string>)
    ensures Elements(a + b) == Elements(a) + Elements(b)
  {
  }

  method CollectBlobRStyleIds(blob: Blob, acc: ReservedIds)
    modifies acc
    ensures acc.ids == old(acc.ids) + Elements(BlobRefs(blob))
    decreases blob, 0
  {
    if blob.Untagged? || blob.tag == "" {
      return;
    }
    if blob.tag == RSTYLE {
      var key := StyleKey(blob.attrs);
      if key != "" {
        acc.ids := acc.ids + {key};
      }
      return;
    }
    if blob.Element? {
      CollectBlobsRStyleIds(blob.children, acc);
    }
  }

  method CollectBlobsRStyleIds(blobs: seq<Blob>, acc: ReservedIds)
    modifies acc
    ensures acc.ids == old(acc.ids) + Elements(BlobsRefs(blobs))
    decreases blobs, 1
  {
    assert blobs[0..] == blobs;
    for i := 0 to |blobs|
      invariant acc.ids + Elements(BlobsRefs(blobs[i..])) == old(acc.ids) + Elements(BlobsRefs(blobs))
    {
      assert blobs[i..][1..] == blobs[i + 1..];
      ElementsConcat(BlobRefs(blobs[i]), BlobsRefs(blobs[i + 1..]));
      CollectBlobRStyleIds(blobs[i], acc);
    }
  }

  method CollectNodeStyleIds(nodes: seq<Node>, acc: ReservedIds)
    modifies acc
    ensures acc.ids == old(acc.ids) + StyleIds(nodes)
    decreases nodes
  {
    assert nodes[0..] == nodes;
    for i := 0 to |nodes|
      invariant acc.ids + StyleIds(nodes[i..]) == old(acc.ids) + StyleIds(nodes)
    {
      assert nodes[i..][1..] == nodes[i + 1..];
      var object_ := nodes[i].meta.object_;
      if object_.Some? {
        acc.ids := acc.ids + Elements(object_.value.vanishCharStyleIds.GetOr([]));
        CollectBlobsRStyleIds(object_.value.blob, acc);
      }
      CollectNodeStyleIds(nodes[i].children, acc);
    }
  }

  method CollectRemainingStyleIds(trees: seq<Tree>, collate: Collation) returns (remaining: ReservedIds)
    ensures fresh(remaining) && remaining.ids == Remaining(trees)
  {
    hide StyleIds, VanishIds, OwnIds;
    remaining := new ReservedIds({});
    assert trees[0..] == trees;
    for i := 0 to |trees|
      invariant remaining.ids + Remaining(trees[i..]) == Remaining(trees)
    {
      assert trees[i..][1..] == trees[i + 1..];
      var renamedAway := CollectVanishCharacterStyleIds([trees[i]], collate);
      OwnIdsElements(trees[i], collate);
      var treeIds := new ReservedIds({});
      CollectNodeStyleIds(trees[i].parts, treeIds);
      assert renamedAway == OwnIds(trees[i], collate) by {
        OwnIdsSorted(trees[i], collate);
      }
      assert Elements(renamedAway) == VanishIds(trees[i].parts);
      remaining.ids := remaining.ids + (treeIds.ids - Elements(renamedAway));
    }
  }

  lemma OwnIdsSorted(tree: Tree, collate: Collation)
    ensures OwnIds(tree, collate) == Sort(collate, CollectTrees([tree], []))
  {
  }

  // ---------------------------------------------------------------- rewriting

  predicate Touches(ids: set<string>, renames: Renames) {
    ids * renames.Keys != {}
  }

  method RewriteRStyleIds(blob: Blob, renames: Renames) returns (r: Blob, changed: bool)
    ensures r == RenamedBlob(blob, renames) && (!changed ==> r == blob)
    ensures changed <==> Touches(Elements(BlobRefs(blob)), renames)
    decreases blob, 0
  {
    if blob.Untagged? || blob.tag == "" {
      return blob, false;
    }
    if blob.tag == RSTYLE {
      if IsRenamed(blob.attrs, renames) {
        assert StyleKey(blob.attrs) in Elements(BlobRefs(blob)) * renames.Keys;
        return Element(blob.tag, [], RenamedAttrs(blob.attrs, renames)), true;
      }
      return blob, false;
    }
    if blob.Leaf? || blob.children == [] {
      return blob, false;
    }
    var children, childChanged := RewriteBlobRoots(blob.children, renames);
    if !childChanged {
      return blob, false;
    }
    return Element(blob.tag, children, blob.attrs), true;
  }

  method RewriteBlobRoots(blobs: seq<Blob>, renames: Renames) returns (r: seq<Blob>, changed: bool)
    ensures r == RenamedBlobs(blobs, renames) && (!changed ==> r == blobs)
    ensures changed <==> Touches(Elements(BlobsRefs(blobs)), renames)
    decreases blobs, 1
  {
    hide RenamedBlob, BlobRefs, RenamedBlobs, BlobsRefs, Touches;
    r, changed := [], false;
    assert blobs[0..] == blobs;
    for i := 0 to |blobs|
      invariant r + RenamedBlobs(blobs[i..], renames) == RenamedBlobs(blobs, renames)
      invariant !changed ==> r == blobs[..i]
      invariant Touches(Elements(BlobsRefs(blobs)), renames)
           <==> changed || Touches(Elements(BlobsRefs(blobs[i..])), renames)
    {
      BlobsFrom(blobs, i, renames);
      var root, rootChanged := RewriteRStyleIds(blobs[i], renames);
      r := r + [root];
      changed := changed || rootChanged;
    }
    BlobsFrom(blobs, |blobs|, renames);
  }

  lemma BlobsFrom(blobs: seq<Blob>, i: nat, renames: Renames)
    requires i <= |blobs|
    ensures i == |blobs| ==>
      RenamedBlobs(blobs[i..], renames) == [] && !Touches(Elements(BlobsRefs(blobs[i..])), renames) && blobs[..i] == blobs
    ensures i < |blobs| ==>
      && blobs[..i + 1] == blobs[..i] + [blobs[i]]
      && RenamedBlobs(blobs[i..], renames) == [RenamedBlob(blobs[i], renames)] + RenamedBlobs(blobs[i + 1..], renames)
      && (Touches(Elements(BlobsRefs(blobs[i..])), renames)
          <==> Touches(Elements(BlobRefs(blobs[i])), renames) || Touches(Elements(BlobsRefs(blobs[i + 1..])), renames))
  {
    hide RenamedBlob, BlobRefs, Touches;
    if i < |blobs| {
      assert blobs[i..][1..] == blobs[i + 1..];
      TouchesConcat(BlobRefs(blobs[i]), BlobsRefs(blobs[i + 1..]), renames);
    } else {
      TouchesNothing(renames);
    }
  }

  lemma TouchesNothing(renames: Renames)
    ensures !Touches({}, renames) && !Touches(Elements([]), renames)
  {
  }

  lemma TouchesConcat(a: seq<string>, b: seq<string>, renames: Renames)
    ensures Touches(Elements(a + b), renames) <==> Touches(Elements(a), renames) || Touches(Elements(b), renames)
  {
    ElementsConcat(a, b);
    assert (Elements(a) + Elements(b)) * renames.Keys == Elements(a) * renames.Keys + Elements(b) * renames.Keys;
  }

  method RenameIds(ids: seq<string>, renames: Renames) returns (r: seq<string>, changed: bool)
    ensures r == NewNames(ids, renames) && (!changed ==> r == ids)
    ensures changed <==> Touches(Elements(ids), renames)
  {
    r, changed := [], false;
    for i := 0 to |ids|
      invariant r == NewNames(ids[..i], renames) && (!changed ==> r == ids[..i])
      invariant changed <==> exists k :: 0 <= k < i && ids[k] in renames
    {
      assert ids[..i + 1] == ids[..i] + [ids[i]];
      r := r + [NewName(ids[i], renames)];
      changed := changed || ids[i] in renames;
    }
    assert ids[..|ids|] == ids;
    if changed {
      var k :| 0 <= k < |ids| && ids[k] in renames;
      assert ids[k] in Elements(ids) * renames.Keys;
    }
  }

  method RewriteObjectMeta(object_: ObjectMeta, renames: Renames) returns (r: ObjectMeta, changed: bool)
    ensures r == RenamedObject(object_, renames) && (!changed ==> r == object_)
    ensures changed <==>
              Touches(Elements(object_.vanishCharStyleIds.GetOr([])) + Elements(BlobsRefs(object_.blob)), renames)
  {
    hide RenamedBlobs, BlobsRefs;
    var blob, blobChanged := RewriteBlobRoots(object_.blob, renames);
    var ids, idsChanged := object_.vanishCharStyleIds, false;
    if ids.Some? {
      var names, namesChanged := RenameIds(ids.value, renames);
      ids, idsChanged := Some(names), namesChanged;
    }
    ghost var own := object_.vanishCharStyleIds.GetOr([]);
    TouchesConcat(own, BlobsRefs(object_.blob), renames);
    ElementsConcat(own, BlobsRefs(object_.blob));
    assert object_.vanishCharStyleIds.None? ==> own == [];
    if !blobChanged && !idsChanged {
      return object_, false;
    }
    return object_.(blob := blob, vanishCharStyleIds := ids), true;
  }

  method RewriteNode(node: Node, renames: Renames) returns (r: Node, changed: bool)
    ensures r == RenamedNode(node, renames) && (!changed ==> r == node)
    ensures changed <==> Touches(ObjectIds(node) + StyleIds(node.children), renames)
    decreases node, 0
  {
    var children, childrenChanged := RewriteNodes(node.children, renames);
    var object_, objectChanged := node.meta.object_, false;
    if object_.Some? {
      var renamed, renamedChanged := RewriteObjectMeta(object_.value, renames);
      object_, objectChanged := Some(renamed), renamedChanged;
    }
    TouchesUnion(ObjectIds(node), StyleIds(node.children), renames);
    if !childrenChanged && !objectChanged {
      return node, false;
    }
    return node.(children := children, meta := node.meta.(object_ := object_)), true;
  }

  method RewriteNodes(nodes: seq<Node>, renames: Renames) returns (r: seq<Node>, changed: bool)
    ensures r == RenamedNodes(nodes, renames) && (!changed ==> r == nodes)
    ensures changed <==> Touches(StyleIds(nodes), renames)
    decreases nodes, 1
  {
    hide RenamedNode, ObjectIds, RenamedNodes, StyleIds, Touches;
    r, changed := [], false;
    assert nodes[0..] == nodes;
    for i := 0 to |nodes|
      invariant r + RenamedNodes(nodes[i..], renames) == RenamedNodes(nodes, renames)
      invariant !changed ==> r == nodes[..i]
      invariant Touches(StyleIds(nodes), renames) <==> changed || Touches(StyleIds(nodes[i..]), renames)
    {
      NodesFrom(nodes, i, renames);
      var node, nodeChanged := RewriteNode(nodes[i], renames);
      r := r + [node];
      changed := changed || nodeChanged;
    }
    NodesFrom(nodes, |nodes|, renames);
  }

  lemma NodesFrom(nodes: seq<Node>, i: nat, renames: Renames)
    requires i <= |nodes|
    ensures i == |nodes| ==>
      RenamedNodes(nodes[i..], renames) == [] && !Touches(StyleIds(nodes[i..]), renames) && nodes[..i] == nodes
    ensures i < |nodes| ==>
      && nodes[..i + 1] == nodes[..i] + [nodes[i]]
      && RenamedNodes(nodes[i..], renames) == [RenamedNode(nodes[i], renames)] + RenamedNodes(nodes[i + 1..], renames)
      && (Touches(StyleIds(nodes[i..]), renames)
          <==> Touches(ObjectIds(nodes[i]) + StyleIds(nodes[i].children), renames) || Touches(StyleIds(nodes[i + 1..]), renames))
  {
    hide RenamedNode, ObjectIds, Touches;
    if i < |nodes| {
      assert nodes[i..][1..] == nodes[i + 1..];
      TouchesUnion(ObjectIds(nodes[i]) + StyleIds(nodes[i].children), StyleIds(nodes[i + 1..]), renames);
    } else {
      TouchesNothing(renames);
    }
  }

  lemma TouchesUnion(a: set<string>, b: set<string>, renames: Renames)
    ensures Touches(a + b, renames) <==> Touches(a, renames) || Touches(b, renames)
  {
    assert (a + b) * renames.Keys == a * renames.Keys + b * renames.Keys;
  }

  // ---------------------------------------------------------------- all trees

  /** Some of the first `n` trees lists an id as hidden. */
  ghost predicate SomeHides(trees: seq<Tree>, n: nat)
    requires n <= |trees|
  {
    exists t :: 0 <= t < n && VanishIds(trees[t].parts) != {}
  }

  lemma SomeHidesNone(trees: seq<Tree>)
    ensures !SomeHides(trees, 0)
  {
  }

  lemma SomeHidesMore(trees: seq<Tree>, n: nat)
    requires n < |trees|
    ensures SomeHides(trees, n + 1) <==> SomeHides(trees, n) || VanishIds(trees[n].parts) != {}
  {
    hide VanishIds;
  }

  /** Nothing is renamed, and the list itself comes back, unless some tree hides something. */
  method NamespaceVanishTrees(trees: seq<Tree>, collate: Collation) returns (result: seq<Tree>, changed: bool)
    ensures result == Namespaced(trees, collate) && (!changed ==> result == trees)
    ensures changed <==> SomeHides(trees, |trees|)
  {
    hide Remaining, OwnIds, VanishIds, StyleIds, Minted, Zip, RenamedNodes, Touches, Sort, CollectTrees, SomeHides;
    SomeHidesNone(trees);
    var reserved := CollectRemainingStyleIds(trees, collate);
    ghost var maps := Maps(trees, collate);
    result, changed := [], false;
    assert trees[0..] == trees;
    for i := 0 to |trees|
      invariant fresh(reserved)
      invariant RenameMaps(trees[i..], i, reserved.ids, collate) == maps[i..]
      invariant |result| == i && forall t :: 0 <= t < i ==> result[t] == RenamedTree(trees[t], maps[t])
      invariant changed <==> SomeHides(trees, i)
      invariant !changed ==> result == trees[..i]
    {
      var tree := trees[i];
      assert trees[i..][1..] == trees[i + 1..] && trees[i..][0] == tree;
      assert maps[i..][1..] == maps[i + 1..] && maps[i..][0] == maps[i];
      var ownIds := CollectVanishCharacterStyleIds([tree], collate);
      OwnIdsSorted(tree, collate);
      OwnIdsEmpty(tree, collate);
      var renames := AllocateFor(ownIds, i, reserved);
      assert renames == maps[i];
      var parts, treeChanged := RewriteNodes(tree.parts, renames);
      VanishTouch(tree, renames);
      SomeHidesMore(trees, i);
      if ownIds == [] || !treeChanged {
        result := result + [tree];
      } else {
        changed := true;
        result := result + [tree.(parts := parts)];
      }
    }
    assert trees[..|trees|] == trees;
  }

  lemma OwnIdsEmpty(tree: Tree, collate: Collation)
    ensures Elements(OwnIds(tree, collate)) == VanishIds(tree.parts)
    ensures OwnIds(tree, collate) == [] <==> VanishIds(tree.parts) == {}
  {
    hide OwnIds, VanishIds;
    var own := OwnIds(tree, collate);
    OwnIdsElements(tree, collate);
    assert own != [] ==> own[0] in VanishIds(tree.parts);
  }

  /** Renaming a tree's vanish ids changes it, if there are any. */
  lemma VanishTouch(tree: Tree, renames: Renames)
    requires renames.Keys == VanishIds(tree.parts)
    ensures Touches(StyleIds(tree.parts), renames) <==> VanishIds(tree.parts) != {}
  {
    VanishAreStyleIds(tree.parts);
    assert StyleIds(tree.parts) * renames.Keys == VanishIds(tree.parts);
  }
}
