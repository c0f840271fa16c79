/** Which ids a tree hides and which it refers to, read off all its nodes and the nodes of their blobs. */
module VanishRefs {
  import opened Text
  import opened SpecTree
  import opened Sorting
  import opened VanishStyles
  import opened VanishNamespace
  import opened VanishTrees

  /** All nodes among these and below, in document order. */
  function AllNodes(nodes: seq<Node>): seq<Node> {
    if nodes == [] then [] else [nodes[0]] + AllNodes(nodes[0].children) + AllNodes(nodes[1..])
  }

  /** An object that lists the id as hidden. */
  predicate ListsHidden(node: Node, id: string) {
    && node.kind == Object && node.meta.object_.Some? && node.meta.object_.value.vanishCharStyleIds.Some?
    && id in node.meta.object_.value.vanishCharStyleIds.value
  }

  /** The nodes of a blob in document order, but those below a `w:rStyle` or a node without name. */
  function Parts(blob: Blob): seq<Blob>
    decreases blob, 0
  {
    [blob] + if blob.Element? && blob.tag != "" && blob.tag != "w:rStyle" then AllParts(blob.children) else []
  }

  function AllParts(blobs: seq<Blob>): seq<Blob>
    decreases blobs, 1
  {
    if blobs == [] then [] else Parts(blobs[0]) + AllParts(blobs[1..])
  }

  /** What a `w:rStyle` names, if anything. */
  function Named(blob: Blob): seq<string> {
    if blob.Untagged? || blob.tag != "w:rStyle" || blob.attrs.None? || "@_w:val" !in blob.attrs.value then []
    else
      var name := match blob.attrs.value["@_w:val"] case Str(s) => s case Num(digits) => digits;
      if name == "" then [] else [name]
  }

  function AllNamed(blobs: seq<Blob>): seq<string> {
    if blobs == [] then [] else Named(blobs[0]) + AllNamed(blobs[1..])
  }

  /** The parts of the blobs of all objects, in document order. */
  function BlobsOf(nodes: seq<Node>): seq<Blob> {
    if nodes == [] then []
    else (if nodes[0].meta.object_.Some? then nodes[0].meta.object_.value.blob else []) + BlobsOf(nodes[1..])
  }

  lemma {:induction false} AllNodesConcat(a: seq<Node>, b: seq<Node>)
    ensures BlobsOf(a + b) == BlobsOf(a) + BlobsOf(b)
  {
    if a == [] {
      assert a + b == b;
    } else {
      assert (a + b)[1..] == a[1..] + b;
      AllNodesConcat(a[1..], b);
    }
  }

  lemma {:induction false} NamedConcat(a: seq<Blob>, b: seq<Blob>)
    ensures AllNamed(a + b) == AllNamed(a) + AllNamed(b)
  {
    if a == [] {
      assert a + b == b;
    } else {
      assert (a + b)[1..] == a[1..] + b;
      NamedConcat(a[1..], b);
    }
  }

  lemma {:induction false} PartsConcat(a: seq<Blob>, b: seq<Blob>)
    ensures AllParts(a + b) == AllParts(a) + AllParts(b)
  {
    if a == [] {
      assert a + b == b;
    } else {
      assert (a + b)[1..] == a[1..] + b;
      PartsConcat(a[1..], b);
    }
  }

  /** A tree hides exactly the ids that some object in it lists. */
  lemma {:induction false} HiddenListed(nodes: seq<Node>, id: string)
    ensures id in VanishIds(nodes) <==> exists n :: n in AllNodes(nodes) && ListsHidden(n, id)
  {
    if nodes != [] {
      HiddenListed(nodes[0].children, id);
      HiddenListed(nodes[1..], id);
      assert id in OwnVanishIds(nodes[0]) <==> ListsHidden(nodes[0], id);
      hide ListsHidden, OwnVanishIds;
      assert nodes[0] in AllNodes(nodes);
    }
  }

  lemma {:induction false} BlobRefsNamed(blob: Blob)
    ensures BlobRefs(blob) == AllNamed(Parts(blob))
    decreases blob, 0
  {
    var below := if blob.Element? && blob.tag != "" && blob.tag != "w:rStyle" then AllParts(blob.children) else [];
    NamedConcat([blob], below);
    assert [blob][1..] == [] && AllNamed([blob]) == Named(blob) + AllNamed([]);
    if blob.Element? && blob.tag != "" && blob.tag != "w:rStyle" {
      BlobsRefsNamed(blob.children);
    }
  }

  lemma {:induction false} BlobsRefsNamed(blobs: seq<Blob>)
    ensures BlobsRefs(blobs) == AllNamed(AllParts(blobs))
    decreases blobs, 1
  {
    if blobs != [] {
      BlobRefsNamed(blobs[0]);
      BlobsRefsNamed(blobs[1..]);
      NamedConcat(Parts(blobs[0]), AllParts(blobs[1..]));
    }
  }

  /** The references of a tree, in document order, are the names of the `w:rStyle` nodes of its objects. */
  lemma {:induction false} RefsNamed(nodes: seq<Node>)
    ensures NodesRefs(nodes) == AllNamed(AllParts(BlobsOf(AllNodes(nodes))))
    decreases nodes
  {
    if nodes != [] {
      var own := if nodes[0].meta.object_.Some? then nodes[0].meta.object_.value.blob else [];
      var below, rest := AllNodes(nodes[0].children), AllNodes(nodes[1..]);
      RefsNamed(nodes[0].children);
      RefsNamed(nodes[1..]);
      BlobsRefsNamed(own);
      hide BlobsRefs, Named;
      assert [nodes[0]][1..] == [] && BlobsOf([nodes[0]]) == own + BlobsOf([]);
      AllNodesConcat([nodes[0]], below);
      AllNodesConcat([nodes[0]] + below, rest);
      PartsConcat(own, BlobsOf(below));
      PartsConcat(own + BlobsOf(below), BlobsOf(rest));
      NamedConcat(AllParts(own), AllParts(BlobsOf(below)));
      NamedConcat(AllParts(own) + AllParts(BlobsOf(below)), AllParts(BlobsOf(rest)));
    }
  }
}
