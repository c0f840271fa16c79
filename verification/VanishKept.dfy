/**
 Namespacing touches hidden ids and the references to them, and nothing else: a tree and its output
 are the same once both have their hidden ids erased.
 */
module VanishKept {
  import opened Text
  import opened SpecTree
  import opened VanishStyles
  import opened VanishNamespace
  import opened VanishTrees

  /** Stands for every hidden id. */
  const ERASED := ""

  // ---------------------------------------------------------------- erasure

  /** Whether a `w:rStyle` with these attributes names a hidden id, as text or as a number. */
  predicate NamesHidden(attrs: Option<map<string, AttrValue>>, hidden: set<string>) {
    && attrs.Some? && "@_w:val" in attrs.value
    && match attrs.value["@_w:val"]
       case Str(s) => s != "" && s in hidden
       case Num(digits) => digits != "" && digits in hidden
  }

  function ErasedReference(attrs: Option<map<string, AttrValue>>): Blob
    requires attrs.Some?
  {
    Element("w:rStyle", [], Some(attrs.value["@_w:val" := Str(ERASED)]))
  }

  /** References to hidden ids erased, with what they contain; all else as it is. */
  function ErasedBlob(blob: Blob, hidden: set<string>): Blob
    decreases blob, 0
  {
    match blob
    case Untagged(_) => blob
    case Leaf(tag, _, attrs) => if tag == "w:rStyle" && NamesHidden(attrs, hidden) then ErasedReference(attrs) else blob
    case Element(tag, children, attrs) =>
      if tag == "" then blob
      else if tag == "w:rStyle" then if NamesHidden(attrs, hidden) then ErasedReference(attrs) else blob
      else Element(tag, ErasedBlobs(children, hidden), attrs)
  }

  function ErasedBlobs(blobs: seq<Blob>, hidden: set<string>): (r: seq<Blob>)
    ensures |r| == |blobs|
    decreases blobs, 1
  {
    if blobs == [] then [] else [ErasedBlob(blobs[0], hidden)] + ErasedBlobs(blobs[1..], hidden)
  }

  function ErasedIds(ids: seq<string>, hidden: set<string>): (r: seq<string>)
    ensures |r| == |ids|
  {
    seq(|ids|, k requires 0 <= k < |ids| => if ids[k] in hidden then ERASED else ids[k])
  }

  function ErasedObject(object_: ObjectMeta, hidden: set<string>): ObjectMeta {
    var ids := object_.vanishCharStyleIds;
    object_.(blob := ErasedBlobs(object_.blob, hidden),
             vanishCharStyleIds := if ids.Some? then Some(ErasedIds(ids.value, hidden)) else None)
  }

  function ErasedNode(node: Node, hidden: set<string>): Node
    decreases node, 0
  {
    var object_ := node.meta.object_;
    var erased := if object_.Some? then Some(ErasedObject(object_.value, hidden)) else None;
    node.(children := ErasedNodes(node.children, hidden), meta := node.meta.(object_ := erased))
  }

  function ErasedNodes(nodes: seq<Node>, hidden: set<string>): (r: seq<Node>)
    ensures |r| == |nodes|
    decreases nodes, 1
  {
    if nodes == [] then [] else [ErasedNode(nodes[0], hidden)] + ErasedNodes(nodes[1..], hidden)
  }

  /** The tree without the names of its hidden ids. */
  function Erased(tree: Tree): Tree {
    tree.(parts := ErasedNodes(tree.parts, VanishIds(tree.parts)))
  }

  // ---------------------------------------------------------------- nothing else changes

  /** `m` renames the hidden ids to hidden ones, and no other id of `ids` becomes hidden. */
  ghost predicate Moves(m: Renames, ids: set<string>, hidden: set<string>) {
    && "" !in m.Values
    && (forall x :: x in m ==> m[x] in hidden)
    && (forall x :: x in ids && x !in m ==> x !in hidden)
  }

  lemma ReferenceKept(attrs: Option<map<string, AttrValue>>, m: Renames, hidden: set<string>)
    requires Moves(m, if StyleKey(attrs) != "" then {StyleKey(attrs)} else {}, hidden)
    ensures IsRenamed(attrs, m) == NamesHidden(attrs, m.Keys)
    ensures !IsRenamed(attrs, m) ==> !NamesHidden(attrs, hidden)
    ensures IsRenamed(attrs, m) ==>
              && NamesHidden(RenamedAttrs(attrs, m), hidden)
              && ErasedReference(RenamedAttrs(attrs, m)) == ErasedReference(attrs)
  {
    if IsRenamed(attrs, m) {
      var after := RenamedAttrs(attrs, m);
      assert m[StyleKey(attrs)] in m.Values;
      assert after.value[VAL := Str(ERASED)] == attrs.value[VAL := Str(ERASED)];
    }
  }

  lemma {:induction false} BlobKept(blob: Blob, m: Renames, hidden: set<string>)
    requires Moves(m, Elements(BlobRefs(blob)), hidden)
    ensures ErasedBlob(RenamedBlob(blob, m), hidden) == ErasedBlob(blob, m.Keys)
    decreases blob, 0
  {
    if blob.Element? && blob.tag != "" && blob.tag != RSTYLE {
      BlobsKept(blob.children, m, hidden);
    } else if (blob.Element? || blob.Leaf?) && blob.tag == RSTYLE {
      ReferenceKept(blob.attrs, m, hidden);
    }
  }

  lemma {:induction false} BlobsKept(blobs: seq<Blob>, m: Renames, hidden: set<string>)
    requires Moves(m, Elements(BlobsRefs(blobs)), hidden)
    ensures ErasedBlobs(RenamedBlobs(blobs, m), hidden) == ErasedBlobs(blobs, m.Keys)
    decreases blobs, 1
  {
    if blobs != [] {
      BlobKept(blobs[0], m, hidden);
      BlobsKept(blobs[1..], m, hidden);
      assert RenamedBlobs(blobs, m)[1..] == RenamedBlobs(blobs[1..], m);
    }
  }

  lemma IdsKept(ids: seq<string>, m: Renames, hidden: set<string>)
    requires Moves(m, Elements(ids), hidden)
    ensures ErasedIds(NewNames(ids, m), hidden) == ErasedIds(ids, m.Keys)
  {
    forall k | 0 <= k < |ids| ensures ErasedIds(NewNames(ids, m), hidden)[k] == ErasedIds(ids, m.Keys)[k] {
      assert ids[k] in Elements(ids);
    }
  }

  lemma ObjectKept(object_: ObjectMeta, m: Renames, hidden: set<string>)
    requires Moves(m, Elements(object_.vanishCharStyleIds.GetOr([])) + Elements(BlobsRefs(object_.blob)), hidden)
    ensures ErasedObject(RenamedObject(object_, m), hidden) == ErasedObject(object_, m.Keys)
  {
    BlobsKept(object_.blob, m, hidden);
    IdsKept(object_.vanishCharStyleIds.GetOr([]), m, hidden);
  }

  lemma {:induction false} NodesKept(nodes: seq<Node>, m: Renames, hidden: set<string>)
    requires Moves(m, StyleIds(nodes), hidden)
    ensures ErasedNodes(RenamedNodes(nodes, m), hidden) == ErasedNodes(nodes, m.Keys)
    decreases nodes
  {
    if nodes != [] {
      var node := nodes[0];
      NodesKept(node.children, m, hidden);
      NodesKept(nodes[1..], m, hidden);
      if node.meta.object_.Some? {
        ObjectKept(node.meta.object_.value, m, hidden);
      }
      hide RenamedObject, ErasedObject;
      assert ErasedNode(RenamedNode(node, m), hidden) == ErasedNode(node, m.Keys);
      assert RenamedNodes(nodes, m)[1..] == RenamedNodes(nodes[1..], m);
    }
  }

  /**
   Section, title, texts, metadata, tags, attributes and leaf texts are kept, and so are all style
   ids that are not hidden: erasing the hidden ids makes a tree and its output the same.
   */
  lemma OnlyHiddenIdsChange(trees: seq<Tree>, collate: Collation, t: nat)
    requires t < |trees|
    ensures Erased(Namespaced(trees, collate)[t]) == Erased(trees[t])
  {
    hide VanishIds, StyleIds, Remaining, Apart, SeparatorFree, StripVanishNamespace, Maps, RenamedNodes, ErasedNodes;
    var m := Maps(trees, collate)[t];
    var hidden := VanishIds(Namespaced(trees, collate)[t].parts);
    MintedNames(trees, collate);
    EmptyIsFree();
    forall x | x in m ensures m[x] in hidden {
      HiddenIds(trees, collate, t, m[x]);
    }
    forall x | x in StyleIds(trees[t].parts) && x !in m ensures x !in hidden {
      RemainingHas(trees, t, x);
      HiddenIds(trees, collate, t, x);
    }
    NodesKept(trees[t].parts, m, hidden);
  }

  lemma EmptyIsFree()
    ensures SeparatorFree("")
  {
  }
}
