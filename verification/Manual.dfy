/**
 `generateDocx` and `generateManual` of src/generator/index.ts, down to what they hand to the docx
 library: one numbering instance per section and one style table for all of them.
 */
module Manual {
  import opened Text
  import opened SpecTree
  import opened SectionNumber
  import opened Labels
  import opened Docx
  import opened Markdown
  import opened WordCounters
  import DocxContent
  import Sorting
  import VanishKept
  import VanishStyles
  import VanishNamespace
  import VanishTrees
  import VanishWalks

  const SPEC_NUM_REF := "spec-numbering"
  const NO_SECTIONS := "cannot generate a manual with no sections"

  datatype Section = Section(reference: string, blocks: seq<Block>)

  /** `numbering` lists the instances the document declares; `styles` is its style table. */
  datatype Document = Document(
    styles: seq<VanishStyles.CharacterStyle>,
    numbering: seq<string>,
    sections: seq<Section>
  )

  function Reference(i: nat): string {
    SPEC_NUM_REF + "-" + Decimal(i)
  }

  /** Two sections never share a numbering instance, nor one with a single-section document. */
  lemma ReferencesDistinct(i: nat, j: nat)
    ensures Reference(i) == Reference(j) ==> i == j
    ensures Reference(i) != SPEC_NUM_REF
  {
    if Reference(i) == Reference(j) {
      var n := |SPEC_NUM_REF + "-"|;
      assert Reference(i)[n..] == Decimal(i) && Reference(j)[n..] == Decimal(j);
      DecimalInjective(i, j);
    }
    assert |Reference(i)| > |SPEC_NUM_REF|;
  }

  function SectionOf(tree: Tree, format: Format, i: nat): Section {
    Section(Reference(i), SectionBlocks(tree, SectionContext(format, Reference(i))))
  }

  function Sections(trees: seq<Tree>, format: Format): (s: seq<Section>)
    ensures |s| == |trees|
  {
    seq(|trees|, i requires 0 <= i < |trees| => SectionOf(trees[i], format, i))
  }

  function References(sections: seq<Section>): (r: seq<string>)
    ensures |r| == |sections| && forall i :: 0 <= i < |sections| ==> r[i] == sections[i].reference
  {
    seq(|sections|, i requires 0 <= i < |sections| => sections[i].reference)
  }

  function StyleTable(trees: seq<Tree>, collate: VanishStyles.Collation): seq<VanishStyles.CharacterStyle> {
    VanishStyles.VanishCharacterStyleOptions(Sorting.Sort(collate, VanishStyles.CollectTrees(trees, [])))
  }

  function ManualOf(trees: seq<Tree>, format: Format, collate: VanishStyles.Collation): Document {
    var scoped := VanishTrees.Namespaced(trees, collate);
    var sections := Sections(scoped, format);
    Document(StyleTable(scoped, collate), References(sections), sections)
  }

  // ---------------------------------------------------------------- renaming changes no structure

  lemma RenamedFields(node: Node, renames: VanishNamespace.Renames)
    ensures var other := VanishNamespace.RenamedNode(node, renames);
            && other.id == node.id && other.kind == node.kind && other.meta.vanish == node.meta.vanish
            && other.meta.object_.Some? == node.meta.object_.Some?
            && other.children == VanishNamespace.RenamedNodes(node.children, renames)
            && ConsumesNumber(other) == ConsumesNumber(node)
            && Throws(other) == Throws(node) && Descends(other) == Descends(node)
  {
  }

  lemma RenamedRest(nodes: seq<Node>, renames: VanishNamespace.Renames)
    requires nodes != []
    ensures VanishNamespace.RenamedNodes(nodes, renames)[0] == VanishNamespace.RenamedNode(nodes[0], renames)
    ensures VanishNamespace.RenamedNodes(nodes, renames)[1..] == VanishNamespace.RenamedNodes(nodes[1..], renames)
  {
    hide VanishNamespace.RenamedNode;
  }

  lemma {:induction false} RenamedFails(nodes: seq<Node>, renames: VanishNamespace.Renames)
    ensures Fails(VanishNamespace.RenamedNodes(nodes, renames)) == Fails(nodes)
    decreases nodes
  {
    if nodes != [] {
      RenamedRest(nodes, renames);
      RenamedFields(nodes[0], renames);
      RenamedFails(nodes[0].children, renames);
      RenamedFails(nodes[1..], renames);
      hide VanishNamespace.RenamedNode, VanishNamespace.RenamedNodes, Throws, Descends;
    }
  }

  lemma {:induction false} RenamedLevels(nodes: seq<Node>, renames: VanishNamespace.Renames, level: nat)
    ensures var renamed := VanishNamespace.RenamedNodes(nodes, renames);
            Levelled(renamed, level) == Levelled(nodes, level) && Leafy(renamed) == Leafy(nodes)
    decreases nodes
  {
    if nodes != [] {
      RenamedRest(nodes, renames);
      RenamedFields(nodes[0], renames);
      RenamedLevels(nodes[0].children, renames, level + 1);
      RenamedLevels(nodes[1..], renames, level);
      hide VanishNamespace.RenamedNode, VanishNamespace.RenamedNodes;
    }
  }

  /** The numbered lines of a node, by what they depend on: its kind, whether it is hidden, its id. */
  lemma NodeOrdinals(node: Node, index: nat, position: Position, path: seq<nat>)
    ensures Ordinals(LinesOf(node, index, position, path))
         == if !ConsumesNumber(node) then []
            else [Numbering(node.id, PlusOne(path + [index]))]
                 + Ordinals(LinesOfAll(node.children, 0, ChildPosition(position, index), path + [index]))
  {
    hide RenderObject, LabelAt, PlusOne, LinesOfAll;
    var lines := LinesOf(node, index, position, path);
    if ConsumesNumber(node) {
      var more := LinesOfAll(node.children, 0, ChildPosition(position, index), path + [index]);
      assert lines[1..] == more;
    } else {
      assert |lines| == 1 && lines[1..] == [];
      assert Ordinals([]) == [];
    }
  }

  lemma {:induction false} RenamedOrdinals(nodes: seq<Node>, renames: VanishNamespace.Renames,
                                           ordinal: nat, position: Position, path: seq<nat>)
    ensures Ordinals(LinesOfAll(VanishNamespace.RenamedNodes(nodes, renames), ordinal, position, path))
         == Ordinals(LinesOfAll(nodes, ordinal, position, path))
    decreases nodes
  {
    if nodes != [] {
      RenamedRest(nodes, renames);
      RenamedFields(nodes[0], renames);
      var node, other := nodes[0], VanishNamespace.RenamedNode(nodes[0], renames);
      hide VanishNamespace.RenamedNode, VanishNamespace.RenamedNodes, LinesOf, ConsumesNumber, PlusOne, Ordinals;
      var rest := VanishNamespace.RenamedNodes(nodes[1..], renames);
      var next := if ConsumesNumber(node) then ordinal + 1 else ordinal;
      NodeOrdinals(node, ordinal, position, path);
      NodeOrdinals(other, ordinal, position, path);
      RenamedOrdinals(node.children, renames, 0, ChildPosition(position, ordinal), path + [ordinal]);
      RenamedOrdinals(nodes[1..], renames, next, position, path);
      OrdinalsConcat(LinesOf(node, ordinal, position, path), LinesOfAll(nodes[1..], next, position, path));
      OrdinalsConcat(LinesOf(other, ordinal, position, path), LinesOfAll(rest, next, position, path));
    }
  }

  lemma NamespacedFails(trees: seq<Tree>, collate: VanishStyles.Collation, i: nat)
    requires i < |trees|
    ensures Fails(VanishTrees.Namespaced(trees, collate)[i].parts) == Fails(trees[i].parts)
  {
    hide Fails, VanishTrees.Maps, VanishNamespace.RenamedNodes;
    RenamedFails(trees[i].parts, VanishTrees.Maps(trees, collate)[i]);
  }

  predicate AnyFails(trees: seq<Tree>) {
    exists i :: 0 <= i < |trees| && Fails(trees[i].parts)
  }

  lemma ManualFails(trees: seq<Tree>, collate: VanishStyles.Collation)
    ensures AnyFails(VanishTrees.Namespaced(trees, collate)) == AnyFails(trees)
  {
    hide Fails, VanishTrees.Namespaced;
    forall i | 0 <= i < |trees|
      ensures Fails(VanishTrees.Namespaced(trees, collate)[i].parts) == Fails(trees[i].parts)
    {
      NamespacedFails(trees, collate, i);
    }
  }

  /** `collate` is the locale's collation. */
  method GenerateManual(trees: seq<Tree>, format: Format, collate: VanishStyles.Collation)
      returns (manual: Result<Document, string>)
    ensures manual == if trees == [] then Err(NO_SECTIONS)
                      else if AnyFails(trees) then Err(MISSING_BLOB)
                      else Ok(ManualOf(trees, format, collate))
  {
    hide Fails, SectionBlocks, VanishTrees.Namespaced, StyleTable;
    if trees == [] {
      return Err(NO_SECTIONS);
    }
    var scoped, _ := VanishWalks.NamespaceVanishTrees(trees, collate);
    ManualFails(trees, collate);
    var sections: seq<Section> := [];
    for i := 0 to |scoped|
      invariant |sections| == i && forall k :: 0 <= k < i ==> sections[k] == SectionOf(scoped[k], format, k)
      invariant forall k :: 0 <= k < i ==> !Fails(scoped[k].parts)
    {
      var blocks := BuildSectionChildren(scoped[i], SectionContext(format, Reference(i)));
      if blocks.Err? {
        assert Fails(scoped[i].parts);
        return Err(blocks.error);
      }
      sections := sections + [Section(Reference(i), blocks.value)];
    }
    assert sections == Sections(scoped, format);
    var ids := VanishStyles.CollectVanishCharacterStyleIds(scoped, collate);
    StyleTableOf(scoped, collate, ids);
    return Ok(Document(VanishStyles.VanishCharacterStyleOptions(ids), References(sections), sections));
  }

  lemma StyleTableOf(trees: seq<Tree>, collate: VanishStyles.Collation, ids: seq<string>)
    requires ids == Sorting.Sort(collate, VanishStyles.CollectTrees(trees, []))
    ensures StyleTable(trees, collate) == VanishStyles.VanishCharacterStyleOptions(ids)
  {
  }

  function DocumentOf(tree: Tree, format: Format, collate: VanishStyles.Collation): Document {
    var scoped := VanishTrees.Namespaced([tree], collate);
    Document(StyleTable(scoped, collate), [SPEC_NUM_REF],
             [Section(SPEC_NUM_REF, SectionBlocks(scoped[0], SectionContext(format, SPEC_NUM_REF)))])
  }

  method GenerateDocx(tree: Tree, format: Format, collate: VanishStyles.Collation)
      returns (document: Result<Document, string>)
    ensures document == if Fails(tree.parts) then Err(MISSING_BLOB) else Ok(DocumentOf(tree, format, collate))
  {
    hide Fails, SectionBlocks, VanishTrees.Namespaced, StyleTable;
    var scoped, _ := VanishWalks.NamespaceVanishTrees([tree], collate);
    NamespacedFails([tree], collate, 0);
    var blocks := BuildSectionChildren(scoped[0], SectionContext(format, SPEC_NUM_REF));
    if blocks.Err? {
      return Err(blocks.error);
    }
    var ids := VanishStyles.CollectVanishCharacterStyleIds(scoped, collate);
    StyleTableOf(scoped, collate, ids);
    return Ok(Document(VanishStyles.VanishCharacterStyleOptions(ids), [SPEC_NUM_REF], [Section(SPEC_NUM_REF, blocks.value)]));
  }

  // ---------------------------------------------------------------- numbering

  /** The blocks of the document, section after section. */
  function AllBlocks(sections: seq<Section>): seq<Block> {
    if sections == [] then [] else sections[0].blocks + AllBlocks(sections[1..])
  }

  /** The numbers of every section counted from nothing. */
  function NumbersAlone(sections: seq<Section>): seq<Numbering> {
    if sections == [] then [] else Numbers(sections[0].blocks, map[]) + NumbersAlone(sections[1..])
  }

  ghost predicate OwnInstances(sections: seq<Section>) {
    && (forall i, j :: 0 <= i < j < |sections| ==> sections[i].reference != sections[j].reference)
    && forall i :: 0 <= i < |sections| ==> InInstance(sections[i].blocks, sections[i].reference)
  }

  ghost predicate Unused(sections: seq<Section>, state: map<string, Counters>) {
    forall i :: 0 <= i < |sections| ==> CountersOf(state, sections[i].reference) == FRESH
  }

  lemma {:induction false} InstancesIndependent(sections: seq<Section>, state: map<string, Counters>)
    requires OwnInstances(sections) && Unused(sections, state)
    ensures Numbers(AllBlocks(sections), state) == NumbersAlone(sections)
    decreases |sections|
  {
    if sections != [] {
      var first, rest := sections[0], sections[1..];
      var next := After(first.blocks, state);
      assert CountersOf(map[], first.reference) == FRESH;
      Independent(first.blocks, first.reference, state, map[]);
      hide Numbers, After, InInstance, CountersOf;
      assert forall i :: 0 <= i < |rest| ==> rest[i] == sections[i + 1];
      InstancesIndependent(rest, next);
      Concat(first.blocks, AllBlocks(rest), state);
    }
  }

  lemma SectionInInstance(tree: Tree, format: Format, i: nat)
    ensures InInstance(SectionOf(tree, format, i).blocks, Reference(i))
  {
    var ctx := SectionContext(format, Reference(i));
    OneInstance(tree.parts, ctx);
    hide Collected, Reference;
    var blocks := SectionBlocks(tree, ctx);
    assert !Counts(blocks[0]);
    assert forall k :: 0 < k < |blocks| ==> blocks[k] == Collected(tree.parts, ctx)[k - 1];
  }

  /** A manual numbers every section as if it stood alone. */
  lemma SectionsNumberedAlone(trees: seq<Tree>, format: Format, collate: VanishStyles.Collation)
    ensures var sections := ManualOf(trees, format, collate).sections;
            Numbers(AllBlocks(sections), map[]) == NumbersAlone(sections)
  {
    hide InInstance, SectionBlocks, Reference, VanishTrees.Namespaced, Numbers, StyleTable, AllBlocks;
    var scoped := VanishTrees.Namespaced(trees, collate);
    var sections := Sections(scoped, format);
    forall i | 0 <= i < |sections| ensures InInstance(sections[i].blocks, sections[i].reference) {
      SectionInInstance(scoped[i], format, i);
    }
    forall i, j | 0 <= i < j < |sections| ensures sections[i].reference != sections[j].reference {
      ReferencesDistinct(i, j);
    }
    InstancesIndependent(sections, map[]);
  }

  /**
   A section of a manual is numbered exactly as Markdown numbers its tree, in spite of the
   renaming, if and only if the tree is levelled.
   */
  lemma SectionNumberedAsTree(trees: seq<Tree>, format: Format, collate: VanishStyles.Collation, i: nat)
    requires i < |trees| && Leafy(trees[i].parts)
    ensures Numbers(ManualOf(trees, format, collate).sections[i].blocks, map[])
         == Ordinals(LinesOfAll(trees[i].parts, 0, AtRoot, []))
       <==> Levelled(trees[i].parts, 0)
  {
    hide Numbers, Ordinals, LinesOfAll, Levelled, Leafy, VanishTrees.Maps, SectionBlocks, StyleTable,
         VanishNamespace.RenamedNodes;
    var renames := VanishTrees.Maps(trees, collate)[i];
    var scoped := VanishTrees.Namespaced(trees, collate)[i];
    RenamedLevels(trees[i].parts, renames, 0);
    RenamedOrdinals(trees[i].parts, renames, 0, AtRoot, []);
    FlatNumberingIsTreeNumbering(scoped, SectionContext(format, Reference(i)));
  }

  // ---------------------------------------------------------------- the shared style table

  /** The table hides exactly the ids that some object of the trees lists as hidden. */
  lemma TableHides(trees: seq<Tree>, collate: VanishStyles.Collation, id: string)
    ensures VanishStyles.Hides(StyleTable(trees, collate), id) <==> VanishTrees.HiddenIn(trees, id)
  {
    hide VanishStyles.VanishIds, VanishStyles.CollectTrees, VanishStyles.StripVanishNamespace, Sorting.Sort;
    var all := VanishStyles.CollectTrees(trees, []);
    var sorted := Sorting.Sort(collate, all);
    VanishStyles.CollectTreesElements(trees, []);
    VanishStyles.SortElements(collate, all);
    var table := VanishStyles.VanishCharacterStyleOptions(sorted);
    if VanishStyles.Hides(table, id) {
      var k :| 0 <= k < |table| && table[k].id == id;
      assert sorted[k] in sorted;
    }
    if id in sorted {
      var k :| 0 <= k < |sorted| && sorted[k] == id;
      assert table[k].id == id && table[k].vanish;
    }
  }

  /**
   A reference in a section of the manual is hidden by the document's style table if and only if
   it was hidden in its own source tree.
   */
  lemma ManualHides(trees: seq<Tree>, format: Format, collate: VanishStyles.Collation, t: nat, k: nat)
    requires t < |trees| && k < |VanishNamespace.NodesRefs(trees[t].parts)|
    ensures var scoped := VanishTrees.Namespaced(trees, collate);
            var before, after := VanishNamespace.NodesRefs(trees[t].parts), VanishNamespace.NodesRefs(scoped[t].parts);
            && |after| == |before|
            && (VanishStyles.Hides(ManualOf(trees, format, collate).styles, after[k])
                <==> before[k] in VanishStyles.VanishIds(trees[t].parts))
  {
    hide VanishStyles.VanishIds, VanishNamespace.NodesRefs, VanishTrees.Namespaced, StyleTable, VanishTrees.HiddenIn,
         VanishStyles.Hides;
    var scoped := VanishTrees.Namespaced(trees, collate);
    VanishTrees.HidingPreserved(trees, collate, t, k);
    TableHides(scoped, collate, VanishNamespace.NodesRefs(scoped[t].parts)[k]);
  }

  /** The table never defines an id without the separator, so no built-in style is overridden. */
  lemma BuiltInsUntouched(trees: seq<Tree>, format: Format, collate: VanishStyles.Collation, id: string)
    requires VanishStyles.SeparatorFree(id)
    ensures !VanishStyles.Hides(ManualOf(trees, format, collate).styles, id)
  {
    hide VanishStyles.VanishIds, VanishTrees.Namespaced, VanishTrees.Maps, VanishStyles.SeparatorFree, VanishTrees.Remaining,
         VanishTrees.Apart, VanishStyles.StripVanishNamespace, StyleTable, VanishStyles.Hides;
    var scoped := VanishTrees.Namespaced(trees, collate);
    TableHides(scoped, collate, id);
    VanishTrees.MintedNames(trees, collate);
    forall u | 0 <= u < |trees| ensures id !in VanishStyles.VanishIds(scoped[u].parts) {
      VanishTrees.HiddenIds(trees, collate, u, id);
    }
  }

  /** The styles are hidden, in collation order, each under the name that its id had in the source document. */
  lemma StyleNames(trees: seq<Tree>, format: Format, collate: VanishStyles.Collation, k: nat)
    requires Sorting.TotalPreorder(collate) && k < |ManualOf(trees, format, collate).styles|
    ensures var styles := ManualOf(trees, format, collate).styles;
            var id, name := styles[k].id, styles[k].name;
            && styles[k].vanish
            && VanishStyles.SeparatorFree(name) && (id == name || exists rest :: id == name + ("#specr-vanish-t" + rest))
            && forall j :: 0 <= j < k ==> collate(styles[j].id, id) && styles[j].id != id
  {
    hide VanishStyles.CollectTrees, VanishStyles.StripVanishNamespace, VanishStyles.SeparatorFree, Sorting.Sort,
         VanishTrees.Namespaced, Sections;
    var all := VanishStyles.CollectTrees(VanishTrees.Namespaced(trees, collate), []);
    VanishStyles.CollectTreesElements(VanishTrees.Namespaced(trees, collate), []);
    VanishStyles.SortElements(collate, all);
    Sorting.SortSorted(collate, all);
    var ids := Sorting.Sort(collate, all);
    VanishStyles.StripIff(ids[k], VanishStyles.StripVanishNamespace(ids[k]));
  }

  // ---------------------------------------------------------------- what the manual shows

  /**
   Section `i` of a manual shows the `i`-th tree in a numbering instance of its own; what it shows
   is the source tree but for the names of hidden ids.
   */
  lemma ManualShows(trees: seq<Tree>, format: Format, collate: VanishStyles.Collation, i: nat)
    requires i < |trees| && !AnyFails(trees)
    ensures var manual := ManualOf(trees, format, collate);
            var section, reference := manual.sections[i], "spec-numbering-" + Decimal(i);
            && |manual.sections| == |manual.numbering| == |trees|
            && section.reference == manual.numbering[i] == reference
            && exists tree: Tree ::
                 && VanishKept.Erased(tree) == VanishKept.Erased(trees[i])
                 && DocxContent.ShowsTree(section.blocks, tree, SectionContext(format, reference))
  {
    hide Fails, SectionBlocks, VanishTrees.Namespaced, StyleTable, DocxContent.ShowsTree, VanishKept.Erased;
    var tree := VanishTrees.Namespaced(trees, collate)[i];
    VanishKept.OnlyHiddenIdsChange(trees, collate, i);
    NamespacedFails(trees, collate, i);
    ReferenceText(i);
    hide Reference;
    DocxContent.SectionShows(tree, SectionContext(format, Reference(i)));
  }

  /** The same for a document of one section. */
  lemma DocumentShows(tree: Tree, format: Format, collate: VanishStyles.Collation)
    requires !Fails(tree.parts)
    ensures var document := DocumentOf(tree, format, collate);
            && document.numbering == ["spec-numbering"] && |document.sections| == 1
            && document.sections[0].reference == "spec-numbering"
            && document.styles == ManualOf([tree], format, collate).styles
            && exists shown: Tree ::
                 && VanishKept.Erased(shown) == VanishKept.Erased(tree)
                 && DocxContent.ShowsTree(document.sections[0].blocks, shown, SectionContext(format, "spec-numbering"))
  {
    hide Fails, SectionBlocks, VanishTrees.Namespaced, StyleTable, DocxContent.ShowsTree, VanishKept.Erased;
    VanishKept.OnlyHiddenIdsChange([tree], collate, 0);
    NamespacedFails([tree], collate, 0);
    DocxContent.SectionShows(VanishTrees.Namespaced([tree], collate)[0], SectionContext(format, SPEC_NUM_REF));
  }

  lemma ReferenceText(i: nat)
    ensures Reference(i) == "spec-numbering-" + Decimal(i)
  {
    assert "spec-numbering" + "-" == "spec-numbering-";
  }
}
