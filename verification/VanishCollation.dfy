/**
 A collation that sorts every string before its extensions, under which namespacing is not stable:
 it sorts the suffix `-10` before `-2`, so a tree with eleven hidden ids of one name is enough.
 */
module VanishCollation {
  import opened Text
  import opened SpecTree
  import opened Sorting
  import opened Counting
  import opened VanishStyles
  import opened VanishNamespace
  import opened VanishTrees
  import opened VanishRanks
  import opened VanishStability

  // ---------------------------------------------------------------- the order of code units

  /** `a <= b`, character by character. */
  predicate LexLeq(a: string, b: string) {
    if a == "" then true
    else if b == "" then false
    else if a[0] != b[0] then a[0] < b[0]
    else LexLeq(a[1..], b[1..])
  }

  lemma {:induction false} LexTotal(a: string, b: string)
    ensures LexLeq(a, b) || LexLeq(b, a)
  {
    if a != "" && b != "" {
      LexTotal(a[1..], b[1..]);
    }
  }

  lemma {:induction false} LexTransitive(a: string, b: string, c: string)
    requires LexLeq(a, b) && LexLeq(b, c)
    ensures LexLeq(a, c)
  {
    if a != "" && a[0] == b[0] == c[0] {
      LexTransitive(a[1..], b[1..], c[1..]);
    }
  }

  lemma {:induction false} LexAntisymmetric(a: string, b: string)
    requires LexLeq(a, b) && LexLeq(b, a)
    ensures a == b
  {
    if a != "" {
      LexAntisymmetric(a[1..], b[1..]);
      assert a == [a[0]] + a[1..] && b == [b[0]] + b[1..];
    }
  }

  lemma LexOrder()
    ensures TotalPreorder(LexLeq) && Antisymmetric(LexLeq)
  {
    forall a, b ensures LexLeq(a, b) || LexLeq(b, a) {
      LexTotal(a, b);
    }
    forall a, b, c | LexLeq(a, b) && LexLeq(b, c) ensures LexLeq(a, c) {
      LexTransitive(a, b, c);
    }
    forall a, b | LexLeq(a, b) && LexLeq(b, a) ensures a == b {
      LexAntisymmetric(a, b);
    }
  }

  lemma {:induction false} LexCommon(prefix: string, a: string, b: string)
    ensures LexLeq(prefix + a, prefix + b) == LexLeq(a, b)
  {
    if prefix == "" {
      assert prefix + a == a && prefix + b == b;
    } else {
      assert (prefix + a)[1..] == prefix[1..] + a && (prefix + b)[1..] == prefix[1..] + b;
      LexCommon(prefix[1..], a, b);
    }
  }

  /** Every string is sorted before its extensions. */
  lemma LexPrefix(a: string, more: string)
    ensures LexLeq(a, a + more)
  {
    LexCommon(a, "", more);
    assert a + "" == a;
  }

  // ---------------------------------------------------------------- eleven ids

  const NAME := "X"

  /** The ids a manual of eleven sections gives the style `X` of each, when all list it as hidden. */
  function ElevenIds(): (ids: seq<string>)
    ensures |ids| == 11 && forall k :: 0 <= k < 11 ==> ids[k] == BaseName(NAME, k)
  {
    seq(11, k requires 0 <= k < 11 => BaseName(NAME, k))
  }

  /** That manual read back as one document, with one captured table. */
  function ElevenTree(): Tree {
    OneTable(ElevenIds())
  }

  function OneTable(ids: seq<string>): Tree {
    var table := ObjectMeta(Table, false, None, None, Some(ids), [Element("w:tbl", [], None)]);
    Tree("", "", [Node("", Object, "", [], Meta(false, false, None, [], [], [], Some(table)))])
  }

  lemma OneTableIds(ids: seq<string>)
    ensures VanishIds(OneTable(ids).parts) == Elements(ids) && Remaining([OneTable(ids)]) == {}
  {
    var tree := OneTable(ids);
    assert tree.parts[1..] == [] && [tree][1..] == [];
    assert VanishIds([]) == {} && StyleIds([]) == {} && Remaining([]) == {};
    assert BlobsRefs([Element("w:tbl", [], None)]) == [] by {
      assert BlobRefs(Element("w:tbl", [], None)) == BlobsRefs([]) == [];
      assert [Element("w:tbl", [], None)][1..] == [];
    }
    assert Elements([]) == {};
    hide BlobsRefs, BlobRefs, Elements;
    assert VanishIds(tree.parts) == Elements(ids) == StyleIds(tree.parts);
  }

  lemma NameIsFree()
    ensures StripVanishNamespace(NAME) == NAME && forall k: nat :: StripVanishNamespace(BaseName(NAME, k)) == NAME
  {
    assert SeparatorFree(NAME);
    assert FindSeparator(NAME, 0).None?;
    forall k: nat ensures StripVanishNamespace(BaseName(NAME, k)) == NAME {
      StripMinted(NAME, Decimal(k));
    }
  }

  lemma {:induction false} DistinctSize(ids: seq<string>)
    requires Distinct(ids)
    ensures |Elements(ids)| == |ids|
  {
    if ids != [] {
      var init, last := ids[..|ids| - 1], ids[|ids| - 1];
      DistinctSize(init);
      assert ids == init + [last];
      assert Elements(ids) == Elements(init) + {last};
    }
  }

  lemma ElevenGroup()
    ensures var tree := ElevenTree();
            && VanishIds(tree.parts) == Elements(ElevenIds()) && |Group(tree, NAME)| == 11
            && Remaining([tree]) == {}
  {
    hide StripVanishNamespace, BaseName, VanishIds, Remaining;
    var ids := ElevenIds();
    hide ElevenIds, OneTable;
    NameIsFree();
    forall j, k | 0 <= j < k < 11 ensures ids[j] != ids[k] {
      if ids[j] == ids[k] {
        CandidateOrigin(NAME, j, 0, NAME, k, 0);
      }
    }
    DistinctSize(ids);
    OneTableIds(ids);
    assert Group(ElevenTree(), NAME) == Elements(ids);
  }

  lemma {:induction false} AllFree(base: string, n: nat)
    ensures FreeAt(base, n, {}) == n
  {
    hide Candidate;
    if n > 0 {
      AllFree(base, n - 1);
    }
  }

  lemma Shorter()
    ensures !LexLeq("-2", "-10")
  {
    assert "-2"[1..] == "2" && "-10"[1..] == "10";
    assert !LexLeq("2", "10");
  }

  /** The suffix `-10` is sorted before `-2`. */
  lemma TenBeforeTwo(base: string)
    ensures !LexLeq(Candidate(base, 2), Candidate(base, 10))
  {
    assert "-" + Decimal(2) == "-2" && "-" + Decimal(10) == "-10";
    hide Decimal, LexLeq;
    LexCommon(base, "-2", "-10");
    Shorter();
  }

  /**
   Namespacing that manual again changes it, although the collation is a total order that sorts
   every string before its extensions.
   */
  lemma ElevenIdsUnstable()
    ensures TotalPreorder(LexLeq) && Antisymmetric(LexLeq)
    ensures forall a, more :: LexLeq(a, a + more)
    ensures var once := Namespaced([ElevenTree()], LexLeq); Namespaced(once, LexLeq) != once
  {
    hide StripVanishNamespace, Candidate, BaseName, Namespaced, LexLeq, FreeAt, VanishIds, Group, Remaining;
    LexOrder();
    forall a, more ensures LexLeq(a, a + more) {
      LexPrefix(a, more);
    }
    ElevenGroup();
    NamespacingStableIff([ElevenTree()], LexLeq);
    var id := ElevenIds()[0];
    NameIsFree();
    assert id in Elements(ElevenIds());
    AllFree(BaseName(id, 0), 2);
    AllFree(BaseName(id, 0), 10);
    TenBeforeTwo(BaseName(id, 0));
    assert !LexLeq(NthFree(id, 0, 2, {}), NthFree(id, 0, 10, {}));
    assert [ElevenTree()][0] == ElevenTree();
  }
}
