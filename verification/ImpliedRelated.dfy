/** The finder of implied sections of src/coordination/implied-related.ts. */
module ImpliedRelated {
  import opened Text
  import opened Sorting
  import opened Counting

  datatype TitleEntry = TitleEntry(section: string, title: string)

  datatype Entry = Entry(section: string, title: string, keywords: seq<string>)

  datatype SourceParagraph = SourceParagraph(id: string, text: string)

  datatype SpecBody = SpecBody(
    specId: string,
    section: string,
    relatedSections: seq<string>,
    bodyCitedSections: seq<string>,
    paragraphs: seq<SourceParagraph>
  )

  datatype Finding = Finding(
    sourceSpecId: string,
    sourceSpecSection: string,
    sourceParagraphId: string,
    impliedSection: string,
    impliedTitle: string,
    matchedKeyword: string,
    confidence: nat
  )

  /** The tokens of a text: lower-cased words, stemmed, short and stop words dropped. */
  type Tokenizer = string -> seq<string>

  const MAX_KEYWORD_SECTIONS := 2

  // Confidences are in hundredths.
  const BASE_CONFIDENCE := 72
  const EXTRA_KEYWORD_CONFIDENCE := 8
  const MAX_CONFIDENCE := 92

  // ---------------------------------------------------------------- the keyword index

  function UniqueKeywords(title: string, tokenize: Tokenizer, leq: (string, string) -> bool): seq<string> {
    Sort(leq, Firsts(tokenize(title)))
  }

  function Indexed(entries: seq<TitleEntry>, tokenize: Tokenizer, leq: (string, string) -> bool): (r: seq<Entry>)
    ensures |r| == |entries|
  {
    Map((e: TitleEntry) => Entry(e.section, e.title, UniqueKeywords(e.title, tokenize, leq)), entries)
  }

  /** All keywords of the entries, one after the other. */
  function AllKeywords(entries: seq<Entry>): seq<string> {
    if entries == [] then []
    else AllKeywords(entries[..|entries| - 1]) + entries[|entries| - 1].keywords
  }

  method CountKeywords(entries: seq<Entry>) returns (c: Counts)
    ensures c.Of(AllKeywords(entries))
  {
    CountNothing();
    hide Bump, Counts.Of;
    c := Counts([], map[]);
    for i := 0 to |entries|
      invariant c.Of(AllKeywords(entries[..i]))
    {
      var keywords := entries[i].keywords;
      ghost var before := AllKeywords(entries[..i]);
      assert before + keywords[..0] == before;
      for j := 0 to |keywords|
        invariant c.Of(before + keywords[..j])
      {
        CountMore(c, before + keywords[..j], keywords[j]);
        TakeMore(before, keywords, j);
        c := Bump(c, keywords[j]);
      }
      TakeAll(before, keywords);
      assert entries[..i + 1][..i] == entries[..i];
    }
    assert entries[..|entries|] == entries;
  }

  lemma TakeMore(before: seq<string>, s: seq<string>, j: nat)
    requires j < |s|
    ensures before + s[..j] + [s[j]] == before + s[..j + 1]
  {
  }

  lemma TakeAll(before: seq<string>, s: seq<string>)
    ensures before + s[..|s|] == before + s
  {
    assert s[..|s|] == s;
  }

  function Kept(keywords: seq<string>, counts: Counts): seq<string> {
    Filter((k: string) => counts.Get(k) <= MAX_KEYWORD_SECTIONS, keywords)
  }

  function SuppressCommonKeywords(entries: seq<Entry>, counts: Counts): (r: seq<Entry>)
    ensures |r| == |entries|
    ensures forall i :: 0 <= i < |entries| ==> r[i] == entries[i].(keywords := Kept(entries[i].keywords, counts))
  {
    Map((e: Entry) => e.(keywords := Kept(e.keywords, counts)), entries)
  }

  /** How many entries carry the keyword. */
  function Holders(entries: seq<Entry>, keyword: string): nat {
    if entries == [] then 0
    else Holders(entries[..|entries| - 1], keyword) + if keyword in entries[|entries| - 1].keywords then 1 else 0
  }

  /** The entries of a catalog with the keywords that at most two of its titles have. */
  ghost predicate IsIndex(index: seq<Entry>, entries: seq<TitleEntry>, tokenize: Tokenizer, leq: (string,
                          string) -> bool) {
    var indexed := Indexed(entries, tokenize, leq);
    && |index| == |entries|
    && forall i :: 0 <= i < |entries| ==>
         && index[i].section == entries[i].section && index[i].title == entries[i].title
         && index[i].keywords == Filter((k: string) => Holders(indexed, k) <= MAX_KEYWORD_SECTIONS, indexed[i].keywords)
  }

  method BuildTitleKeywordIndex(entries: seq<TitleEntry>, tokenize: Tokenizer, leq: (string, string) -> bool)
      returns (index: seq<Entry>)
    ensures IsIndex(index, entries, tokenize, leq)
  {
    var indexed := Indexed(entries, tokenize, leq);
    var counts := CountKeywords(indexed);
    index := SuppressCommonKeywords(indexed, counts);
    IndexedDistinct(entries, tokenize, leq);
    forall k ensures counts.Get(k) == Holders(indexed, k) {
      HoldersCounted(indexed, k);
    }
    forall i | 0 <= i < |entries|
      ensures index[i].keywords
           == Filter((k: string) => Holders(indexed, k) <= MAX_KEYWORD_SECTIONS, indexed[i].keywords)
    {
      FilterSame((k: string) => counts.Get(k) <= MAX_KEYWORD_SECTIONS,
                 (k: string) => Holders(indexed, k) <= MAX_KEYWORD_SECTIONS, indexed[i].keywords);
    }
  }

  lemma FilterSame(p: string -> bool, q: string -> bool, s: seq<string>)
    requires forall x :: p(x) == q(x)
    ensures Filter(p, s) == Filter(q, s)
  {
  }

  ghost predicate KeywordsDistinct(entries: seq<Entry>) {
    forall i :: 0 <= i < |entries| ==> NoRepeats(entries[i].keywords)
  }

  ghost predicate NoRepeats(s: seq<string>) {
    forall x :: multiset(s)[x] <= 1
  }

  lemma IndexedDistinct(entries: seq<TitleEntry>, tokenize: Tokenizer, leq: (string, string) -> bool)
    ensures KeywordsDistinct(Indexed(entries, tokenize, leq))
  {
    var indexed := Indexed(entries, tokenize, leq);
    forall i, x | 0 <= i < |entries| ensures multiset(indexed[i].keywords)[x] <= 1 {
      var firsts := Firsts(tokenize(entries[i].title));
      SortPermutes(leq, firsts);
      DistinctCount(firsts, x);
    }
  }

  lemma {:induction false} HoldersCounted(entries: seq<Entry>, keyword: string)
    requires KeywordsDistinct(entries)
    ensures multiset(AllKeywords(entries))[keyword] == Holders(entries, keyword)
  {
    if entries != [] {
      var last := entries[|entries| - 1].keywords;
      assert NoRepeats(last);
      HoldersCounted(entries[..|entries| - 1], keyword);
      assert keyword in last <==> keyword in multiset(last);
    }
  }

  /** A keyword of the titles stays in the index exactly when at most two of them have it. */
  lemma IndexedKeywords(index: seq<Entry>, entries: seq<TitleEntry>, tokenize: Tokenizer,
                        leq: (string, string) -> bool, keyword: string)
    requires IsIndex(index, entries, tokenize, leq)
    ensures var titles := Holders(Indexed(entries, tokenize, leq), keyword);
            Holders(index, keyword) == if titles <= MAX_KEYWORD_SECTIONS then titles else 0
    ensures Holders(index, keyword) <= MAX_KEYWORD_SECTIONS
    ensures KeywordsDistinct(index)
  {
    var indexed := Indexed(entries, tokenize, leq);
    var keep := (k: string) => Holders(indexed, k) <= MAX_KEYWORD_SECTIONS;
    forall i | 0 <= i < |entries| ensures keyword in index[i].keywords <==> keyword in indexed[i].keywords && keep(keyword) {
      FilterMembers(keep, indexed[i].keywords);
    }
    HoldersKept(index, indexed, keyword, keep(keyword));
    IndexedDistinct(entries, tokenize, leq);
    forall i, x | 0 <= i < |entries| ensures multiset(index[i].keywords)[x] <= 1 {
      assert NoRepeats(indexed[i].keywords);
      FilterCounts(keep, indexed[i].keywords, x);
    }
  }

  /** The titles that have the keyword among their tokens. */
  function TitlesWith(entries: seq<TitleEntry>, tokenize: Tokenizer, keyword: string): nat {
    |Filter((e: TitleEntry) => keyword in tokenize(e.title), entries)|
  }

  /** An entry has, once each and in collation order, the tokens of its title that at most two titles have. */
  lemma IndexSays(index: seq<Entry>, entries: seq<TitleEntry>, tokenize: Tokenizer, leq: (string, string) -> bool,
                  i: nat)
    requires IsIndex(index, entries, tokenize, leq) && TotalPreorder(leq) && i < |entries|
    ensures index[i].section == entries[i].section && index[i].title == entries[i].title
    ensures forall k :: k in index[i].keywords
                   <==> k in tokenize(entries[i].title) && TitlesWith(entries, tokenize, k) <= 2
    ensures NoRepeats(index[i].keywords) && Sorted(leq, index[i].keywords)
  {
    var indexed := Indexed(entries, tokenize, leq);
    var keep := (k: string) => Holders(indexed, k) <= MAX_KEYWORD_SECTIONS;
    var firsts := Firsts(tokenize(entries[i].title));
    IndexedKeywords(index, entries, tokenize, leq, "");
    FilterMembers(keep, indexed[i].keywords);
    SortSorted(leq, firsts);
    FilterSorted(leq, keep, indexed[i].keywords);
    forall k ensures (k in indexed[i].keywords <==> k in tokenize(entries[i].title))
                     && Holders(indexed, k) == TitlesWith(entries, tokenize, k) {
      UniqueMembers(entries[i].title, tokenize, leq, k);
      HoldersAreTitles(entries, tokenize, leq, k);
    }
  }

  lemma {:induction false} FilterSorted(leq: (string, string) -> bool, keep: string -> bool, s: seq<string>)
    requires Sorted(leq, s)
    ensures Sorted(leq, Filter(keep, s))
  {
    if s != [] {
      assert Sorted(leq, s[1..]);
      FilterSorted(leq, keep, s[1..]);
      FilterMembers(keep, s[1..]);
      var rest := Filter(keep, s[1..]);
      forall j | 0 <= j < |rest| ensures leq(s[0], rest[j]) {
        assert rest[j] in s[1..];
      }
    }
  }

  lemma {:induction false} HoldersAreTitles(entries: seq<TitleEntry>, tokenize: Tokenizer,
                                            leq: (string, string) -> bool, keyword: string)
    ensures Holders(Indexed(entries, tokenize, leq), keyword) == TitlesWith(entries, tokenize, keyword)
  {
    if entries != [] {
      var init, last := entries[..|entries| - 1], entries[|entries| - 1];
      var has := (e: TitleEntry) => keyword in tokenize(e.title);
      assert entries == init + [last] && [last][1..] == [];
      HoldersAreTitles(init, tokenize, leq, keyword);
      FilterConcat(has, init, [last]);
      UniqueMembers(last.title, tokenize, leq, keyword);
      hide UniqueKeywords;
      assert Indexed(entries, tokenize, leq)[..|entries| - 1] == Indexed(init, tokenize, leq);
    }
  }

  lemma UniqueMembers(title: string, tokenize: Tokenizer, leq: (string, string) -> bool, keyword: string)
    ensures keyword in UniqueKeywords(title, tokenize, leq) <==> keyword in tokenize(title)
  {
    var firsts := Firsts(tokenize(title));
    SortPermutes(leq, firsts);
    assert keyword in multiset(UniqueKeywords(title, tokenize, leq)) <==> keyword in multiset(firsts);
  }

  lemma {:induction false} FilterCounts(keep: string -> bool, s: seq<string>, x: string)
    ensures multiset(Filter(keep, s))[x] <= multiset(s)[x]
  {
    if s != [] {
      FilterCounts(keep, s[1..], x);
      assert s == [s[0]] + s[1..];
    }
  }

  lemma {:induction false} HoldersKept(index: seq<Entry>, indexed: seq<Entry>, keyword: string, keep: bool)
    requires |index| == |indexed|
    requires forall i :: 0 <= i < |index| ==>
               (keyword in index[i].keywords <==> keyword in indexed[i].keywords && keep)
    ensures Holders(index, keyword) == if keep then Holders(indexed, keyword) else 0
  {
    if index != [] {
      HoldersKept(index[..|index| - 1], indexed[..|indexed| - 1], keyword, keep);
    }
  }

  // ---------------------------------------------------------------- matching

  datatype Match = Match(keyword: string, confidence: nat)

  function Matched(entry: Entry, bodyTokens: set<string>): seq<string> {
    Filter((k: string) => k in bodyTokens, entry.keywords)
  }

  /** `0.72 + (n - 1) * 0.08`, at most 0.92. */
  function Confidence(n: nat): nat
    requires n > 0
  {
    Min(MAX_CONFIDENCE, BASE_CONFIDENCE + (n - 1) * EXTRA_KEYWORD_CONFIDENCE)
  }

  function MatchEntry(entry: Entry, bodyTokens: set<string>): Option<Match> {
    var matched := Matched(entry, bodyTokens);
    if matched == [] then None
    else if |matched| < Min(2, |entry.keywords|) then None
    else Some(Match(matched[0], Confidence(|matched|)))
  }

  function Shared(entry: Entry, bodyTokens: set<string>): nat {
    |Filter((k: string) => k in bodyTokens, entry.keywords)|
  }

  /**
   One shared keyword is enough only when the title has no other. The match names the first shared
   keyword, and the confidence grows with their number up to four.
   */
  lemma MatchMeans(entry: Entry, bodyTokens: set<string>)
    requires NoRepeats(entry.keywords)
    ensures MatchEntry(entry, bodyTokens).Some?
       <==> || (|entry.keywords| == 1 && entry.keywords[0] in bodyTokens)
            || exists i, j :: && 0 <= i < j < |entry.keywords|
                              && entry.keywords[i] in bodyTokens && entry.keywords[j] in bodyTokens
    ensures var m := MatchEntry(entry, bodyTokens);
            m.Some? ==>
              && (exists i :: && 0 <= i < |entry.keywords| && entry.keywords[i] == m.value.keyword
                              && m.value.keyword in bodyTokens
                              && forall j :: 0 <= j < i ==> entry.keywords[j] !in bodyTokens)
              && m.value.confidence == (match Shared(entry, bodyTokens) case 1 => 72 case 2 => 80 case 3 => 88 case _ => 92)
              && (Shared(entry, bodyTokens) == 1 <==> |entry.keywords| == 1)
  {
    var keep := (k: string) => k in bodyTokens;
    TwoKept(keep, entry.keywords);
    FilterShorter(keep, entry.keywords);
    if |entry.keywords| == 1 {
      assert Filter(keep, entry.keywords[1..]) == [];
    }
    if Matched(entry, bodyTokens) != [] {
      FirstKept(keep, entry.keywords);
    }
  }

  lemma {:induction false} FirstKept(keep: string -> bool, s: seq<string>)
    requires Filter(keep, s) != []
    ensures exists i :: 0 <= i < |s| && s[i] == Filter(keep, s)[0] && keep(s[i]) && forall j :: 0 <= j < i ==> !keep(s[j])
  {
    if !keep(s[0]) {
      FirstKept(keep, s[1..]);
      var i :| 0 <= i < |s[1..]| && s[1..][i] == Filter(keep, s[1..])[0] && keep(s[1..][i])
               && forall j :: 0 <= j < i ==> !keep(s[1..][j]);
      assert s[i + 1] == s[1..][i] && forall j :: 0 < j <= i ==> s[j] == s[1..][j - 1];
    }
  }

  ghost predicate HasTwo(keep: string -> bool, s: seq<string>) {
    exists i, j :: 0 <= i < j < |s| && keep(s[i]) && keep(s[j])
  }

  lemma {:induction false} TwoKept(keep: string -> bool, s: seq<string>)
    ensures |Filter(keep, s)| >= 2 <==> HasTwo(keep, s)
  {
    if s != [] {
      TwoKept(keep, s[1..]);
      FilterMembers(keep, s[1..]);
      if HasTwo(keep, s[1..]) {
        var i, j :| 0 <= i < j < |s[1..]| && keep(s[1..][i]) && keep(s[1..][j]);
        assert keep(s[i + 1]) && keep(s[j + 1]);
      }
      if keep(s[0]) && Filter(keep, s[1..]) != [] {
        var x := Filter(keep, s[1..])[0];
        assert x in s[1..] && keep(x);
        var j :| 0 <= j < |s[1..]| && s[1..][j] == x;
        assert keep(s[0]) && keep(s[j + 1]);
      }
      if HasTwo(keep, s) {
        var i, j :| 0 <= i < j < |s| && keep(s[i]) && keep(s[j]);
        assert s[1..][j - 1] == s[j] && s[j] in s[1..];
        if i > 0 {
          assert keep(s[1..][i - 1]) && keep(s[1..][j - 1]);
        }
      }
    }
  }

  // ---------------------------------------------------------------- candidates

  function FindingKey(specId: string, impliedSection: string): string {
    specId + ":" + impliedSection
  }

  function KeyOf(f: Finding): string {
    FindingKey(f.sourceSpecId, f.impliedSection)
  }

  function ToFinding(spec: SpecBody, paragraph: SourceParagraph, entry: Entry, m: Match): Finding {
    Finding(spec.specId, spec.section, paragraph.id, entry.section, entry.title, m.keyword, m.confidence)
  }

  predicate Listed(spec: SpecBody, section: string) {
    section in spec.relatedSections || section in spec.bodyCitedSections
  }

  /** What an entry yields for a paragraph, whatever was reported before. */
  function Candidate(spec: SpecBody, paragraph: SourceParagraph, entry: Entry, tokenize: Tokenizer): seq<Finding> {
    if entry.section == spec.section || Listed(spec, entry.section) then []
    else
      var m := MatchEntry(entry, TokenSet(paragraph.text, tokenize));
      if m.None? then [] else [ToFinding(spec, paragraph, entry, m.value)]
  }

  function TokenSet(text: string, tokenize: Tokenizer): set<string> {
    set t | t in tokenize(text)
  }

  function ParagraphCandidates(spec: SpecBody, paragraph: SourceParagraph, entries: seq<Entry>,
                               tokenize: Tokenizer): seq<Finding> {
    if entries == [] then []
    else Candidate(spec, paragraph, entries[0], tokenize) + ParagraphCandidates(spec, paragraph, entries[1..], tokenize)
  }

  function SpecCandidates(spec: SpecBody, paragraphs: seq<SourceParagraph>, entries: seq<Entry>,
                          tokenize: Tokenizer): seq<Finding> {
    if paragraphs == [] then []
    else
      ParagraphCandidates(spec, paragraphs[0], entries, tokenize)
      + SpecCandidates(spec, paragraphs[1..], entries, tokenize)
  }

  function AllCandidates(specs: seq<SpecBody>, entries: seq<Entry>, tokenize: Tokenizer): seq<Finding> {
    if specs == [] then []
    else SpecCandidates(specs[0], specs[0].paragraphs, entries, tokenize) + AllCandidates(specs[1..], entries, tokenize)
  }

  /** The findings whose key is new, each after the first dropped. */
  function Fresh(emitted: set<string>, findings: seq<Finding>): seq<Finding>
    decreases |findings|
  {
    if findings == [] then []
    else if KeyOf(findings[0]) in emitted then Fresh(emitted, findings[1..])
    else [findings[0]] + Fresh(emitted + {KeyOf(findings[0])}, findings[1..])
  }

  function Keys(findings: seq<Finding>): set<string> {
    set f | f in findings :: KeyOf(f)
  }

  lemma {:induction false} FreshConcat(emitted: set<string>, a: seq<Finding>, b: seq<Finding>)
    ensures Fresh(emitted, a + b) == Fresh(emitted, a) + Fresh(emitted + Keys(a), b)
    decreases |a|
  {
    if a == [] {
      assert a + b == b && emitted + Keys(a) == emitted;
    } else {
      KeysFirst(emitted, a);
      hide KeyOf, Keys;
      assert (a + b)[1..] == a[1..] + b && (a + b)[0] == a[0];
      var key := KeyOf(a[0]);
      if key in emitted {
        assert emitted + {key} == emitted;
        FreshConcat(emitted, a[1..], b);
      } else {
        FreshConcat(emitted + {key}, a[1..], b);
      }
    }
  }

  lemma KeysFirst(emitted: set<string>, a: seq<Finding>)
    requires a != []
    ensures emitted + Keys(a) == emitted + {KeyOf(a[0])} + Keys(a[1..])
  {
    assert a == [a[0]] + a[1..];
    KeysConcat([a[0]], a[1..]);
  }

  lemma KeysConcat(a: seq<Finding>, b: seq<Finding>)
    ensures Keys(a + b) == Keys(a) + Keys(b)
  {
  }

  function Report(specs: seq<SpecBody>, entries: seq<Entry>, tokenize: Tokenizer): seq<Finding> {
    Fresh({}, AllCandidates(specs, entries, tokenize))
  }

  // ---------------------------------------------------------------- the search and its shared set

  /** The search with the set of keys that all its steps share. */
  class Finder {
    var emitted: set<string>

    constructor ()
      ensures emitted == {}
    {
      emitted := {};
    }

    predicate IsSuppressed(spec: SpecBody, entry: Entry, listed: set<string>)
      reads this
    {
      entry.section == spec.section || entry.section in listed || FindingKey(spec.specId, entry.section) in emitted
    }

    method FindingForEntry(spec: SpecBody, paragraph: SourceParagraph, entry: Entry, tokenize: Tokenizer,
                           bodyTokens: set<string>, listed: set<string>)
        returns (finding: seq<Finding>)
      requires bodyTokens == TokenSet(paragraph.text, tokenize)
      requires forall s :: s in listed <==> Listed(spec, s)
      modifies this
      ensures finding == Fresh(old(emitted), Candidate(spec, paragraph, entry, tokenize))
      ensures emitted == old(emitted) + Keys(Candidate(spec, paragraph, entry, tokenize))
    {
      if IsSuppressed(spec, entry, listed) {
        return [];
      }
      var m := MatchEntry(entry, bodyTokens);
      if m.None? {
        return [];
      }
      emitted := emitted + {FindingKey(spec.specId, entry.section)};
      return [ToFinding(spec, paragraph, entry, m.value)];
    }

    method FindingsForParagraph(spec: SpecBody, paragraph: SourceParagraph, entries: seq<Entry>, tokenize: Tokenizer,
                                listed: set<string>)
        returns (findings: seq<Finding>)
      requires forall s :: s in listed <==> Listed(spec, s)
      modifies this
      ensures findings == Fresh(old(emitted), ParagraphCandidates(spec, paragraph, entries, tokenize))
      ensures emitted == old(emitted) + Keys(ParagraphCandidates(spec, paragraph, entries, tokenize))
    {
      hide Candidate, Fresh, Keys, Listed, ParagraphCandidates;
      var bodyTokens := TokenSet(paragraph.text, tokenize);
      ghost var before := [];
      findings := [];
      NothingFresh(emitted);
      for i := 0 to |entries|
        invariant findings == Fresh(old(emitted), before)
        invariant emitted == old(emitted) + Keys(before)
        invariant before + ParagraphCandidates(spec, paragraph, entries[i..], tokenize)
               == ParagraphCandidates(spec, paragraph, entries, tokenize)
      {
        ghost var more := Candidate(spec, paragraph, entries[i], tokenize);
        ParagraphStep(spec, paragraph, entries, i, tokenize, before);
        var found := FindingForEntry(spec, paragraph, entries[i], tokenize, bodyTokens, listed);
        FreshConcat(old(emitted), before, more);
        KeysMore(old(emitted), before, more);
        findings := findings + found;
        before := before + more;
      }
      ParagraphEnd(spec, paragraph, entries, tokenize, before);
    }

    method FindingsForSpec(spec: SpecBody, entries: seq<Entry>, tokenize: Tokenizer)
        returns (findings: seq<Finding>)
      modifies this
      ensures findings == Fresh(old(emitted), SpecCandidates(spec, spec.paragraphs, entries, tokenize))
      ensures emitted == old(emitted) + Keys(SpecCandidates(spec, spec.paragraphs, entries, tokenize))
    {
      var listed := (set s | s in spec.relatedSections) + (set s | s in spec.bodyCitedSections);
      assert forall s :: s in listed <==> Listed(spec, s);
      hide ParagraphCandidates, Fresh, Keys, Listed, SpecCandidates;
      ghost var before := [];
      findings := [];
      NothingFresh(emitted);
      for i := 0 to |spec.paragraphs|
        invariant findings == Fresh(old(emitted), before)
        invariant emitted == old(emitted) + Keys(before)
        invariant before + SpecCandidates(spec, spec.paragraphs[i..], entries, tokenize)
               == SpecCandidates(spec, spec.paragraphs, entries, tokenize)
      {
        ghost var more := ParagraphCandidates(spec, spec.paragraphs[i], entries, tokenize);
        SpecStep(spec, spec.paragraphs, i, entries, tokenize, before);
        var found := FindingsForParagraph(spec, spec.paragraphs[i], entries, tokenize, listed);
        FreshConcat(old(emitted), before, more);
        KeysMore(old(emitted), before, more);
        findings := findings + found;
        before := before + more;
      }
      SpecEnd(spec, spec.paragraphs, entries, tokenize, before);
    }
  }

  method FindImpliedRelatedSections(specs: seq<SpecBody>, entries: seq<Entry>, tokenize: Tokenizer)
      returns (findings: seq<Finding>)
    ensures findings == Report(specs, entries, tokenize)
  {
    hide SpecCandidates, Fresh, Keys, AllCandidates;
    var finder := new Finder();
    ghost var before := [];
    findings := [];
    NothingFresh({});
    for i := 0 to |specs|
      invariant findings == Fresh({}, before)
      invariant finder.emitted == {} + Keys(before)
      invariant before + AllCandidates(specs[i..], entries, tokenize) == AllCandidates(specs, entries, tokenize)
    {
      ghost var more := SpecCandidates(specs[i], specs[i].paragraphs, entries, tokenize);
      AllStep(specs, i, entries, tokenize, before);
      var found := finder.FindingsForSpec(specs[i], entries, tokenize);
      FreshConcat({}, before, more);
      KeysMore({}, before, more);
      findings := findings + found;
      before := before + more;
    }
    AllEnd(specs, entries, tokenize, before);
  }

  lemma NothingFresh(emitted: set<string>)
    ensures Fresh(emitted, []) == [] && emitted + Keys([]) == emitted
  {
  }

  lemma KeysMore(emitted: set<string>, before: seq<Finding>, more: seq<Finding>)
    ensures emitted + Keys(before) + Keys(more) == emitted + Keys(before + more)
  {
    KeysConcat(before, more);
  }

  lemma ParagraphStep(spec: SpecBody, paragraph: SourceParagraph, entries: seq<Entry>, i: nat, tokenize: Tokenizer,
                      before: seq<Finding>)
    requires i < |entries|
    ensures before + Candidate(spec, paragraph, entries[i], tokenize)
              + ParagraphCandidates(spec, paragraph, entries[i + 1..], tokenize)
         == before + ParagraphCandidates(spec, paragraph, entries[i..], tokenize)
  {
    hide Candidate;
    assert entries[i..][1..] == entries[i + 1..];
  }

  lemma ParagraphEnd(spec: SpecBody, paragraph: SourceParagraph, entries: seq<Entry>, tokenize: Tokenizer,
                     before: seq<Finding>)
    ensures before + ParagraphCandidates(spec, paragraph, entries[|entries|..], tokenize) == before
  {
  }

  lemma SpecStep(spec: SpecBody, paragraphs: seq<SourceParagraph>, i: nat, entries: seq<Entry>, tokenize: Tokenizer,
                 before: seq<Finding>)
    requires i < |paragraphs|
    ensures before + ParagraphCandidates(spec, paragraphs[i], entries, tokenize)
              + SpecCandidates(spec, paragraphs[i + 1..], entries, tokenize)
         == before + SpecCandidates(spec, paragraphs[i..], entries, tokenize)
  {
    hide ParagraphCandidates;
    assert paragraphs[i..][1..] == paragraphs[i + 1..];
  }

  lemma SpecEnd(spec: SpecBody, paragraphs: seq<SourceParagraph>, entries: seq<Entry>, tokenize: Tokenizer,
                before: seq<Finding>)
    ensures before + SpecCandidates(spec, paragraphs[|paragraphs|..], entries, tokenize) == before
  {
  }

  lemma AllStep(specs: seq<SpecBody>, i: nat, entries: seq<Entry>, tokenize: Tokenizer, before: seq<Finding>)
    requires i < |specs|
    ensures before + SpecCandidates(specs[i], specs[i].paragraphs, entries, tokenize)
              + AllCandidates(specs[i + 1..], entries, tokenize)
         == before + AllCandidates(specs[i..], entries, tokenize)
  {
    hide SpecCandidates;
    assert specs[i..][1..] == specs[i + 1..];
  }

  lemma AllEnd(specs: seq<SpecBody>, entries: seq<Entry>, tokenize: Tokenizer, before: seq<Finding>)
    ensures before + AllCandidates(specs[|specs|..], entries, tokenize) == before
  {
  }

  // ---------------------------------------------------------------- what is reported

  function OfKey(key: string): Finding -> bool {
    (f: Finding) => KeyOf(f) == key
  }

  function OfPair(specId: string, section: string): Finding -> bool {
    (f: Finding) => f.sourceSpecId == specId && f.impliedSection == section
  }

  function OfSection(section: string): Finding -> bool {
    (f: Finding) => f.impliedSection == section
  }

  function First(s: seq<Finding>): seq<Finding> {
    if s == [] then [] else [s[0]]
  }

  /** Of every key exactly the first candidate is reported, unless the key was there before. */
  lemma {:induction false} ReportedOnce(emitted: set<string>, findings: seq<Finding>, key: string)
    ensures Filter(OfKey(key), Fresh(emitted, findings))
         == if key in emitted then [] else First(Filter(OfKey(key), findings))
    decreases |findings|
  {
    if findings != [] {
      hide FindingKey;
      var k := KeyOf(findings[0]);
      var rest := if k in emitted then emitted else emitted + {k};
      ReportedOnce(rest, findings[1..], key);
      if k !in emitted {
        var later := Fresh(rest, findings[1..]);
        assert ([findings[0]] + later)[1..] == later;
      }
    }
  }

  /** Each paragraph's entry that matches, with the section it implies. */
  ghost predicate ImpliedBy(paragraph: SourceParagraph, entries: seq<Entry>, tokenize: Tokenizer, section: string) {
    exists i :: 0 <= i < |entries| && Implies(entries[i], paragraph, tokenize, section)
  }

  predicate Implies(entry: Entry, paragraph: SourceParagraph, tokenize: Tokenizer, section: string) {
    entry.section == section && MatchEntry(entry, TokenSet(paragraph.text, tokenize)).Some?
  }

  /** `f` comes from the first entry for the section that the paragraph matches. */
  ghost predicate FromEntry(f: Finding, spec: SpecBody, paragraph: SourceParagraph, entries: seq<Entry>,
                            tokenize: Tokenizer, section: string) {
    exists i ::
      && 0 <= i < |entries| && Implies(entries[i], paragraph, tokenize, section)
      && (forall j :: 0 <= j < i ==> !Implies(entries[j], paragraph, tokenize, section))
      && f.sourceSpecId == spec.specId && f.sourceSpecSection == spec.section && f.sourceParagraphId == paragraph.id
      && f.impliedSection == section && f.impliedTitle == entries[i].title
      && MatchEntry(entries[i], TokenSet(paragraph.text, tokenize)) == Some(Match(f.matchedKeyword, f.confidence))
  }

  lemma CandidateOf(spec: SpecBody, paragraph: SourceParagraph, entry: Entry, tokenize: Tokenizer, section: string)
    ensures Filter(OfSection(section), Candidate(spec, paragraph, entry, tokenize))
         == if section == spec.section || Listed(spec, section) || !Implies(entry, paragraph, tokenize, section) then []
            else [ToFinding(spec, paragraph, entry, MatchEntry(entry, TokenSet(paragraph.text, tokenize)).value)]
  {
    hide Listed, MatchEntry, TokenSet;
  }

  lemma {:induction false} ParagraphAnchor(spec: SpecBody, paragraph: SourceParagraph, entries: seq<Entry>,
                                           tokenize: Tokenizer, section: string)
    ensures var hits := Filter(OfSection(section), ParagraphCandidates(spec, paragraph, entries, tokenize));
            if section == spec.section || Listed(spec, section) then hits == []
            else && (hits != [] <==> ImpliedBy(paragraph, entries, tokenize, section))
                 && (hits != [] ==> FromEntry(hits[0], spec, paragraph, entries, tokenize, section))
  {
    if entries != [] {
      hide Candidate, Implies, Listed, OfSection, ToFinding, MatchEntry, TokenSet;
      CandidateOf(spec, paragraph, entries[0], tokenize, section);
      ParagraphAnchor(spec, paragraph, entries[1..], tokenize, section);
      FilterConcat(OfSection(section), Candidate(spec, paragraph, entries[0], tokenize),
                   ParagraphCandidates(spec, paragraph, entries[1..], tokenize));
      ImpliedShift(paragraph, entries, tokenize, section);
      if Implies(entries[0], paragraph, tokenize, section) {
        FromFirst(spec, paragraph, entries, tokenize, section);
      } else if section != spec.section && !Listed(spec, section) {
        var hits := Filter(OfSection(section), ParagraphCandidates(spec, paragraph, entries[1..], tokenize));
        if hits != [] {
          FromShift(hits[0], spec, paragraph, entries, tokenize, section);
        }
      }
    }
  }

  lemma ImpliedShift(paragraph: SourceParagraph, entries: seq<Entry>, tokenize: Tokenizer, section: string)
    requires entries != []
    ensures ImpliedBy(paragraph, entries, tokenize, section)
       <==> Implies(entries[0], paragraph, tokenize, section) || ImpliedBy(paragraph, entries[1..], tokenize, section)
  {
    hide Implies;
    if ImpliedBy(paragraph, entries[1..], tokenize, section) {
      var i :| 0 <= i < |entries[1..]| && Implies(entries[1..][i], paragraph, tokenize, section);
      assert Implies(entries[i + 1], paragraph, tokenize, section);
    }
    if ImpliedBy(paragraph, entries, tokenize, section) {
      var i :| 0 <= i < |entries| && Implies(entries[i], paragraph, tokenize, section);
      assert i > 0 ==> Implies(entries[1..][i - 1], paragraph, tokenize, section);
    }
  }

  lemma FromFirst(spec: SpecBody, paragraph: SourceParagraph, entries: seq<Entry>, tokenize: Tokenizer, section: string)
    requires entries != [] && Implies(entries[0], paragraph, tokenize, section)
    ensures MatchEntry(entries[0], TokenSet(paragraph.text, tokenize)).Some?
    ensures FromEntry(ToFinding(spec, paragraph, entries[0], MatchEntry(entries[0], TokenSet(paragraph.text, tokenize)).value),
                      spec, paragraph, entries, tokenize, section)
  {
    hide MatchEntry, TokenSet;
  }

  lemma FromShift(f: Finding, spec: SpecBody, paragraph: SourceParagraph, entries: seq<Entry>, tokenize: Tokenizer,
                  section: string)
    requires entries != [] && !Implies(entries[0], paragraph, tokenize, section)
    requires FromEntry(f, spec, paragraph, entries[1..], tokenize, section)
    ensures FromEntry(f, spec, paragraph, entries, tokenize, section)
  {
    hide MatchEntry, TokenSet;
    var rest := entries[1..];
    var i :| && 0 <= i < |rest| && Implies(rest[i], paragraph, tokenize, section)
             && (forall j :: 0 <= j < i ==> !Implies(rest[j], paragraph, tokenize, section))
             && f.impliedTitle == rest[i].title
             && MatchEntry(rest[i], TokenSet(paragraph.text, tokenize)) == Some(Match(f.matchedKeyword, f.confidence));
    assert entries[i + 1] == rest[i];
    assert forall j :: 0 < j <= i ==> entries[j] == rest[j - 1];
  }

  /** `f` comes from the first paragraph that implies the section. */
  ghost predicate Anchored(f: Finding, spec: SpecBody, paragraphs: seq<SourceParagraph>, entries: seq<Entry>,
                           tokenize: Tokenizer, section: string) {
    exists p ::
      && 0 <= p < |paragraphs| && ImpliedBy(paragraphs[p], entries, tokenize, section)
      && (forall q :: 0 <= q < p ==> !ImpliedBy(paragraphs[q], entries, tokenize, section))
      && FromEntry(f, spec, paragraphs[p], entries, tokenize, section)
  }

  ghost predicate ImpliedIn(paragraphs: seq<SourceParagraph>, entries: seq<Entry>, tokenize: Tokenizer,
                            section: string) {
    exists p :: 0 <= p < |paragraphs| && ImpliedBy(paragraphs[p], entries, tokenize, section)
  }

  lemma {:induction false} SpecAnchor(spec: SpecBody, paragraphs: seq<SourceParagraph>, entries: seq<Entry>,
                                      tokenize: Tokenizer, section: string)
    ensures var hits := Filter(OfSection(section), SpecCandidates(spec, paragraphs, entries, tokenize));
            if section == spec.section || Listed(spec, section) then hits == []
            else && (hits != [] <==> ImpliedIn(paragraphs, entries, tokenize, section))
                 && (hits != [] ==> Anchored(hits[0], spec, paragraphs, entries, tokenize, section))
  {
    if paragraphs != [] {
      hide ParagraphCandidates, ImpliedBy, Listed, OfSection, FromEntry;
      var rest := paragraphs[1..];
      ParagraphAnchor(spec, paragraphs[0], entries, tokenize, section);
      SpecAnchor(spec, rest, entries, tokenize, section);
      FilterConcat(OfSection(section), ParagraphCandidates(spec, paragraphs[0], entries, tokenize),
                   SpecCandidates(spec, rest, entries, tokenize));
      InShift(paragraphs, entries, tokenize, section);
      var hits := Filter(OfSection(section), SpecCandidates(spec, rest, entries, tokenize));
      if section != spec.section && !Listed(spec, section) {
        if ImpliedBy(paragraphs[0], entries, tokenize, section) {
          var first := Filter(OfSection(section), ParagraphCandidates(spec, paragraphs[0], entries, tokenize));
          AnchoredFirst(first[0], spec, paragraphs, entries, tokenize, section);
        } else if hits != [] {
          AnchoredShift(hits[0], spec, paragraphs, entries, tokenize, section);
        }
      }
    }
  }

  lemma InShift(paragraphs: seq<SourceParagraph>, entries: seq<Entry>, tokenize: Tokenizer, section: string)
    requires paragraphs != []
    ensures ImpliedIn(paragraphs, entries, tokenize, section)
       <==> ImpliedBy(paragraphs[0], entries, tokenize, section) || ImpliedIn(paragraphs[1..], entries, tokenize, section)
  {
    hide ImpliedBy;
    if ImpliedIn(paragraphs[1..], entries, tokenize, section) {
      var p :| 0 <= p < |paragraphs[1..]| && ImpliedBy(paragraphs[1..][p], entries, tokenize, section);
      assert ImpliedBy(paragraphs[p + 1], entries, tokenize, section);
    }
    if ImpliedIn(paragraphs, entries, tokenize, section) {
      var p :| 0 <= p < |paragraphs| && ImpliedBy(paragraphs[p], entries, tokenize, section);
      assert p > 0 ==> ImpliedBy(paragraphs[1..][p - 1], entries, tokenize, section);
    }
  }

  lemma AnchoredFirst(f: Finding, spec: SpecBody, paragraphs: seq<SourceParagraph>, entries: seq<Entry>,
                      tokenize: Tokenizer, section: string)
    requires paragraphs != [] && ImpliedBy(paragraphs[0], entries, tokenize, section)
    requires FromEntry(f, spec, paragraphs[0], entries, tokenize, section)
    ensures Anchored(f, spec, paragraphs, entries, tokenize, section)
  {
    hide ImpliedBy, FromEntry;
  }

  lemma AnchoredShift(f: Finding, spec: SpecBody, paragraphs: seq<SourceParagraph>, entries: seq<Entry>,
                      tokenize: Tokenizer, section: string)
    requires paragraphs != [] && !ImpliedBy(paragraphs[0], entries, tokenize, section)
    requires Anchored(f, spec, paragraphs[1..], entries, tokenize, section)
    ensures Anchored(f, spec, paragraphs, entries, tokenize, section)
  {
    hide ImpliedBy, FromEntry;
    var rest := paragraphs[1..];
    var p :| && 0 <= p < |rest| && ImpliedBy(rest[p], entries, tokenize, section)
             && (forall q :: 0 <= q < p ==> !ImpliedBy(rest[q], entries, tokenize, section))
             && FromEntry(f, spec, rest[p], entries, tokenize, section);
    assert paragraphs[p + 1] == rest[p];
    assert forall q :: 0 < q <= p ==> paragraphs[q] == rest[q - 1];
  }

  // ---------------------------------------------------------------- order

  /** Candidates come in the order of the catalog within a paragraph, of paragraphs within a spec, of specs. */
  lemma {:induction false} CatalogOrder(spec: SpecBody, paragraph: SourceParagraph, a: seq<Entry>, b: seq<Entry>,
                                        tokenize: Tokenizer)
    ensures ParagraphCandidates(spec, paragraph, a + b, tokenize)
         == ParagraphCandidates(spec, paragraph, a, tokenize) + ParagraphCandidates(spec, paragraph, b, tokenize)
  {
    if a == [] {
      assert a + b == b;
    } else {
      hide Candidate;
      assert (a + b)[1..] == a[1..] + b;
      CatalogOrder(spec, paragraph, a[1..], b, tokenize);
    }
  }

  lemma {:induction false} ParagraphOrder(spec: SpecBody, a: seq<SourceParagraph>, b: seq<SourceParagraph>,
                                          entries: seq<Entry>, tokenize: Tokenizer)
    ensures SpecCandidates(spec, a + b, entries, tokenize)
         == SpecCandidates(spec, a, entries, tokenize) + SpecCandidates(spec, b, entries, tokenize)
  {
    if a == [] {
      assert a + b == b;
    } else {
      hide ParagraphCandidates;
      assert (a + b)[1..] == a[1..] + b;
      ParagraphOrder(spec, a[1..], b, entries, tokenize);
    }
  }

  lemma {:induction false} SpecOrder(a: seq<SpecBody>, b: seq<SpecBody>, entries: seq<Entry>, tokenize: Tokenizer)
    ensures AllCandidates(a + b, entries, tokenize)
         == AllCandidates(a, entries, tokenize) + AllCandidates(b, entries, tokenize)
  {
    if a == [] {
      assert a + b == b;
    } else {
      hide SpecCandidates;
      assert (a + b)[1..] == a[1..] + b;
      SpecOrder(a[1..], b, entries, tokenize);
    }
  }

  // ---------------------------------------------------------------- several specs

  ghost predicate DistinctIds(specs: seq<SpecBody>) {
    forall i, j :: 0 <= i < j < |specs| ==> specs[i].specId != specs[j].specId
  }

  predicate ColonFree(specs: seq<SpecBody>) {
    forall i :: 0 <= i < |specs| ==> ':' !in specs[i].specId
  }

  ghost predicate AllFrom(findings: seq<Finding>, ids: set<string>) {
    forall f :: f in findings ==> f.sourceSpecId in ids
  }

  /** Behind an id without a colon the key tells id and section apart. */
  lemma KeyInjective(specId: string, section: string, otherId: string, otherSection: string)
    requires ':' !in specId && ':' !in otherId
    ensures FindingKey(specId, section) == FindingKey(otherId, otherSection)
       <==> specId == otherId && section == otherSection
  {
    var a, b := FindingKey(specId, section), FindingKey(otherId, otherSection);
    if a == b {
      IndexOfAfter(specId, ':', section);
      IndexOfAfter(otherId, ':', otherSection);
      assert |specId| == |otherId|;
      assert a[..|specId|] == specId && b[..|specId|] == otherId;
      assert a[|specId| + 1..] == section && b[|specId| + 1..] == otherSection;
    }
  }

  lemma {:induction false} ParagraphIds(spec: SpecBody, paragraph: SourceParagraph, entries: seq<Entry>,
                                        tokenize: Tokenizer)
    ensures AllFrom(ParagraphCandidates(spec, paragraph, entries, tokenize), {spec.specId})
  {
    if entries != [] {
      hide MatchEntry, TokenSet, Listed;
      ParagraphIds(spec, paragraph, entries[1..], tokenize);
    }
  }

  lemma {:induction false} SpecIds(spec: SpecBody, paragraphs: seq<SourceParagraph>, entries: seq<Entry>,
                                   tokenize: Tokenizer)
    ensures AllFrom(SpecCandidates(spec, paragraphs, entries, tokenize), {spec.specId})
  {
    if paragraphs != [] {
      hide ParagraphCandidates;
      ParagraphIds(spec, paragraphs[0], entries, tokenize);
      SpecIds(spec, paragraphs[1..], entries, tokenize);
    }
  }

  function Ids(specs: seq<SpecBody>): set<string> {
    set s | s in specs :: s.specId
  }

  lemma {:induction false} AllIds(specs: seq<SpecBody>, entries: seq<Entry>, tokenize: Tokenizer)
    ensures AllFrom(AllCandidates(specs, entries, tokenize), Ids(specs))
  {
    if specs != [] {
      hide SpecCandidates;
      SpecIds(specs[0], specs[0].paragraphs, entries, tokenize);
      AllIds(specs[1..], entries, tokenize);
      assert specs[0] in specs;
      assert Ids(specs[1..]) <= Ids(specs);
    }
  }

  lemma {:induction false} FilterSameOn(p: Finding -> bool, q: Finding -> bool, s: seq<Finding>)
    requires forall x :: x in s ==> p(x) == q(x)
    ensures Filter(p, s) == Filter(q, s)
  {
    if s != [] {
      assert s[0] in s;
      FilterSameOn(p, q, s[1..]);
    }
  }

  lemma {:induction false} FilterEmpty(p: Finding -> bool, s: seq<Finding>)
    requires forall x :: x in s ==> !p(x)
    ensures Filter(p, s) == []
  {
    if s != [] {
      assert s[0] in s;
      FilterEmpty(p, s[1..]);
    }
  }

  /** With distinct ids only the spec itself contributes candidates for its pair. */
  lemma {:induction false} OneSpec(specs: seq<SpecBody>, n: nat, entries: seq<Entry>, tokenize: Tokenizer,
                                   section: string)
    requires DistinctIds(specs) && n < |specs|
    ensures Filter(OfPair(specs[n].specId, section), AllCandidates(specs, entries, tokenize))
         == Filter(OfSection(section), SpecCandidates(specs[n], specs[n].paragraphs, entries, tokenize))
  {
    hide SpecCandidates;
    var of := OfPair(specs[n].specId, section);
    var first := SpecCandidates(specs[0], specs[0].paragraphs, entries, tokenize);
    var rest := AllCandidates(specs[1..], entries, tokenize);
    FilterConcat(of, first, rest);
    SpecIds(specs[0], specs[0].paragraphs, entries, tokenize);
    if n == 0 {
      AllIds(specs[1..], entries, tokenize);
      FilterSameOn(of, OfSection(section), first);
      FilterEmpty(of, rest) by {
        assert specs[0].specId !in Ids(specs[1..]);
      }
    } else {
      assert DistinctIds(specs[1..]);
      OneSpec(specs[1..], n - 1, entries, tokenize, section);
      FilterEmpty(of, first);
    }
  }

  lemma {:induction false} FreshMembers(emitted: set<string>, findings: seq<Finding>)
    ensures forall f :: f in Fresh(emitted, findings) ==> f in findings
    decreases |findings|
  {
    if findings != [] {
      hide KeyOf;
      FreshMembers(emitted, findings[1..]);
      FreshMembers(emitted + {KeyOf(findings[0])}, findings[1..]);
    }
  }

  /** Among findings of known colon-free ids the key says the same as the pair. */
  lemma KeyIsPair(findings: seq<Finding>, specs: seq<SpecBody>, n: nat, section: string)
    requires ColonFree(specs) && n < |specs| && AllFrom(findings, Ids(specs))
    ensures Filter(OfKey(FindingKey(specs[n].specId, section)), findings)
         == Filter(OfPair(specs[n].specId, section), findings)
  {
    hide FindingKey;
    var p, q := OfKey(FindingKey(specs[n].specId, section)), OfPair(specs[n].specId, section);
    forall f | f in findings ensures p(f) == q(f) {
      var s :| s in specs && s.specId == f.sourceSpecId;
      KeyInjective(specs[n].specId, section, f.sourceSpecId, f.impliedSection);
    }
    FilterSameOn(p, q, findings);
  }

  /**
   With distinct colon-free ids a pair of spec and section is reported exactly once if and only if
   the section is neither the spec's own nor listed and some paragraph implies it; the finding is
   then the one of the earliest such paragraph and its first matching entry.
   */
  lemma FinderExact(specs: seq<SpecBody>, n: nat, entries: seq<Entry>, tokenize: Tokenizer, section: string)
    requires DistinctIds(specs) && ColonFree(specs) && n < |specs|
    ensures var spec := specs[n];
            var reported := Filter(OfPair(spec.specId, section), Report(specs, entries, tokenize));
            && |reported| <= 1
            && (reported != [] <==> && section != spec.section
                                    && section !in spec.relatedSections && section !in spec.bodyCitedSections
                                    && ImpliedIn(spec.paragraphs, entries, tokenize, section))
            && (reported != [] ==> Anchored(reported[0], spec, spec.paragraphs, entries, tokenize, section))
  {
    var spec := specs[n];
    assert Listed(spec, section) <==> section in spec.relatedSections || section in spec.bodyCitedSections;
    hide Fresh, AllCandidates, SpecCandidates, OfKey, OfPair, Filter, FindingKey, Listed, ImpliedIn, Anchored, ColonFree,
         DistinctIds, Ids, AllFrom;
    var key := FindingKey(spec.specId, section);
    var all := AllCandidates(specs, entries, tokenize);
    ReportedOnce({}, all, key);
    AllIds(specs, entries, tokenize);
    FreshFrom(all, Ids(specs));
    KeyIsPair(all, specs, n, section);
    KeyIsPair(Fresh({}, all), specs, n, section);
    OneSpec(specs, n, entries, tokenize, section);
    SpecAnchor(spec, spec.paragraphs, entries, tokenize, section);
  }

  lemma FreshFrom(findings: seq<Finding>, ids: set<string>)
    requires AllFrom(findings, ids)
    ensures AllFrom(Fresh({}, findings), ids)
  {
    FreshMembers({}, findings);
  }

  /** Every finding is about one of the specs. */
  lemma FinderSound(specs: seq<SpecBody>, entries: seq<Entry>, tokenize: Tokenizer, f: Finding)
    requires f in Report(specs, entries, tokenize)
    ensures f.sourceSpecId in Ids(specs)
  {
    AllIds(specs, entries, tokenize);
    FreshMembers({}, AllCandidates(specs, entries, tokenize));
  }

  // ---------------------------------------------------------------- ids with colons

  ghost predicate KeysApart(findings: seq<Finding>) {
    forall f, g :: f in findings && g in findings && KeyOf(f) == KeyOf(g) ==>
                     f.sourceSpecId == g.sourceSpecId && f.impliedSection == g.impliedSection
  }

  ghost predicate HasPair(findings: seq<Finding>, f: Finding) {
    exists g :: g in findings && g.sourceSpecId == f.sourceSpecId && g.impliedSection == f.impliedSection
  }

  lemma ApartMissesNothing(all: seq<Finding>, f: Finding)
    requires KeysApart(all) && f in all
    ensures HasPair(Fresh({}, all), f)
  {
    hide FindingKey, Fresh, Filter;
    FreshMembers({}, all);
    var g := TheReported(all, f);
    assert g in all;
  }

  lemma MissesNothingApart(all: seq<Finding>, f: Finding, g: Finding)
    requires f in all && g in all && KeyOf(f) == KeyOf(g)
    requires HasPair(Fresh({}, all), f) && HasPair(Fresh({}, all), g)
    ensures f.sourceSpecId == g.sourceSpecId && f.impliedSection == g.impliedSection
  {
    hide KeyOf, Fresh, Filter;
    var a := TheReported(all, f);
    var c :| c in Fresh({}, all) && c.sourceSpecId == f.sourceSpecId && c.impliedSection == f.impliedSection;
    var d :| d in Fresh({}, all) && d.sourceSpecId == g.sourceSpecId && d.impliedSection == g.impliedSection;
    SamePairSameKey(c, f);
    SamePairSameKey(d, g);
    assert c == a && d == a;
  }

  /** Whatever the ids: no implied section is missed exactly when no two pairs share a key. */
  lemma NothingMissedIff(specs: seq<SpecBody>, entries: seq<Entry>, tokenize: Tokenizer)
    ensures var all := AllCandidates(specs, entries, tokenize);
            (forall f :: f in all ==> HasPair(Report(specs, entries, tokenize), f)) <==> KeysApart(all)
  {
    hide AllCandidates, KeyOf, Fresh, HasPair;
    var all := AllCandidates(specs, entries, tokenize);
    if KeysApart(all) {
      forall f | f in all ensures HasPair(Fresh({}, all), f) {
        ApartMissesNothing(all, f);
      }
    }
    if forall f :: f in all ==> HasPair(Fresh({}, all), f) {
      forall f, g | f in all && g in all && KeyOf(f) == KeyOf(g)
        ensures f.sourceSpecId == g.sourceSpecId && f.impliedSection == g.impliedSection
      {
        MissesNothingApart(all, f, g);
      }
    }
  }

  lemma SamePairSameKey(f: Finding, g: Finding)
    requires f.sourceSpecId == g.sourceSpecId && f.impliedSection == g.impliedSection
    ensures KeyOf(f) == KeyOf(g)
  {
  }

  /** The one reported finding with the key of a candidate. */
  lemma TheReported(all: seq<Finding>, f: Finding) returns (g: Finding)
    requires f in all
    ensures g in Fresh({}, all) && KeyOf(g) == KeyOf(f)
    ensures forall h :: h in Fresh({}, all) && KeyOf(h) == KeyOf(f) ==> h == g
    ensures Filter(OfKey(KeyOf(f)), all) != [] && g == Filter(OfKey(KeyOf(f)), all)[0]
  {
    hide FindingKey, Fresh;
    var of := OfKey(KeyOf(f));
    ReportedOnce({}, all, KeyOf(f));
    FilterMembers(of, all);
    FilterMembers(of, Fresh({}, all));
    assert f in Filter(of, all);
    g := Filter(of, all)[0];
    assert g in Filter(of, Fresh({}, all));
  }

  /** A spec with one paragraph, where one of two one-keyword entries is not listed. */
  lemma OnePump(spec: SpecBody, entries: seq<Entry>, tokenize: Tokenizer, n: nat)
    requires spec.section == "x" && spec.paragraphs == [SourceParagraph("p", "pump")] && tokenize("pump") == ["pump"]
    requires |entries| == 2 && n < 2 && entries[0].section != "x" && entries[1].section != "x"
    requires entries[0].keywords == ["pump"] && entries[1].keywords == ["pump"]
    requires Listed(spec, entries[1 - n].section) && !Listed(spec, entries[n].section)
    ensures SpecCandidates(spec, spec.paragraphs, entries, tokenize)
         == [ToFinding(spec, SourceParagraph("p", "pump"), entries[n], Match("pump", BASE_CONFIDENCE))]
    ensures ImpliedIn(spec.paragraphs, entries, tokenize, entries[n].section)
  {
    var p := spec.paragraphs[0];
    forall k | 0 <= k < 2 ensures MatchEntry(entries[k], TokenSet("pump", tokenize)) == Some(Match("pump", BASE_CONFIDENCE)) {
      var keep := (x: string) => x in TokenSet("pump", tokenize);
      assert Filter(keep, entries[k].keywords[1..]) == [];
      assert Matched(entries[k], TokenSet("pump", tokenize)) == ["pump"];
    }
    hide MatchEntry, TokenSet, Listed;
    assert Implies(entries[n], p, tokenize, entries[n].section);
    assert ImpliedBy(p, entries, tokenize, entries[n].section);
    var expected := [ToFinding(spec, p, entries[n], Match("pump", BASE_CONFIDENCE))];
    assert Candidate(spec, p, entries[n], tokenize) == expected;
    assert Candidate(spec, p, entries[1 - n], tokenize) == [];
    hide Candidate, ToFinding;
    assert entries[1..] == [entries[1]] && entries[1..][1..] == [];
    assert ParagraphCandidates(spec, p, [], tokenize) == [];
    assert ParagraphCandidates(spec, p, entries[1..], tokenize) == Candidate(spec, p, entries[1], tokenize);
    assert ParagraphCandidates(spec, p, entries, tokenize) == expected;
    assert spec.paragraphs[1..] == [];
    assert SpecCandidates(spec, [], entries, tokenize) == [];
  }

  /** Ids with colons can miss a section: `a` with `b:c` takes the key of `a:b` with `c`. */
  lemma ColonHidesSection(tokenize: Tokenizer)
    requires tokenize("pump") == ["pump"]
    ensures var entries := [Entry("b:c", "", ["pump"]), Entry("c", "", ["pump"])];
            var paragraphs := [SourceParagraph("p", "pump")];
            var specs := [SpecBody("a", "x", ["c"], [], paragraphs), SpecBody("a:b", "x", ["b:c"], [], paragraphs)];
            && ImpliedIn(paragraphs, entries, tokenize, "c") && !Listed(specs[1], "c")
            && Filter(OfPair("a:b", "c"), Report(specs, entries, tokenize)) == []
  {
    var entries := [Entry("b:c", "", ["pump"]), Entry("c", "", ["pump"])];
    var paragraphs := [SourceParagraph("p", "pump")];
    var one, two := SpecBody("a", "x", ["c"], [], paragraphs), SpecBody("a:b", "x", ["b:c"], [], paragraphs);
    hide SpecCandidates, ImpliedIn, FindingKey;
    OnePump(one, entries, tokenize, 0);
    OnePump(two, entries, tokenize, 1);
    var f := ToFinding(one, paragraphs[0], entries[0], Match("pump", BASE_CONFIDENCE));
    var g := ToFinding(two, paragraphs[0], entries[1], Match("pump", BASE_CONFIDENCE));
    ColonKeys();
    assert KeyOf(f) == KeyOf(g) && OfPair("a:b", "c")(f) == false;
    hide KeyOf, ToFinding, Listed, OfPair;
    TwoSpecs(one, two, entries, tokenize, f, g);
    hide AllCandidates;
    TwoSameKey(f, g);
    assert [f][1..] == [];
  }

  lemma ColonKeys()
    ensures FindingKey("a", "b:c") == FindingKey("a:b", "c")
  {
  }

  lemma TwoSpecs(one: SpecBody, two: SpecBody, entries: seq<Entry>, tokenize: Tokenizer, f: Finding, g: Finding)
    requires SpecCandidates(one, one.paragraphs, entries, tokenize) == [f]
    requires SpecCandidates(two, two.paragraphs, entries, tokenize) == [g]
    ensures AllCandidates([one, two], entries, tokenize) == [f, g]
  {
    hide SpecCandidates;
    assert [one, two][1..] == [two] && [two][1..] == [];
    assert AllCandidates([], entries, tokenize) == [];
    assert AllCandidates([two], entries, tokenize) == [g];
  }

  lemma TwoSameKey(f: Finding, g: Finding)
    requires KeyOf(f) == KeyOf(g)
    ensures Fresh({}, [f, g]) == [f]
  {
    hide KeyOf;
    assert [f, g][1..] == [g] && [g][1..] == [];
    var key := KeyOf(f);
    assert {} + {key} == {key};
    assert Fresh({key}, [g]) == [];
  }
}
