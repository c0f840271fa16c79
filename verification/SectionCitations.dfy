/**
 The texts `formatSectionReferences` of src/lib/section-number.ts rewrites, described without the
 scanner: every citation is replaced by its form, and nothing else is touched.
 */
module SectionCitations {
  import opened Text
  import opened SectionNumber
  import opened SectionReferences
  import opened SectionRewriting
  import opened SectionWriting

  // ---------------------------------------------------------------- citations

  /** `section`, each letter in either case. */
  predicate IsKeyword(s: string) {
    |s| == 7 && forall k :: 0 <= k < 7 ==> s[k] == "section"[k] || s[k] == "SECTION"[k]
  }

  datatype Reference = Reference(keyword: string, gap: string, number: Written, rest: string)

  ghost predicate IsReference(c: Reference) {
    && IsKeyword(c.keyword)
    && c.gap != "" && AllWhite(c.gap)
    && IsWritten(c.number) && OnOneLine(c.number)
    && StopsAt(c.number.parts.tail, c.rest, Strong)
  }

  function ReferenceText(c: Reference): string {
    c.keyword + c.gap + WrittenText(c.number) + c.rest
  }

  /** A word character at the end of `s`, so that no word can begin behind it. */
  predicate EndsInWord(s: string) {
    && s != ""
    && var c := s[|s| - 1];
       'a' <= c <= 'z' || 'A' <= c <= 'Z' || '0' <= c <= '9' || c == '_'
  }

  // ---------------------------------------------------------------- the scanner finds exactly these

  lemma LetterIff(c: char, k: nat)
    requires k < 7
    ensures Lower(c) == "section"[k] <==> c == "section"[k] || c == "SECTION"[k]
  {
    assert "section" == ['s', 'e', 'c', 't', 'i', 'o', 'n'];
    assert "SECTION" == ['S', 'E', 'C', 'T', 'I', 'O', 'N'];
  }

  lemma KeywordIff(s: string)
    ensures KeywordAt(s) <==> |s| >= 7 && IsKeyword(s[..7])
  {
    hide Lower;
    if |s| >= 7 {
      forall k | 0 <= k < 7 ensures Lower(s[k]) == "section"[k] <==> s[k] == "section"[k] || s[k] == "SECTION"[k] {
        LetterIff(s[k], k);
      }
    }
  }

  lemma NumberOnly(s: string, f: Format)
    requires NumberIn(s, f, Strong).Some?
    ensures NumberOf(s) == NumberIn(s, f, Strong)
  {
    hide BaseOf, TailOf;
    forall g | g != f ensures BaseOf(s, g).None? {
      if BaseOf(s, g).Some? {
        BaseExclusive(s, f, g);
      }
    }
  }

  lemma WrittenStartsWithDigit(w: Written)
    requires IsWritten(w)
    ensures WrittenText(w) != "" && IsDigit(WrittenText(w)[0])
  {
    hide AllWhite;
  }

  lemma GapEaten(keyword: string, gap: string, behind: string)
    requires |keyword| == 7
    requires gap != "" && AllWhite(gap) && behind != "" && IsDigit(behind[0])
    ensures var s := keyword + gap + behind;
            |s| >= 7 && s[..7] == keyword && EatWhile(s[7..], IsSpace) == Some(Eaten(gap, behind))
  {
    hide AllWhite;
    AllWhiteIff(gap);
    Assoc(keyword, gap, behind);
    Cut(keyword, gap + behind);
    Cut(gap, behind);
    assert (gap + behind)[|gap|] == behind[0];
    SpanUnique(gap + behind, IsSpace, |gap|);
  }

  lemma Cut(a: string, b: string)
    ensures (a + b)[..|a|] == a && (a + b)[|a|..] == b
  {
  }

  /** A citation is found, cut as it was put together. */
  lemma ReferenceFound(c: Reference)
    requires IsReference(c)
    ensures CitationAt(false, ReferenceText(c))
         == Some(Citation(c.keyword + c.gap, WrittenText(c.number), NumberFor(c.number, c.rest)))
  {
    hide NumberOf, NumberIn, NumberText, IsWritten, AllWhite, StopsAt, WrittenText, EatWhile, KeywordAt;
    var w := c.number;
    var behind := WrittenText(w) + c.rest;
    WrittenStartsWithDigit(w);
    GapEaten(c.keyword, c.gap, behind);
    Assoc(c.keyword + c.gap, WrittenText(w), c.rest);
    KeywordIff(ReferenceText(c));
    WrittenIsRead(w, c.rest, Strong);
    NumberOnly(behind, w.format);
    TextOfWritten(w, c.rest);
  }

  lemma TextOfWritten(w: Written, rest: string)
    ensures NumberText(NumberFor(w, rest)) == WrittenText(w)
  {
  }

  /** Whatever is found is a citation. */
  lemma FoundReference(s: string)
    requires CitationAt(false, s).Some?
    ensures var found := CitationAt(false, s).value;
            var c := Reference(s[..7], found.prefix[7..], WrittenIn(found.number), found.Rest());
            && IsReference(c) && ReferenceText(c) == s
            && found.raw == WrittenText(c.number) && found.prefix == c.keyword + c.gap
  {
    hide NumberOf, NumberIn, NumberText, IsWritten, AllWhite, StopsAt, WrittenText, KeywordAt;
    var found := CitationAt(false, s).value;
    CitationEats(false, s);
    var gap := EatWhile(s[7..], IsSpace).value;
    AllWhiteIff(gap.text);
    KeywordIff(s);
    NumberOfIn(gap.rest);
    ReadIsWritten(gap.rest, found.number.format, Strong);
    assert found.prefix == s[..7] + gap.text && found.prefix[7..] == gap.text;
    Assoc(found.prefix, found.raw, found.Rest());
  }

  // ---------------------------------------------------------------- cutting a text before a keyword

  predicate StartsKeyword(s: string) {
    s != "" && (s[0] == 's' || s[0] == 'S')
  }

  lemma SameBeforeKeyword(s: string, b: string)
    requires StartsKeyword(b)
    ensures Same(s, s + b)
  {
    var n := Span(s, Numeric);
    SpanUnique(s + b, Numeric, n);
  }

  ghost predicate SameCitation(a: Option<Citation>, b: Option<Citation>, behind: string) {
    && a.Some? == b.Some?
    && (a.Some? ==>
          && b.value.prefix == a.value.prefix && b.value.raw == a.value.raw
          && b.value.number.Parts() == a.value.number.Parts() && b.value.Rest() == a.value.Rest() + behind)
  }

  /** Text that starts with a keyword does not change which citation stands before it. */
  lemma CitationBefore(afterWord: bool, s: string, b: string)
    requires s != "" && !EndsInWord(s) && StartsKeyword(b)
    ensures SameCitation(CitationAt(afterWord, s), CitationAt(afterWord, s + b), b)
  {
    hide NumberOf, NumberText, EatWhile, Same;
    KeywordBefore(s, b);
    if KeywordAt(s) && !afterWord {
      var t := s + b;
      assert t[7..] == s[7..] + b && t[..7] == s[..7];
      SameBeforeKeyword(s[7..], b);
      WhileSame(s[7..], t[7..], IsSpace);
      if EatWhile(s[7..], IsSpace).Some? {
        var x, y := EatWhile(s[7..], IsSpace).value.rest, EatWhile(t[7..], IsSpace).value.rest;
        NumberSame(x, y);
        if NumberOf(x).Some? {
          CitationEats(false, s);
          CitationEats(false, t);
          var c, d := CitationAt(false, s).value, CitationAt(false, t).value;
          RestBefore(c.prefix, c.raw, c.Rest(), d.Rest(), b);
        }
      }
    }
  }

  lemma RestBefore(prefix: string, raw: string, rest: string, longer: string, b: string)
    requires prefix + (raw + rest) + b == prefix + (raw + longer)
    ensures longer == rest + b
  {
    var n := |prefix| + |raw|;
    assert (prefix + (raw + longer))[n..] == longer;
    assert (prefix + (raw + rest) + b)[n..] == rest + b;
  }

  lemma KeywordBefore(s: string, b: string)
    requires s != "" && !EndsInWord(s)
    ensures KeywordAt(s) == KeywordAt(s + b)
  {
    var t := s + b;
    if |s| >= 7 {
      assert forall k :: 0 <= k < 7 ==> t[k] == s[k];
    } else {
      var k := |s| - 1;
      LetterIff(s[k], k);
      assert t[k] == s[k];
    }
  }

  /** A text is rewritten up to a keyword and from there on, one by one. */
  lemma {:induction false} RewriteSplit(afterWord: bool, s: string, b: string, f: Format)
    requires StartsKeyword(b) && (s == "" ==> !afterWord) && !EndsInWord(s)
    ensures Rewrite(afterWord, s + b, f) == Rewrite(afterWord, s, f) + Rewrite(false, b, f)
    decreases |s|
  {
    hide CitationAt, PrintForm, ValidParts, NumberText;
    if s == "" {
      assert s + b == b;
    } else {
      CitationBefore(afterWord, s, b);
      if CitationAt(afterWord, s).None? {
        var tail := s[1..];
        assert (s + b)[1..] == tail + b;
        RewriteSplit(IsWord(s[0]), tail, b, f);
        Assoc([s[0]], Rewrite(IsWord(s[0]), tail, f), Rewrite(false, b, f));
      } else {
        var c := CitationAt(afterWord, s).value;
        CitationEats(afterWord, s);
        CitationEats(afterWord, s + b);
        LastOf(c.prefix, c.raw, c.Rest());
        RewriteSplit(true, c.Rest(), b, f);
        Assoc(c.prefix + PrintForm(c.number.Parts(), f), Rewrite(true, c.Rest(), f), Rewrite(false, b, f));
      }
    }
  }

  lemma LastOf(prefix: string, raw: string, rest: string)
    requires raw != ""
    ensures var s := prefix + (raw + rest); s[|s| - 1] == if rest == "" then raw[|raw| - 1] else rest[|rest| - 1]
  {
  }

  // ---------------------------------------------------------------- the laws of rewriting

  /**
   Every citation that no word character precedes is rewritten: the keyword and the white space
   stay, the number takes its form, and what stands before and behind is rewritten on its own.
   A text starts with `afterWord` false; the text behind a rewritten number goes on with true.
   */
  lemma RewritesCitation(afterWord: bool, before: string, c: Reference, f: Format)
    requires !EndsInWord(before) && (before == "" ==> !afterWord) && IsReference(c)
    ensures Rewrite(afterWord, before + ReferenceText(c), f)
         == Rewrite(afterWord, before, f) + (c.keyword + c.gap + FormText(c.number.parts, f) + Rewrite(true, c.rest, f))
  {
    hide CitationAt, PrintForm, FormText, IsWritten, StopsAt, AllWhite, WrittenText, EndsInWord;
    ReferenceFound(c);
    PrintIsForm(c.number.parts, f);
    StartsReference(c);
    RewriteSplit(afterWord, before, ReferenceText(c), f);
  }

  lemma StartsReference(c: Reference)
    requires IsKeyword(c.keyword)
    ensures StartsKeyword(ReferenceText(c))
  {
    hide WrittenText;
    assert ReferenceText(c)[0] == c.keyword[0];
  }

  /** A citation starts at index `i`: no word character precedes it. */
  ghost predicate CitesAt(text: string, i: nat) {
    i <= |text| && !EndsInWord(text[..i]) && exists c: Reference :: IsReference(c) && ReferenceText(c) == text[i..]
  }

  lemma FoundCites(text: string, i: nat)
    requires i < |text| && CitationAt(EndsInWord(text[..i]), text[i..]).Some?
    ensures CitesAt(text, i)
  {
    hide CitationAt, IsReference, ReferenceText;
    CitationEats(EndsInWord(text[..i]), text[i..]);
    FoundReference(text[i..]);
  }

  /** A text in which no citation starts is never changed. */
  lemma {:induction false} NeverRewritten(text: string, i: nat, f: Format)
    requires i <= |text| && forall j :: i <= j < |text| ==> !CitesAt(text, j)
    ensures Rewrite(EndsInWord(text[..i]), text[i..], f) == text[i..]
    decreases |text| - i
  {
    hide CitationAt;
    if i < |text| {
      var s := text[i..];
      if CitationAt(EndsInWord(text[..i]), s).Some? {
        FoundCites(text, i);
      } else {
        NeverRewritten(text, i + 1, f);
        assert s[1..] == text[i + 1..] && text[..i + 1] == text[..i] + [s[0]];
      }
    }
  }
}
