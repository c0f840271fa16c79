/**
 What `formatSectionReferences` of src/lib/section-number.ts does to a text: rewriting cited
 section numbers composes over formats and keeps every other character.
 */
module SectionRewriting {
  import opened Text
  import opened SectionNumber
  import opened SectionReferences

  // ---------------------------------------------------------------- a matched number parses

  lemma {:induction false} CollapseText(a: string, s: string)
    requires forall k :: 0 <= k < |a| ==> !IsSpace(a[k])
    ensures CollapseRuns(a + s) == a + CollapseRuns(s)
  {
    if a == "" {
      assert a + s == s;
    } else {
      assert (a + s)[1..] == a[1..] + s;
      CollapseText(a[1..], s);
    }
  }

  lemma {:induction false} CollapseSpaces(gap: string, s: string)
    requires gap != "" && forall k :: 0 <= k < |gap| ==> IsSpace(gap[k])
    requires s == "" || !IsSpace(s[0])
    ensures CollapseRuns(gap + s) == " " + CollapseRuns(s)
  {
    assert (gap + s)[1..] == gap[1..] + s;
    if |gap| == 1 {
      assert gap[1..] + s == s;
    } else {
      assert (gap + s)[1] == gap[1];
      CollapseSpaces(gap[1..], s);
    }
  }

  lemma CollapsePair(pair: string, s: string)
    requires Pair(pair)
    ensures CollapseRuns(pair + s) == pair + CollapseRuns(s)
  {
    CollapseText(pair, s);
  }

  /** A gap, then a pair of digits. */
  lemma CollapseGap(gap: string, separator: string, pair: string, s: string)
    requires IsGap(gap, separator) && Pair(pair)
    requires separator == "" || separator == " " || separator == "."
    ensures CollapseRuns(gap + (pair + s)) == separator + (pair + CollapseRuns(s))
  {
    CollapseText(pair, s);
    if separator == " " {
      CollapseSpaces(gap, pair + s);
    } else {
      CollapseText(gap, pair + s);
    }
  }

  lemma CollapseTail(t: TailMatch)
    requires ValidTail(t.tail) && (t.tail.Agency? ==> IsGap(t.gap, " "))
    ensures CollapseRuns(TailText(t)) == PrintTail(t.tail)
  {
    match t.tail
    case Bare =>
    case Suffix(suffix) =>
      CollapseText("." + suffix, "");
      assert "." + suffix + "" == "." + suffix;
    case Agency(suffix, agency) =>
      CollapseText("." + suffix, t.gap + (agency + ""));
      CollapseGap(t.gap, " ", agency, "");
      assert TailText(t) == "." + suffix + (t.gap + (agency + ""));
      assert PrintTail(t.tail) == "." + suffix + (" " + (agency + ""));
  }

  lemma CollapseNumber(n: Number)
    requires ValidParts(n.Parts())
    requires IsGap(n.base.gap1, Separator1(n.format)) && IsGap(n.base.gap2, Separator2(n.format))
    requires n.tail.tail.Agency? ==> IsGap(n.tail.gap, " ")
    ensures Collapse(NumberText(n)) == PrintForm(n.Parts(), n.format)
  {
    hide CollapseRuns, Pair, Trim, IsGap;
    var b, tail := n.base, TailText(n.tail);
    var printed := PrintTail(n.tail.tail);
    CollapseTail(n.tail);
    CollapseGap(b.gap2, Separator2(n.format), b.third, tail);
    CollapseGap(b.gap1, Separator1(n.format), b.second, b.gap2 + (b.third + tail));
    CollapsePair(b.first, b.gap1 + (b.second + (b.gap2 + (b.third + tail))));
    Nested(b.first, b.gap1, b.second, b.gap2, b.third, tail);
    Nested(b.first, Separator1(n.format), b.second, Separator2(n.format), b.third, printed);
    TidyForm(n.Parts(), n.format);
    TidyCollapse(PrintForm(n.Parts(), n.format));
  }

  /** The parse that follows every match succeeds, with the parts and the format matched. */
  lemma MatchedParses(s: string, f: Format, context: Context)
    requires NumberIn(s, f, context).Some?
    ensures var n := NumberIn(s, f, context).value;
            ParseCandidate(NumberText(n), Strong) == Ok(Parsed(PrintForm(n.Parts(), Canonical), f))
  {
    var n := NumberIn(s, f, context).value;
    NumberEats(s, f, context);
    CollapseNumber(n);
    ParseCollapsed(NumberText(n), Strong);
    ParseTidy(PrintForm(n.Parts(), f), f, n.Parts());
  }

  // ---------------------------------------------------------------- what a number depends on

  predicate Numeric(c: char) {
    IsDigit(c) || c == '.' || IsSpace(c)
  }

  /** Equal up to the first character that is neither digit, dot nor white space. */
  ghost predicate Same(s: string, t: string) {
    var n := Span(s, Numeric);
    n == Span(t, Numeric) && forall i :: 0 <= i < n ==> s[i] == t[i]
  }

  lemma SameFrom(s: string, t: string, k: nat)
    requires Same(s, t) && k <= Span(s, Numeric)
    ensures s[..k] == t[..k] && Same(s[k..], t[k..])
  {
    var n := Span(s, Numeric);
    SpanUnique(s[k..], Numeric, n - k);
    SpanUnique(t[k..], Numeric, n - k);
  }

  lemma SameAt(s: string, t: string, k: nat)
    requires Same(s, t) && k <= Span(s, Numeric)
    ensures DigitAt(s, k) == DigitAt(t, k)
    ensures CharAt(s, k, '.') == CharAt(t, k, '.')
  {
  }

  ghost predicate SameEaten(a: Option<Eaten>, b: Option<Eaten>) {
    a.Some? == b.Some? && (a.Some? ==> a.value.text == b.value.text && Same(a.value.rest, b.value.rest))
  }

  lemma PairSame(s: string, t: string)
    requires Same(s, t)
    ensures SameEaten(EatPair(s), EatPair(t))
  {
    SameAt(s, t, 0);
    if DigitAt(s, 0) {
      SameAt(s, t, 1);
      if DigitAt(s, 1) {
        SameFrom(s, t, 2);
      }
    }
  }

  lemma WhileSame(s: string, t: string, p: char -> bool)
    requires Same(s, t) && forall c :: p(c) ==> Numeric(c)
    ensures SameEaten(EatWhile(s, p), EatWhile(t, p))
  {
    var n := Span(s, p);
    assert n <= Span(s, Numeric);
    SameFrom(s, t, n);
    assert forall k :: 0 <= k < n ==> t[k] == t[..n][k] == s[k];
    if n < Span(s, Numeric) {
      SameFrom(s, t, n + 1);
      assert s[n] == s[..n + 1][n] == t[n];
    }
    SpanUnique(t, p, n);
  }

  lemma GapSame(s: string, t: string, separator: string)
    requires Same(s, t)
    requires separator == "" || separator == " " || separator == "."
    ensures SameEaten(EatGap(s, separator), EatGap(t, separator))
  {
    if separator == " " {
      WhileSame(s, t, IsSpace);
    } else if separator == "." {
      SameAt(s, t, 0);
      if CharAt(s, 0, '.') {
        SameFrom(s, t, 1);
      }
    }
  }

  ghost predicate SameTail(a: Option<TailMatch>, b: Option<TailMatch>) {
    && a.Some? == b.Some?
    && (a.Some? ==> a.value.tail == b.value.tail && a.value.gap == b.value.gap && Same(a.value.rest, b.value.rest))
  }

  lemma SuffixSame(s: string, t: string)
    requires Same(s, t)
    ensures SameTail(SuffixTail(s), SuffixTail(t))
  {
    SameAt(s, t, 0);
    if CharAt(s, 0, '.') {
      SameFrom(s, t, 1);
      PairSame(s[1..], t[1..]);
      if EatPair(s[1..]).Some? {
        SameAt(EatPair(s[1..]).value.rest, EatPair(t[1..]).value.rest, 0);
      }
    }
  }

  lemma AgencySame(s: string, t: string)
    requires Same(s, t)
    ensures SameTail(AgencyTail(s), AgencyTail(t))
  {
    hide SuffixTail, EatWhile, EatPair, Same;
    SuffixSame(s, t);
    if SuffixTail(s).Some? {
      var s1, t1 := SuffixTail(s).value.rest, SuffixTail(t).value.rest;
      WhileSame(s1, t1, IsBlank);
      if EatWhile(s1, IsBlank).Some? {
        var s2, t2 := EatWhile(s1, IsBlank).value.rest, EatWhile(t1, IsBlank).value.rest;
        PairSame(s2, t2);
        if EatPair(s2).Some? {
          SameAt(EatPair(s2).value.rest, EatPair(t2).value.rest, 0);
        }
      }
    }
  }

  lemma GuardsSame(s: string, t: string, context: Context)
    requires Same(s, t)
    ensures Guards(s, context) == Guards(t, context)
  {
    SameAt(s, t, 0);
    if CharAt(s, 0, '.') {
      SameAt(s, t, 1);
    }
  }

  lemma TailSame(s: string, t: string, context: Context)
    requires Same(s, t)
    ensures SameTail(TailOf(s, context), TailOf(t, context))
  {
    hide AgencyTail, SuffixTail, Guards, Same;
    AgencySame(s, t);
    SuffixSame(s, t);
    GuardsSame(s, t, context);
    if AgencyTail(s).Some? {
      GuardsSame(AgencyTail(s).value.rest, AgencyTail(t).value.rest, context);
    }
    if SuffixTail(s).Some? {
      GuardsSame(SuffixTail(s).value.rest, SuffixTail(t).value.rest, context);
    }
  }

  /** A base read with the same texts before equal rests. */
  ghost predicate SameBase(a: Option<Base>, b: Option<Base>) {
    && a.Some? == b.Some?
    && (a.Some? ==> a.value == b.value.(rest := a.value.rest) && Same(a.value.rest, b.value.rest))
  }

  lemma BaseSame(s: string, t: string, f: Format)
    requires Same(s, t)
    ensures SameBase(BaseOf(s, f), BaseOf(t, f))
  {
    hide EatPair, EatGap, Same;
    PairSame(s, t);
    if EatPair(s).Some? {
      var s1, t1 := EatPair(s).value.rest, EatPair(t).value.rest;
      GapSame(s1, t1, Separator1(f));
      if EatGap(s1, Separator1(f)).Some? {
        var s2, t2 := EatGap(s1, Separator1(f)).value.rest, EatGap(t1, Separator1(f)).value.rest;
        PairSame(s2, t2);
        if EatPair(s2).Some? {
          var s3, t3 := EatPair(s2).value.rest, EatPair(t2).value.rest;
          GapSame(s3, t3, Separator2(f));
          if EatGap(s3, Separator2(f)).Some? {
            PairSame(EatGap(s3, Separator2(f)).value.rest, EatGap(t3, Separator2(f)).value.rest);
          }
        }
      }
    }
  }

  ghost predicate SameNumber(a: Option<Number>, b: Option<Number>) {
    && a.Some? == b.Some?
    && (a.Some? ==>
          && a.value.format == b.value.format && a.value.Parts() == b.value.Parts()
          && NumberText(a.value) == NumberText(b.value)
          && Same(a.value.tail.rest, b.value.tail.rest))
  }

  lemma NumberInSame(s: string, t: string, f: Format)
    requires Same(s, t)
    ensures SameNumber(NumberIn(s, f, Strong), NumberIn(t, f, Strong))
  {
    hide BaseOf, TailOf, Same;
    BaseSame(s, t, f);
    if BaseOf(s, f).Some? {
      TailSame(BaseOf(s, f).value.rest, BaseOf(t, f).value.rest, Strong);
    }
  }

  /** Which number is matched depends on the numeric characters at the head only. */
  lemma NumberSame(s: string, t: string)
    requires Same(s, t)
    ensures SameNumber(NumberOf(s), NumberOf(t))
  {
    hide NumberIn, SameNumber;
    SameMatch();
    forall f ensures SameNumber(NumberIn(s, f, Strong), NumberIn(t, f, Strong)) {
      NumberInSame(s, t, f);
    }
  }

  lemma SameMatch()
    ensures forall a, b {:trigger SameNumber(a, b)} :: SameNumber(a, b) ==> a.Some? == b.Some?
  {
  }

  // ---------------------------------------------------------------- printing a matched number

  lemma EatPrintedPair(pair: string, rest: string)
    requires Pair(pair)
    ensures EatPair(pair + rest) == Some(Eaten(pair, rest))
  {
    assert (pair + rest)[..2] == pair;
  }

  lemma EatPrintedGap(separator: string, pair: string, rest: string)
    requires separator == "" || separator == " " || separator == "."
    requires Pair(pair)
    ensures EatGap(separator + (pair + rest), separator) == Some(Eaten(separator, pair + rest))
  {
    var s := separator + (pair + rest);
    if separator == "" {
      assert s == pair + rest;
    } else {
      assert s[..1] == separator && s[1..] == pair + rest && s[1] == pair[0];
      if separator == " " {
        SpanUnique(s, IsSpace, 1);
      }
    }
  }

  /** A base printed in a format is matched in that format, whatever follows. */
  lemma BaseReprint(p: Parts, f: Format, rest: string)
    requires ValidParts(p)
    ensures BaseOf(PrintBase(p, f) + rest, f)
         == Some(Base(p.first, Separator1(f), p.second, Separator2(f), p.third, rest))
  {
    hide EatPair, EatGap, Pair;
    var sep1, sep2 := Separator1(f), Separator2(f);
    var third := p.third + rest;
    var second := p.second + (sep2 + third);
    Nested(p.first, sep1, p.second, sep2, p.third, rest);
    EatPrintedPair(p.first, sep1 + second);
    EatPrintedGap(sep1, p.second, sep2 + third);
    EatPrintedPair(p.second, sep2 + third);
    EatPrintedGap(sep2, p.third, rest);
    EatPrintedPair(p.third, rest);
  }

  /** At most one of the four alternatives matches a base. */
  lemma BaseExclusive(s: string, f: Format, g: Format)
    requires BaseOf(s, f).Some? && BaseOf(s, g).Some?
    ensures f == g
  {
    hide BaseOf, BehindSecond;
    BaseShape(s, f);
    BaseShape(s, g);
  }

  /** The first character of a gap and the pair behind it. */
  lemma GapHead(gap: string, separator: string, pair: string)
    requires separator == "" || separator == " " || separator == "."
    requires IsGap(gap, separator) && Pair(pair)
    ensures gap + pair != ""
    ensures var c := (gap + pair)[0];
            if separator == "" then IsDigit(c) else if separator == "." then c == '.' else IsSpace(c)
  {
  }

  lemma BehindGap(s: string, gap: string, pair: string, behind: string)
    requires |s| > 2 && s[2..] == gap + (pair + behind)
    requires IsGap(gap, " ") && Pair(pair)
    ensures BehindSecond(s) <= |s| && s[BehindSecond(s)..] == behind
  {
    SpanUnique(s[2..], IsSpace, |gap|);
  }

  lemma BaseShape(s: string, f: Format)
    requires BaseOf(s, f).Some?
    ensures |s| > 2 && (f == Dots <==> s[2] == '.') && (f == Compact <==> IsDigit(s[2]))
    ensures f == Canonical ==> BehindSecond(s) < |s| && IsSpace(s[BehindSecond(s)])
    ensures f == SpacedCompact ==> BehindSecond(s) < |s| && IsDigit(s[BehindSecond(s)])
  {
    hide BaseOf, BehindSecond, IsGap;
    var b := BaseOf(s, f).value;
    BaseEats(s, f);
    GapHead(b.gap1, Separator1(f), b.second);
    GapHead(b.gap2, Separator2(f), b.third);
    var behind := b.gap2 + (b.third + b.rest);
    Nested(b.first, b.gap1, b.second, b.gap2, b.third, b.rest);
    assert s[2..] == b.gap1 + (b.second + behind) && |s| > 2;
    assert s[2] == (b.gap1 + b.second)[0];
    assert behind[0] == (b.gap2 + b.third)[0];
    if Separator1(f) == " " {
      BehindGap(s, b.gap1, b.second, behind);
    }
  }

  /** Index behind two pairs of digits with white space between them. */
  function BehindSecond(s: string): nat
    requires |s| > 2
  {
    2 + Span(s[2..], IsSpace) + 2
  }

  lemma TailReprint(s: string, rest: string)
    requires TailOf(s, Strong).Some? && Same(TailOf(s, Strong).value.rest, rest)
    ensures var tail := TailOf(s, Strong).value.tail;
            var gap := if tail.Agency? then " " else "";
            TailOf(PrintTail(tail) + rest, Strong) == Some(TailMatch(tail, gap, rest))
  {
    hide TailOf, Guards, Same;
    var t := TailOf(s, Strong).value;
    TailEats(s, Strong);
    GuardsSame(t.rest, rest, Strong);
    if t.tail.Agency? {
      AgencyReprint(t.tail.suffix, t.tail.agency, rest);
    } else {
      var printed := PrintTail(t.tail) + rest;
      ShortTail(s, Strong);
      ShortTailText(t);
      SameAppend(TailText(t), t.rest, rest);
      TailSame(s, printed, Strong);
      TailEats(printed, Strong);
      SameRest(TailText(t), TailOf(printed, Strong).value.rest, rest);
    }
  }

  lemma SameRest(text: string, a: string, b: string)
    requires text + a == text + b
    ensures a == b
  {
    assert (text + a)[|text|..] == a;
    assert (text + b)[|text|..] == b;
  }

  lemma ShortTailText(t: TailMatch)
    requires ValidTail(t.tail) && !t.tail.Agency?
    ensures TailText(t) == PrintTail(t.tail)
    ensures forall k :: 0 <= k < |TailText(t)| ==> Numeric(TailText(t)[k])
  {
  }

  lemma ShortTail(s: string, context: Context)
    requires TailOf(s, context).Some? && !TailOf(s, context).value.tail.Agency?
    ensures TailOf(s, context).value.gap == ""
  {
  }

  lemma SameAppend(text: string, s: string, t: string)
    requires Same(s, t) && forall k :: 0 <= k < |text| ==> Numeric(text[k])
    ensures Same(text + s, text + t)
  {
    var n := Span(s, Numeric);
    SpanUnique(text + s, Numeric, |text| + n);
    SpanUnique(text + t, Numeric, |text| + n);
  }

  lemma AgencyReprint(suffix: string, agency: string, rest: string)
    requires Pair(suffix) && Pair(agency) && Guards(rest, Strong)
    ensures TailOf("." + suffix + " " + agency + rest, Strong)
         == Some(TailMatch(Agency(suffix, agency), " ", rest))
  {
    var s := "." + suffix + " " + agency + rest;
    var behind := " " + (agency + rest);
    assert s[1..] == suffix + behind;
    EatPrintedPair(suffix, behind);
    assert SuffixTail(s) == Some(TailMatch(Suffix(suffix), "", behind));
    SpanUnique(behind, IsBlank, 1);
    assert EatWhile(behind, IsBlank) == Some(Eaten(" ", agency + rest));
    EatPrintedPair(agency, rest);
  }

  /** A matched number, printed in any format before an equal context, is matched again. */
  lemma NumberReprint(s: string, f0: Format, f: Format, rest: string)
    requires NumberIn(s, f0, Strong).Some?
    requires Same(NumberIn(s, f0, Strong).value.tail.rest, rest)
    ensures var p := NumberIn(s, f0, Strong).value.Parts();
            var again := NumberOf(PrintForm(p, f) + rest);
            && again.Some? && again.value.format == f && again.value.Parts() == p
            && again.value.tail.rest == rest && NumberText(again.value) == PrintForm(p, f)
  {
    hide BaseOf, TailOf, Same, PrintBase, PrintTail, TailText, BaseText;
    var n := NumberIn(s, f0, Strong).value;
    var p := n.Parts();
    NumberEats(s, f0, Strong);
    TailReprint(n.base.rest, rest);
    var text := PrintForm(p, f) + rest;
    assert text == PrintBase(p, f) + (PrintTail(p.tail) + rest);
    BaseReprint(p, f, PrintTail(p.tail) + rest);
    forall g | g != f ensures BaseOf(text, g).None? {
      if BaseOf(text, g).Some? {
        BaseExclusive(text, f, g);
      }
    }
    PrintedText(NumberIn(text, f, Strong).value);
  }

  lemma PrintedText(n: Number)
    requires n.base.gap1 == Separator1(n.format) && n.base.gap2 == Separator2(n.format)
    requires n.tail.tail.Agency? ==> n.tail.gap == " "
    ensures NumberText(n) == PrintForm(n.Parts(), n.format)
  {
  }

  // ---------------------------------------------------------------- rewriting a text

  /** The text with every citation printed in format `f`; `afterWord` as in `CitationAt`. */
  function Rewrite(afterWord: bool, s: string, f: Format): string
    decreases |s|
  {
    if s == "" then ""
    else
      var c := CitationAt(afterWord, s);
      if c.None? then [s[0]] + Rewrite(IsWord(s[0]), s[1..], f)
      else
        CitationEats(afterWord, s);
        c.value.prefix + PrintForm(c.value.number.Parts(), f) + Rewrite(true, c.value.Rest(), f)
  }

  lemma NumberOfIn(s: string)
    requires NumberOf(s).Some?
    ensures NumberIn(s, NumberOf(s).value.format, Strong) == NumberOf(s)
  {
    hide NumberIn;
    assert forall f :: NumberIn(s, f, Strong).Some? ==> NumberIn(s, f, Strong).value.format == f by {
      forall f | NumberIn(s, f, Strong).Some? ensures NumberIn(s, f, Strong).value.format == f {
        NumberEats(s, f, Strong);
      }
    }
  }

  lemma CitationEats(afterWord: bool, s: string)
    requires CitationAt(afterWord, s).Some?
    ensures var c := CitationAt(afterWord, s).value;
            && !afterWord && s == c.prefix + (c.raw + c.Rest())
            && |c.prefix| > 7 && c.prefix[..7] == s[..7] && KeywordAt(s)
            && c.raw != "" && IsDigit(c.raw[|c.raw| - 1])
            && c.raw == NumberText(c.number)
            && ValidParts(c.number.Parts())
  {
    hide NumberIn, NumberText, ValidParts;
    var gap := EatWhile(s[7..], IsSpace).value;
    var c := CitationAt(afterWord, s).value;
    NumberOfIn(gap.rest);
    NumberEats(gap.rest, c.number.format, Strong);
    EndsInDigit(c.number);
    assert s == s[..7] + s[7..];
  }

  lemma EndsInDigit(n: Number)
    requires ValidParts(n.Parts())
    ensures NumberText(n) != "" && IsDigit(NumberText(n)[|NumberText(n)| - 1])
  {
  }

  // The head of a text: everything before its next `s` or `S`, where a citation may start.

  predicate NoKeyword(c: char) {
    c != 's' && c != 'S'
  }

  ghost predicate SameHead(s: string, t: string) {
    var n := Span(s, NoKeyword);
    n == Span(t, NoKeyword) && forall i :: 0 <= i < n ==> s[i] == t[i]
  }

  /** Rewriting keeps the head. */
  lemma {:induction false} RewriteHead(afterWord: bool, s: string, f: Format)
    ensures SameHead(s, Rewrite(afterWord, s, f))
    decreases |s|
  {
    hide CitationAt, PrintForm, ValidParts, NumberText;
    if s == "" {
    } else if CitationAt(afterWord, s).Some? {
      CitationEats(afterWord, s);
      var c := CitationAt(afterWord, s).value;
      assert s[0] == s[..7][0] == c.prefix[..7][0] == c.prefix[0];
      assert Lower(s[0]) == "section"[0];
      SameHeadKeyword(s, Rewrite(afterWord, s, f));
    } else {
      var t := Rewrite(IsWord(s[0]), s[1..], f);
      RewriteHead(IsWord(s[0]), s[1..], f);
      SameHeadCons(s[0], s[1..], t);
      assert s == [s[0]] + s[1..];
    }
  }

  lemma SameHeadKeyword(s: string, t: string)
    requires s != "" && t != "" && s[0] == t[0] && !NoKeyword(s[0])
    ensures SameHead(s, t)
  {
  }

  lemma SameHeadCons(c: char, s: string, t: string)
    requires SameHead(s, t)
    ensures SameHead([c] + s, [c] + t)
  {
    if NoKeyword(c) {
      assert ([c] + s)[1..] == s && ([c] + t)[1..] == t;
    }
  }

  lemma NumericHead()
    ensures forall c :: Numeric(c) ==> NoKeyword(c)
  {
  }

  lemma SameHeadFrom(s: string, t: string, k: nat)
    requires SameHead(s, t) && k <= Span(s, NoKeyword)
    ensures s[..k] == t[..k] && Same(s[k..], t[k..])
  {
    NumericHead();
    hide NoKeyword, Numeric;
    var n, m := Span(s, NoKeyword), Span(s[k..], Numeric);
    assert forall i :: k <= i < k + m ==> s[i] == s[k..][i - k] && NoKeyword(s[i]);
    assert k + m <= n;
    assert m < n - k ==> t[k..][m] == s[k..][m];
    assert m == n - k && n < |t| ==> t[k..][m] == t[n];
    assert forall i :: 0 <= i < m ==> t[k..][i] == s[k..][i];
    SpanUnique(t[k..], Numeric, m);
  }

  /** Whether a citation starts at a character depends on the head behind it only. */
  lemma CitationSame(afterWord: bool, c: char, s: string, t: string)
    requires SameHead(s, t)
    ensures CitationAt(afterWord, [c] + s).Some? == CitationAt(afterWord, [c] + t).Some?
  {
    hide NumberOf, SameHead, Same;
    KeywordSame(c, s, t);
    if KeywordAt([c] + s) {
      KeywordHead(c, s);
      SameHeadFrom(s, t, 6);
      assert ([c] + s)[7..] == s[6..] && ([c] + t)[7..] == t[6..];
      WhileSame(s[6..], t[6..], IsSpace);
      if EatWhile(s[6..], IsSpace).Some? {
        NumberSame(EatWhile(s[6..], IsSpace).value.rest, EatWhile(t[6..], IsSpace).value.rest);
      }
    }
  }

  lemma KeywordHead(c: char, s: string)
    requires KeywordAt([c] + s)
    ensures Span(s, NoKeyword) >= 6
  {
    forall k | 0 <= k < 6 ensures NoKeyword(s[k]) {
      assert s[k] == ([c] + s)[k + 1] && Lower(s[k]) == "section"[k + 1];
      assert "section"[k + 1] == "ection"[k];
    }
  }

  lemma KeywordSame(c: char, s: string, t: string)
    requires SameHead(s, t)
    ensures KeywordAt([c] + s) == KeywordAt([c] + t)
  {
    if KeywordAt([c] + s) {
      KeywordHead(c, s);
      KeywordMoves(c, s, t);
    }
    if KeywordAt([c] + t) {
      KeywordHead(c, t);
      KeywordMoves(c, t, s);
    }
  }

  lemma KeywordMoves(c: char, s: string, t: string)
    requires KeywordAt([c] + s) && SameHead(s, t) && Span(s, NoKeyword) >= 6
    ensures KeywordAt([c] + t)
  {
    SameHeadFrom(s, t, 6);
    assert ([c] + s)[..7] == [c] + s[..6] == [c] + t[..6] == ([c] + t)[..7];
    assert forall k :: 0 <= k < 7 ==> ([c] + t)[k] == ([c] + t)[..7][k] == ([c] + s)[..7][k] == ([c] + s)[k];
  }

  /** A citation printed in any format, before an equal context, is matched again as it stands. */
  lemma CitationReprint(s: string, f: Format, rest: string)
    requires CitationAt(false, s).Some?
    requires Same(CitationAt(false, s).value.Rest(), rest)
    ensures var c := CitationAt(false, s).value;
            var p := c.number.Parts();
            var again := CitationAt(false, c.prefix + PrintForm(p, f) + rest);
            && again.Some? && again.value.prefix == c.prefix
            && again.value.number.Parts() == p && again.value.Rest() == rest
  {
    hide NumberOf, NumberIn, Same, ValidParts, PrintForm, EatWhile;
    var c := CitationAt(false, s).value;
    var gap := EatWhile(s[7..], IsSpace).value;
    var p := c.number.Parts();
    NumberOfIn(gap.rest);
    NumberEats(gap.rest, c.number.format, Strong);
    NumberReprint(gap.rest, c.number.format, f, rest);
    StartsWithDigit(p, f);
    var printed := PrintForm(p, f) + rest;
    EatKeyword(s, gap.text, printed);
    assert c.prefix + PrintForm(p, f) + rest == s[..7] + (gap.text + printed);
  }

  lemma EatKeyword(s: string, gap: string, behind: string)
    requires KeywordAt(s)
    requires gap != "" && forall k :: 0 <= k < |gap| ==> IsSpace(gap[k])
    requires behind != "" && !IsSpace(behind[0])
    ensures var text := s[..7] + (gap + behind);
            KeywordAt(text) && text[..7] == s[..7] && EatWhile(text[7..], IsSpace) == Some(Eaten(gap, behind))
  {
    var text := s[..7] + (gap + behind);
    assert text[7..] == gap + behind;
    assert (gap + behind)[|gap|] == behind[0];
    SpanUnique(gap + behind, IsSpace, |gap|);
  }

  lemma StartsWithDigit(p: Parts, f: Format)
    requires ValidParts(p)
    ensures PrintForm(p, f) != "" && IsDigit(PrintForm(p, f)[0])
  {
  }

  /** Rewriting to one format and then to another is rewriting to the second at once. */
  lemma {:induction false} RewriteComposes(afterWord: bool, s: string, f: Format, g: Format)
    ensures Rewrite(afterWord, Rewrite(afterWord, s, f), g) == Rewrite(afterWord, s, g)
    decreases |s|
  {
    hide CitationAt, PrintForm, ValidParts, NumberText, SameHead, Same;
    if s == "" {
    } else if CitationAt(afterWord, s).None? {
      RewriteComposes(IsWord(s[0]), s[1..], f, g);
      RewriteHead(IsWord(s[0]), s[1..], f);
      var t := Rewrite(IsWord(s[0]), s[1..], f);
      CitationSame(afterWord, s[0], s[1..], t);
      assert s == [s[0]] + s[1..];
      assert ([s[0]] + t)[1..] == t;
    } else {
      CitationEats(afterWord, s);
      var c := CitationAt(afterWord, s).value;
      RewriteComposes(true, c.Rest(), f, g);
      RewriteHead(true, c.Rest(), f);
      SameHeadFrom(c.Rest(), Rewrite(true, c.Rest(), f), 0);
      CitationReprint(s, f, Rewrite(true, c.Rest(), f));
    }
  }

  // ---------------------------------------------------------------- what is kept

  /** A text cut into characters kept as they are and the numbers of its citations. */
  datatype Piece = Kept(text: string) | Cited(raw: string, canonical: string)

  function Pieces(afterWord: bool, s: string): seq<Piece>
    decreases |s|
  {
    if s == "" then []
    else
      var c := CitationAt(afterWord, s);
      if c.None? then [Kept([s[0]])] + Pieces(IsWord(s[0]), s[1..])
      else
        CitationEats(afterWord, s);
        var canonical := PrintForm(c.value.number.Parts(), Canonical);
        [Kept(c.value.prefix), Cited(c.value.raw, canonical)] + Pieces(true, c.value.Rest())
  }

  function AsWritten(pieces: seq<Piece>): string {
    if pieces == [] then ""
    else (match pieces[0] case Kept(text) => text case Cited(raw, _) => raw) + AsWritten(pieces[1..])
  }

  function Formatted(pieces: seq<Piece>, f: Format): string {
    if pieces == [] then ""
    else
      (match pieces[0]
       case Kept(text) => text
       case Cited(_, canonical) => FormatNumber(canonical, f).GetOr("")) + Formatted(pieces[1..], f)
  }

  lemma CitationParses(afterWord: bool, s: string, f: Format)
    requires CitationAt(afterWord, s).Some?
    ensures var c := CitationAt(afterWord, s).value;
            var canonical := PrintForm(c.number.Parts(), Canonical);
            && ParseCandidate(c.raw, Strong) == Ok(Parsed(canonical, c.number.format))
            && FormatNumber(canonical, f) == Some(PrintForm(c.number.Parts(), f))
  {
    hide NumberIn, PrintForm, ParseCandidate, MatchForm;
    var c := CitationAt(afterWord, s).value;
    var gap := EatWhile(s[7..], IsSpace).value;
    NumberOfIn(gap.rest);
    NumberEats(gap.rest, c.number.format, Strong);
    MatchedParses(gap.rest, c.number.format, Strong);
    MatchPrinted(c.number.Parts(), Canonical);
  }

  predicate Parses(pieces: seq<Piece>) {
    forall k :: 0 <= k < |pieces| && pieces[k].Cited? ==>
      var parsed := ParseCandidate(pieces[k].raw, Strong);
      parsed.Ok? && parsed.value.canonical == pieces[k].canonical
  }

  lemma KeptAndCited(prefix: string, cited: Piece, rest: seq<Piece>, f: Format)
    requires cited.Cited?
    ensures var pieces := [Kept(prefix), cited] + rest;
            && AsWritten(pieces) == prefix + (cited.raw + AsWritten(rest))
            && Formatted(pieces, f) == prefix + FormatNumber(cited.canonical, f).GetOr("") + Formatted(rest, f)
            && (Parses(rest) && Parses([cited]) ==> Parses(pieces))
  {
    hide FormatNumber, ParseCandidate;
    var pieces := [Kept(prefix), cited] + rest;
    assert pieces[1..] == [cited] + rest && pieces[1..][1..] == rest;
    assert prefix + (FormatNumber(cited.canonical, f).GetOr("") + Formatted(rest, f))
        == prefix + FormatNumber(cited.canonical, f).GetOr("") + Formatted(rest, f);
    forall k | 0 <= k < |pieces| && pieces[k].Cited? ensures Parses(rest) && Parses([cited]) ==> Parses([pieces[k]]) {
      if k == 1 {
        assert pieces[k] == cited;
      } else {
        assert pieces[k] == rest[k - 2];
      }
    }
    assert forall k :: 0 <= k < |pieces| && pieces[k].Cited? && Parses([pieces[k]]) ==> ([pieces[k]][0] == pieces[k]);
  }

  lemma KeptChar(c: char, rest: seq<Piece>, f: Format)
    ensures var pieces := [Kept([c])] + rest;
            && AsWritten(pieces) == [c] + AsWritten(rest)
            && Formatted(pieces, f) == [c] + Formatted(rest, f)
            && (Parses(rest) ==> Parses(pieces))
  {
    hide FormatNumber, ParseCandidate;
    var pieces := [Kept([c])] + rest;
    assert pieces[1..] == rest;
  }

  /**
   The pieces as written are the text; with every cited number formatted they are the rewritten
   text. Every cited number parses to its canonical form.
   */
  lemma {:induction false} RewriteKeeps(afterWord: bool, s: string, f: Format)
    ensures AsWritten(Pieces(afterWord, s)) == s
    ensures Formatted(Pieces(afterWord, s), f) == Rewrite(afterWord, s, f)
    ensures Parses(Pieces(afterWord, s))
    decreases |s|
  {
    hide CitationAt, ParseCandidate, FormatNumber, PrintForm, NumberText, ValidParts, AsWritten, Formatted;
    if s == "" {
      NoPieces(f);
    } else if CitationAt(afterWord, s).None? {
      RewriteKeeps(IsWord(s[0]), s[1..], f);
      KeptChar(s[0], Pieces(IsWord(s[0]), s[1..]), f);
    } else {
      CitationEats(afterWord, s);
      CitationParses(afterWord, s, f);
      var c := CitationAt(afterWord, s).value;
      RewriteKeeps(true, c.Rest(), f);
      KeptAndCited(c.prefix, Cited(c.raw, PrintForm(c.number.Parts(), Canonical)), Pieces(true, c.Rest()), f);
    }
  }

  lemma NoPieces(f: Format)
    ensures AsWritten([]) == "" && Formatted([], f) == ""
  {
  }

  // ---------------------------------------------------------------- the rewriting loop

  datatype Match = Match(index: nat, citation: Citation)

  predicate WordBefore(text: string, i: nat) {
    0 < i <= |text| && IsWord(text[i - 1])
  }

  /** The leftmost citation from index `from` on, as `matchAll` finds it. */
  function NextMatch(text: string, from: nat): (m: Option<Match>)
    ensures m.Some? ==> from <= m.value.index < |text|
    ensures m.Some? ==> CitationAt(WordBefore(text, m.value.index), text[m.value.index..]) == Some(m.value.citation)
    decreases |text| - from
  {
    if from >= |text| then None
    else
      var c := CitationAt(WordBefore(text, from), text[from..]);
      if c.Some? then Some(Match(from, c.value)) else NextMatch(text, from + 1)
  }

  /** Rewriting from an index on leaves the text alone up to the next citation. */
  lemma {:induction false} RewriteUpTo(text: string, from: nat, f: Format)
    requires from <= |text|
    ensures Rewrite(WordBefore(text, from), text[from..], f)
         == match NextMatch(text, from)
            case None => text[from..]
            case Some(m) => text[from..m.index] + Rewrite(WordBefore(text, m.index), text[m.index..], f)
    decreases |text| - from
  {
    hide CitationAt, Rewrite, WordBefore;
    if from >= |text| {
      RewriteHere(WordBefore(text, from), text[from..], f);
    } else if CitationAt(WordBefore(text, from), text[from..]).None? {
      RewriteUpTo(text, from + 1, f);
      RewriteOne(text, from, f);
      var m := NextMatch(text, from);
      if m.Some? {
        TextCons(text, from, m.value.index, Rewrite(WordBefore(text, m.value.index), text[m.value.index..], f));
      }
    }
  }

  lemma RewriteOne(text: string, from: nat, f: Format)
    requires from < |text| && CitationAt(WordBefore(text, from), text[from..]).None?
    ensures Rewrite(WordBefore(text, from), text[from..], f)
         == [text[from]] + Rewrite(WordBefore(text, from + 1), text[from + 1..], f)
  {
    hide CitationAt, Rewrite;
    RewriteHere(WordBefore(text, from), text[from..], f);
    assert text[from..][1..] == text[from + 1..];
  }

  lemma RewriteHere(afterWord: bool, s: string, f: Format)
    ensures s == "" ==> Rewrite(afterWord, s, f) == ""
    ensures s != "" && CitationAt(afterWord, s).None? ==>
              Rewrite(afterWord, s, f) == [s[0]] + Rewrite(IsWord(s[0]), s[1..], f)
  {
    hide CitationAt;
  }

  lemma TextCons(text: string, from: nat, to: nat, rest: string)
    requires from < to <= |text|
    ensures [text[from]] + (text[from + 1..to] + rest) == text[from..to] + rest
  {
  }

  method FormatSectionReferences(text: string, f: Format) returns (out: string)
    ensures out == Rewrite(false, text, f)
  {
    hide CitationAt, Rewrite, PrintForm, ParseCandidate, FormatNumber, ValidParts, NumberText, WordBefore;
    out := "";
    var lastIndex := 0;
    var found := NextMatch(text, 0);
    NoWordBefore(text);
    while found.Some?
      invariant lastIndex <= |text| && found == NextMatch(text, lastIndex)
      invariant out + Rewrite(WordBefore(text, lastIndex), text[lastIndex..], f) == Rewrite(false, text, f)
      decreases |text| - lastIndex
    {
      var index, c := found.value.index, found.value.citation;
      RewriteUpTo(text, lastIndex, f);
      RewriteMatched(text, index, f);
      var parsed := ParseCandidate(c.raw, Strong);
      if parsed.Ok? {
        ghost var rest := Rewrite(WordBefore(text, index + |c.prefix| + |c.raw|),
                                  text[index + |c.prefix| + |c.raw|..], f);
        ghost var cited := c.prefix + FormatNumber(parsed.value.canonical, f).GetOr("");
        Assoc(out, text[lastIndex..index], cited + rest);
        Assoc(out + text[lastIndex..index], cited, rest);
        out := out + text[lastIndex..index];
        out := out + (c.prefix + FormatNumber(parsed.value.canonical, f).GetOr(""));
        lastIndex := index + |c.prefix| + |c.raw|;
      }
      found := NextMatch(text, index + |c.prefix| + |c.raw|);
    }
    RewriteUpTo(text, lastIndex, f);
    out := out + text[lastIndex..];
  }

  lemma NoWordBefore(text: string)
    ensures !WordBefore(text, 0) && text[0..] == text
  {
  }

  /** One round of the loop: the number at `index` parses, and the rest follows a digit. */
  lemma RewriteMatched(text: string, index: nat, f: Format)
    requires index < |text| && CitationAt(WordBefore(text, index), text[index..]).Some?
    ensures var c := CitationAt(WordBefore(text, index), text[index..]).value;
            var parsed := ParseCandidate(c.raw, Strong);
            var next := index + |c.prefix| + |c.raw|;
            && parsed.Ok? && index < next <= |text|
            && Rewrite(WordBefore(text, index), text[index..], f)
            == c.prefix + FormatNumber(parsed.value.canonical, f).GetOr("")
               + Rewrite(WordBefore(text, next), text[next..], f)
  {
    hide CitationAt, PrintForm, ParseCandidate, FormatNumber, ValidParts, NumberText;
    var s := text[index..];
    var c := CitationAt(WordBefore(text, index), s).value;
    var next := index + |c.prefix| + |c.raw|;
    CitationEats(WordBefore(text, index), s);
    CitationParses(WordBefore(text, index), s, f);
    assert text[next..] == s[|c.prefix| + |c.raw|..] == c.Rest();
    assert text[next - 1] == s[|c.prefix| + |c.raw| - 1] == c.raw[|c.raw| - 1];
  }
}
