/**
 Section numbers as people write them, described on the text alone, and that the scanner of
 src/lib/section-number.ts reads exactly these.
 */
module SectionWriting {
  import opened Text
  import opened SectionNumber
  import opened SectionReferences
  import opened SectionRewriting

  // ---------------------------------------------------------------- written numbers

  predicate TwoDigits(s: string) {
    |s| == 2 && '0' <= s[0] <= '9' && '0' <= s[1] <= '9'
  }

  /** A number with the white space it is written with. */
  datatype Written = Written(parts: Parts, gap1: string, gap2: string, agencyGap: string, format: Format)

  predicate PartsWritten(p: Parts) {
    && TwoDigits(p.first) && TwoDigits(p.second) && TwoDigits(p.third)
    && (match p.tail
        case Bare => true
        case Suffix(suffix) => TwoDigits(suffix)
        case Agency(suffix, agency) => TwoDigits(suffix) && TwoDigits(agency))
  }

  /** `26 00 13`, `26.00.13`, `260013` or `26 0013`, with `.10` or `.10 20` behind, if anything. */
  predicate IsWritten(w: Written) {
    && PartsWritten(w.parts)
    && (match w.format
        case Canonical => w.gap1 != "" && AllWhite(w.gap1) && w.gap2 != "" && AllWhite(w.gap2)
        case Dots => w.gap1 == "." && w.gap2 == "."
        case Compact => w.gap1 == "" && w.gap2 == ""
        case SpacedCompact => w.gap1 != "" && AllWhite(w.gap1) && w.gap2 == "")
    && (if w.parts.tail.Agency? then w.agencyGap != "" && AllWhite(w.agencyGap) else w.agencyGap == "")
  }

  /** In running text the agency stands on the line of its suffix. */
  predicate OnOneLine(w: Written) {
    '\r' !in w.agencyGap && '\n' !in w.agencyGap
  }

  function WrittenTail(w: Written): string {
    match w.parts.tail
    case Bare => ""
    case Suffix(suffix) => "." + suffix
    case Agency(suffix, agency) => "." + suffix + w.agencyGap + agency
  }

  function WrittenText(w: Written): string {
    w.parts.first + w.gap1 + w.parts.second + w.gap2 + w.parts.third + WrittenTail(w)
  }

  /** The number as each format prints it. */
  function FormText(p: Parts, f: Format): string {
    var base :=
      match f
      case Canonical => p.first + " " + p.second + " " + p.third
      case Dots => p.first + "." + p.second + "." + p.third
      case Compact => p.first + p.second + p.third
      case SpacedCompact => p.first + " " + p.second + p.third;
    match p.tail
    case Bare => base
    case Suffix(suffix) => base + "." + suffix
    case Agency(suffix, agency) => base + "." + suffix + " " + agency
  }

  // ---------------------------------------------------------------- where a number ends

  /** No digit follows, nor, where the context is strong, a point and a digit. */
  predicate Free(rest: string, context: Context) {
    && (rest != "" ==> !('0' <= rest[0] <= '9'))
    && (context == Strong && |rest| >= 2 && rest[0] == '.' ==> !('0' <= rest[1] <= '9'))
  }

  ghost predicate HasAgency(rest: string, context: Context) {
    exists gap, agency, more ::
      && rest == gap + agency + more
      && gap != "" && AllWhite(gap) && '\r' !in gap && '\n' !in gap && TwoDigits(agency) && Free(more, context)
  }

  ghost predicate HasSuffix(rest: string, context: Context) {
    exists suffix, more ::
      rest == "." + suffix + more && TwoDigits(suffix) && Free(more, context)
  }

  /** What follows a number does not go on with it. */
  ghost predicate StopsAt(tail: Tail, rest: string, context: Context) {
    && Free(rest, context)
    && (tail.Bare? ==> !HasSuffix(rest, context))
    && (tail.Suffix? ==> !HasAgency(rest, context))
  }

  // ---------------------------------------------------------------- the same in the scanner's terms

  lemma BlankIff(s: string)
    ensures AllWhite(s) && '\r' !in s && '\n' !in s <==> forall k :: 0 <= k < |s| ==> IsBlank(s[k])
  {
    hide AllWhite, IsSpace;
    AllWhiteIff(s);
  }

  lemma PartsIff(p: Parts)
    ensures PartsWritten(p) <==> ValidParts(p)
  {
  }

  lemma BaseIsForm(p: Parts, f: Format)
    ensures PrintBase(p, f)
         == match f
            case Canonical => p.first + " " + p.second + " " + p.third
            case Dots => p.first + "." + p.second + "." + p.third
            case Compact => p.first + p.second + p.third
            case SpacedCompact => p.first + " " + p.second + p.third
  {
  }

  lemma PrintIsForm(p: Parts, f: Format)
    ensures PrintForm(p, f) == FormText(p, f)
  {
    var base := PrintBase(p, f);
    BaseIsForm(p, f);
    hide PrintBase;
    match p.tail
    case Bare => assert base + "" == base;
    case Suffix(suffix) => Assoc(base, ".", suffix);
    case Agency(suffix, agency) =>
      assert base + ("." + suffix + " " + agency) == base + "." + suffix + " " + agency;
  }

  lemma GapsIff(w: Written)
    requires PartsWritten(w.parts)
    requires if w.parts.tail.Agency? then w.agencyGap != "" && AllWhite(w.agencyGap) else w.agencyGap == ""
    ensures IsWritten(w) <==> IsGap(w.gap1, Separator1(w.format)) && IsGap(w.gap2, Separator2(w.format))
  {
    hide AllWhite, IsSpace, PartsWritten;
    AllWhiteIff(w.gap1);
    AllWhiteIff(w.gap2);
  }

  // ---------------------------------------------------------------- reading what is written

  lemma EatGapRead(gap: string, separator: string, pair: string, rest: string)
    requires separator == "" || separator == " " || separator == "."
    requires IsGap(gap, separator) && Pair(pair)
    ensures EatGap(gap + (pair + rest), separator) == Some(Eaten(gap, pair + rest))
  {
    var s := gap + (pair + rest);
    if separator == "" {
      assert s == pair + rest;
    } else {
      assert s[..|gap|] == gap && s[|gap|..] == pair + rest && s[|gap|] == pair[0];
      if separator == " " {
        SpanUnique(s, IsSpace, |gap|);
      }
    }
  }

  lemma BaseRead(b: Base, f: Format)
    requires Pair(b.first) && Pair(b.second) && Pair(b.third)
    requires IsGap(b.gap1, Separator1(f)) && IsGap(b.gap2, Separator2(f))
    ensures BaseOf(BaseText(b) + b.rest, f) == Some(b)
  {
    hide EatPair, EatGap, Pair, IsGap;
    var third := b.third + b.rest;
    var second := b.second + (b.gap2 + third);
    Nested(b.first, b.gap1, b.second, b.gap2, b.third, b.rest);
    EatPrintedPair(b.first, b.gap1 + second);
    EatGapRead(b.gap1, Separator1(f), b.second, b.gap2 + third);
    EatPrintedPair(b.second, b.gap2 + third);
    EatGapRead(b.gap2, Separator2(f), b.third, b.rest);
    EatPrintedPair(b.third, b.rest);
  }

  lemma FreeIff(rest: string, context: Context)
    ensures Free(rest, context) <==> Guards(rest, context)
  {
  }

  lemma SuffixRead(suffix: string, more: string)
    requires Pair(suffix) && !DigitAt(more, 0)
    ensures SuffixTail("." + suffix + more) == Some(TailMatch(Suffix(suffix), "", more))
  {
    var s := "." + suffix + more;
    assert s[1..] == suffix + more;
    EatPrintedPair(suffix, more);
  }

  lemma AgencyRead(suffix: string, gap: string, agency: string, more: string)
    requires Pair(suffix) && Pair(agency) && !DigitAt(more, 0)
    requires gap != "" && forall k :: 0 <= k < |gap| ==> IsBlank(gap[k])
    ensures AgencyTail("." + suffix + gap + agency + more) == Some(TailMatch(Agency(suffix, agency), gap, more))
  {
    hide SuffixTail, EatPair;
    var behind := gap + (agency + more);
    Assoc("." + suffix, gap, agency + more);
    Assoc("." + suffix + gap, agency, more);
    SuffixRead(suffix, behind);
    assert behind[|gap|] == agency[0];
    SpanUnique(behind, IsBlank, |gap|);
    assert behind[..|gap|] == gap && behind[|gap|..] == agency + more;
    EatPrintedPair(agency, more);
  }

  /** What the agency expression takes behind a suffix, on the text alone. */
  lemma AgencyHas(suffix: string, rest: string, context: Context)
    requires Pair(suffix) && Free(rest, context)
    ensures var agency := AgencyTail("." + suffix + rest);
            agency.Some? && Free(agency.value.rest, context) <==> HasAgency(rest, context)
  {
    hide AgencyTail, SuffixTail, AllWhite, IsBlank, Free;
    var s := "." + suffix + rest;
    var read := AgencyTail(s);
    if read.Some? && Free(read.value.rest, context) {
      var t := read.value;
      AgencyEats(s);
      BlankIff(t.gap);
      SuffixOfAgency(s, suffix, rest);
      assert rest == t.gap + t.tail.agency + t.rest && TwoDigits(t.tail.agency) && Free(t.rest, context);
    }
    if HasAgency(rest, context) {
      var gap, agency, more :|
        && rest == gap + agency + more
        && gap != "" && AllWhite(gap) && '\r' !in gap && '\n' !in gap && TwoDigits(agency) && Free(more, context);
      BlankIff(gap);
      FreeIff(more, context);
      assert s == "." + suffix + gap + agency + more;
      AgencyRead(suffix, gap, agency, more);
    }
  }

  /** The suffix an agency stands behind is the pair behind the point. */
  lemma SuffixOfAgency(s: string, suffix: string, rest: string)
    requires Pair(suffix) && s == "." + suffix + rest && AgencyTail(s).Some?
    ensures AgencyTail(s).value.tail.Agency? && AgencyTail(s).value.tail.suffix == suffix
    ensures var t := AgencyTail(s).value; rest == t.gap + t.tail.agency + t.rest
  {
    hide AgencyTail;
    AgencyEats(s);
    var t := AgencyTail(s).value;
    Assoc("." + t.tail.suffix, t.gap, t.tail.agency);
    Assoc("." + t.tail.suffix, t.gap + t.tail.agency, t.rest);
    SameHeads("." + suffix, rest, "." + t.tail.suffix, t.gap + t.tail.agency + t.rest);
    SameHeads(".", suffix, ".", t.tail.suffix);
  }

  lemma SameHeads(a: string, x: string, b: string, y: string)
    requires |a| == |b| && a + x == b + y
    ensures a == b && x == y
  {
    assert (a + x)[..|a|] == a && (b + y)[..|a|] == b;
    assert (a + x)[|a|..] == x && (b + y)[|a|..] == y;
  }

  /** What the suffix expression takes, on the text alone. */
  lemma SuffixHas(s: string, context: Context)
    ensures SuffixTail(s).Some? && Free(SuffixTail(s).value.rest, context) <==> HasSuffix(s, context)
  {
    hide SuffixTail, Free;
    if SuffixTail(s).Some? && Free(SuffixTail(s).value.rest, context) {
      SuffixEats(s);
      var t := SuffixTail(s).value;
      assert s == "." + t.tail.suffix + t.rest && TwoDigits(t.tail.suffix);
    }
    if HasSuffix(s, context) {
      var suffix, more :| s == "." + suffix + more && TwoDigits(suffix) && Free(more, context);
      FreeIff(more, context);
      SuffixRead(suffix, more);
    }
  }

  lemma AgencyNeedsSuffix(s: string, context: Context)
    requires AgencyTail(s).Some?
    ensures SuffixTail(s).Some? && Free(SuffixTail(s).value.rest, context)
  {
    hide SuffixTail, EatPair;
    var rest := SuffixTail(s).value.rest;
    var gap := EatWhile(rest, IsBlank).value;
    assert rest[0] == gap.text[0];
  }

  ghost predicate TailWritten(t: TailMatch) {
    && ValidTail(t.tail)
    && (if t.tail.Agency? then t.gap != "" && forall k :: 0 <= k < |t.gap| ==> IsBlank(t.gap[k]) else t.gap == "")
  }

  lemma TailRead(t: TailMatch, context: Context)
    requires TailWritten(t) && StopsAt(t.tail, t.rest, context)
    ensures TailOf(TailText(t) + t.rest, context) == Some(t)
  {
    hide AgencyTail, SuffixTail, HasAgency, HasSuffix, Guards, Free, IsBlank;
    var s := TailText(t) + t.rest;
    FreeIff(t.rest, context);
    NotDigit(t.rest, context);
    match t.tail
    case Bare =>
      assert s == t.rest;
      SuffixHas(s, context);
      if AgencyTail(s).Some? {
        AgencyNeedsSuffix(s, context);
      }
      if SuffixTail(s).Some? {
        FreeIff(SuffixTail(s).value.rest, context);
      }
    case Suffix(suffix) =>
      SuffixRead(suffix, t.rest);
      AgencyHas(suffix, t.rest, context);
      if AgencyTail(s).Some? {
        FreeIff(AgencyTail(s).value.rest, context);
      }
    case Agency(suffix, agency) =>
      AgencyRead(suffix, t.gap, agency, t.rest);
  }

  lemma NotDigit(rest: string, context: Context)
    requires Free(rest, context)
    ensures !DigitAt(rest, 0)
  {
  }

  lemma TailShape(s: string, context: Context)
    requires TailOf(s, context).Some?
    ensures var t := TailOf(s, context).value;
            TailWritten(t) && s == TailText(t) + t.rest && Free(t.rest, context)
  {
    hide AgencyTail, SuffixTail, Guards, Free, IsBlank;
    var t := TailOf(s, context).value;
    TailEats(s, context);
    FreeIff(t.rest, context);
    if AgencyTail(s).Some? {
      AgencyEats(s);
    }
    if SuffixTail(s).Some? {
      SuffixEats(s);
    }
  }

  lemma TailStops(s: string, context: Context)
    requires TailOf(s, context).Some?
    ensures StopsAt(TailOf(s, context).value.tail, TailOf(s, context).value.rest, context)
  {
    hide AgencyTail, SuffixTail, HasAgency, HasSuffix, Guards, Free, IsBlank;
    TailShape(s, context);
    var t := TailOf(s, context).value;
    if AgencyTail(s).Some? {
      AgencyEats(s);
    }
    if SuffixTail(s).Some? {
      SuffixEats(s);
      FreeIff(SuffixTail(s).value.rest, context);
    }
    match t.tail
    case Bare =>
      assert s == t.rest;
      SuffixHas(s, context);
    case Suffix(suffix) =>
      AgencyHas(suffix, t.rest, context);
      if AgencyTail(s).Some? {
        FreeIff(AgencyTail(s).value.rest, context);
      }
    case Agency(suffix, agency) =>
  }

  // ---------------------------------------------------------------- exactly what is written is read

  function WrittenIn(n: Number): Written {
    Written(n.Parts(), n.base.gap1, n.base.gap2, n.tail.gap, n.format)
  }

  function NumberFor(w: Written, rest: string): Number {
    Number(Base(w.parts.first, w.gap1, w.parts.second, w.gap2, w.parts.third, WrittenTail(w) + rest),
           TailMatch(w.parts.tail, w.agencyGap, rest), w.format)
  }

  /** A written number that stops at `rest` is read there, with its parts, gaps and rest. */
  lemma WrittenIsRead(w: Written, rest: string, context: Context)
    requires IsWritten(w) && OnOneLine(w) && StopsAt(w.parts.tail, rest, context)
    ensures NumberIn(WrittenText(w) + rest, w.format, context) == Some(NumberFor(w, rest))
  {
    hide BaseOf, TailOf, StopsAt, IsGap, AllWhite, IsBlank;
    var n := NumberFor(w, rest);
    PartsIff(w.parts);
    GapsIff(w);
    BlankIff(w.agencyGap);
    BaseRead(n.base, w.format);
    TailRead(n.tail, context);
    Assoc(BaseText(n.base), WrittenTail(w), rest);
  }

  /** Whatever is read is a written number and stops at what follows. */
  lemma ReadIsWritten(s: string, f: Format, context: Context)
    requires NumberIn(s, f, context).Some?
    ensures var n := NumberIn(s, f, context).value;
            var w := WrittenIn(n);
            && IsWritten(w) && OnOneLine(w) && w.format == f
            && s == WrittenText(w) + n.tail.rest && NumberText(n) == WrittenText(w)
            && StopsAt(w.parts.tail, n.tail.rest, context)
  {
    hide BaseOf, TailOf, StopsAt, IsGap, AllWhite, IsBlank, IsWritten;
    var n := NumberIn(s, f, context).value;
    var w := WrittenIn(n);
    NumberEats(s, f, context);
    TailShape(n.base.rest, context);
    TailStops(n.base.rest, context);
    BlankIff(n.tail.gap);
    PartsIff(n.Parts());
    GapsIff(w);
  }
}
