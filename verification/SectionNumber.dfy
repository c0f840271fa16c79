/** The section-number grammar, parser and printer of src/lib/section-number.ts. */
module SectionNumber {
  import opened Text

  datatype Format = Canonical | Dots | Compact | SpacedCompact

  datatype Context = CanonicalOnly | Strong

  datatype Failure = EmptyInput | NotCanonical | InvalidFormat

  datatype Parsed = Parsed(canonical: string, inputFormat: Format)

  /** What follows the three pairs: nothing, `.NN`, or `.NN NN`. */
  datatype Tail = Bare | Suffix(suffix: string) | Agency(suffix: string, agency: string)

  datatype Parts = Parts(first: string, second: string, third: string, tail: Tail)

  // ---------------------------------------------------------------- the four syntaxes

  predicate Pair(s: string) {
    |s| == 2 && IsDigit(s[0]) && IsDigit(s[1])
  }

  predicate ValidTail(tail: Tail) {
    match tail
    case Bare => true
    case Suffix(suffix) => Pair(suffix)
    case Agency(suffix, agency) => Pair(suffix) && Pair(agency)
  }

  predicate ValidParts(p: Parts) {
    Pair(p.first) && Pair(p.second) && Pair(p.third) && ValidTail(p.tail)
  }

  function Separator1(f: Format): string {
    match f
    case Canonical => " "
    case Dots => "."
    case Compact => ""
    case SpacedCompact => " "
  }

  function Separator2(f: Format): string {
    match f
    case Canonical => " "
    case Dots => "."
    case Compact => ""
    case SpacedCompact => ""
  }

  function PrintTail(tail: Tail): string {
    match tail
    case Bare => ""
    case Suffix(suffix) => "." + suffix
    case Agency(suffix, agency) => "." + suffix + " " + agency
  }

  function PrintBase(p: Parts, f: Format): string {
    p.first + Separator1(f) + p.second + Separator2(f) + p.third
  }

  function PrintForm(p: Parts, f: Format): string {
    PrintBase(p, f) + PrintTail(p.tail)
  }

  /** `(?:\.(\d{2})(?: (\d{2}))?)?$` */
  function MatchTail(s: string): Option<Tail> {
    if s == "" then Some(Bare)
    else if |s| < 3 || s[0] != '.' || !Pair(s[1..3]) then None
    else if |s| == 3 then Some(Suffix(s[1..3]))
    else if |s| == 6 && s[3] == ' ' && Pair(s[4..6]) then Some(Agency(s[1..3], s[4..6]))
    else None
  }

  /**
   The four anchored expressions `SECTION_NUMBER_RE` (with `CANONICAL_PARTS_RE`), `DOTS_RE`,
   `COMPACT_RE` and `SPACED_COMPACT_RE`, which differ in their two separators.
   */
  function MatchForm(s: string, f: Format): Option<Parts> {
    var b := 2 + |Separator1(f)|;
    var c := b + 2 + |Separator2(f)|;
    if |s| >= c + 2
       && Pair(s[..2]) && s[2..b] == Separator1(f)
       && Pair(s[b..b + 2]) && s[b + 2..c] == Separator2(f)
       && Pair(s[c..c + 2])
    then
      var tail :- MatchTail(s[c + 2..]);
      Some(Parts(s[..2], s[b..b + 2], s[c..c + 2], tail))
    else None
  }

  predicate IsCanonical(s: string) {
    MatchForm(s, Canonical).Some?
  }

  // ---------------------------------------------------------------- parsing and printing

  /** `s.replace(/\s+/g, ' ')` */
  function CollapseRuns(s: string): string {
    if s == "" then ""
    else if !IsSpace(s[0]) then [s[0]] + CollapseRuns(s[1..])
    else if |s| > 1 && IsSpace(s[1]) then CollapseRuns(s[1..])
    else " " + CollapseRuns(s[1..])
  }

  function Collapse(raw: string): string {
    Trim(CollapseRuns(raw))
  }

  function Normalize(raw: string): Option<string> {
    var collapsed := Collapse(raw);
    if IsCanonical(collapsed) then Some(collapsed) else None
  }

  function Variant(collapsed: string, f: Format): Option<Parsed> {
    var parts :- MatchForm(collapsed, f);
    Some(Parsed(PrintForm(parts, Canonical), f))
  }

  function ParseStrongVariant(collapsed: string): Option<Parsed> {
    var dots, compact, spaced := Variant(collapsed, Dots), Variant(collapsed, Compact), Variant(collapsed, SpacedCompact);
    if dots.Some? then dots else if compact.Some? then compact else spaced
  }

  function ParseCandidate(raw: string, context: Context): Result<Parsed, Failure> {
    var collapsed := Collapse(raw);
    if collapsed == "" then Err(EmptyInput)
    else
      var canonical := Normalize(collapsed);
      if canonical.Some? then Ok(Parsed(canonical.value, Canonical))
      else if context == CanonicalOnly then Err(NotCanonical)
      else
        var variant := ParseStrongVariant(collapsed);
        if variant.Some? then Ok(variant.value) else Err(InvalidFormat)
  }

  /** Fails, where the source throws, when its input is not canonical. */
  function FormatNumber(canonical: string, f: Format): Option<string> {
    var parts :- MatchForm(canonical, Canonical);
    Some(if f == Canonical then canonical else PrintForm(parts, f))
  }

  function Display(section: string, f: Format): string {
    var canonical := Normalize(section);
    if canonical.None? then section
    else
      var formatted := FormatNumber(canonical.value, f);
      if formatted.Some? then formatted.value else section
  }

  // ---------------------------------------------------------------- matching inverts printing

  lemma MatchTailIff(s: string, tail: Tail)
    ensures MatchTail(s) == Some(tail) <==> ValidTail(tail) && s == PrintTail(tail)
  {
    if MatchTail(s) == Some(tail) {
      match tail
      case Bare =>
      case Suffix(suffix) =>
        assert s == [s[0]] + s[1..3];
      case Agency(suffix, agency) =>
        assert s == [s[0]] + s[1..3] + [s[3]] + s[4..6];
    }
    if ValidTail(tail) && s == PrintTail(tail) {
      match tail
      case Bare =>
      case Suffix(suffix) =>
        assert s[1..3] == suffix;
      case Agency(suffix, agency) =>
        assert s[1..3] == suffix && s[4..6] == agency;
    }
  }

  lemma Slices(a: string, b: string, c: string, d: string, e: string, rest: string)
    ensures var s := a + b + c + d + e + rest;
            && s[..|a|] == a
            && s[|a|..|a| + |b|] == b
            && s[|a| + |b|..|a| + |b| + |c|] == c
            && s[|a| + |b| + |c|..|a| + |b| + |c| + |d|] == d
            && s[|a| + |b| + |c| + |d|..|a| + |b| + |c| + |d| + |e|] == e
            && s[|a| + |b| + |c| + |d| + |e|..] == rest
  {
  }

  lemma MatchPrinted(p: Parts, f: Format)
    requires ValidParts(p)
    ensures MatchForm(PrintForm(p, f), f) == Some(p)
  {
    MatchTailIff(PrintTail(p.tail), p.tail);
    Slices(p.first, Separator1(f), p.second, Separator2(f), p.third, PrintTail(p.tail));
  }

  lemma PrintMatched(s: string, f: Format)
    requires MatchForm(s, f).Some?
    ensures ValidParts(MatchForm(s, f).value) && s == PrintForm(MatchForm(s, f).value, f)
  {
    hide Pair, MatchTail, PrintTail;
    var b := 2 + |Separator1(f)|;
    var c := b + 2 + |Separator2(f)|;
    MatchTailIff(s[c + 2..], MatchTail(s[c + 2..]).value);
    CutInSix(s, 2, b, b + 2, c, c + 2);
  }

  lemma CutInSix(s: string, i: nat, j: nat, k: nat, m: nat, n: nat)
    requires i <= j <= k <= m <= n <= |s|
    ensures s == s[..i] + s[i..j] + s[j..k] + s[k..m] + s[m..n] + s[n..]
  {
  }

  /** A syntax accepts exactly the strings it prints, and recovers their parts. */
  lemma MatchFormIff(s: string, f: Format, p: Parts)
    ensures MatchForm(s, f) == Some(p) <==> ValidParts(p) && s == PrintForm(p, f)
  {
    if MatchForm(s, f) == Some(p) {
      PrintMatched(s, f);
    }
    if ValidParts(p) && s == PrintForm(p, f) {
      MatchPrinted(p, f);
    }
  }

  /** The four syntaxes are pairwise disjoint. */
  lemma FormsDisjoint(s: string, f: Format, g: Format)
    requires MatchForm(s, f).Some? && MatchForm(s, g).Some?
    ensures f == g
  {
    Shape(s, f);
    Shape(s, g);
  }

  /** What the third and the sixth character tell about the syntax. */
  lemma Shape(s: string, f: Format)
    requires MatchForm(s, f).Some?
    ensures |s| >= 6
    ensures f == Dots <==> s[2] == '.'
    ensures f == Compact <==> IsDigit(s[2])
    ensures f == Canonical ==> !IsDigit(s[5])
    ensures f == SpacedCompact ==> IsDigit(s[5])
  {
    var p := MatchForm(s, f).value;
    MatchFormIff(s, f, p);
    var base := PrintBase(p, f);
    assert s[2] == base[2] && s[5] == base[5];
  }

  // ---------------------------------------------------------------- collapsing white space

  /** White space, if any, in single blanks. */
  predicate SingleBlanks(s: string) {
    forall k :: 0 <= k < |s| && IsSpace(s[k]) ==> s[k] == ' ' && (k + 1 < |s| ==> !IsSpace(s[k + 1]))
  }

  /** Single blanks only, and none at either end. */
  predicate Tidy(s: string) {
    SingleBlanks(s) && (s != "" ==> !IsSpace(s[0]) && !IsSpace(s[|s| - 1]))
  }

  lemma {:induction false} TidyRuns(s: string)
    requires SingleBlanks(s)
    ensures CollapseRuns(s) == s
  {
    if s != "" {
      SingleBlanksTail(s);
      TidyRuns(s[1..]);
    }
  }

  lemma SingleBlanksTail(s: string)
    requires s != "" && SingleBlanks(s)
    ensures SingleBlanks(s[1..])
  {
    var t := s[1..];
    forall k | 0 <= k < |t| && IsSpace(t[k]) ensures t[k] == ' ' && (k + 1 < |t| ==> !IsSpace(t[k + 1])) {
      assert t[k] == s[k + 1];
    }
  }

  lemma TidyCollapse(s: string)
    requires Tidy(s)
    ensures Collapse(s) == Trim(s) == s
  {
    TidyRuns(s);
  }

  lemma TidySeparated(a: string, separator: string, b: string)
    requires Tidy(a) && Tidy(b) && a != "" && b != ""
    requires separator == "" || separator == " " || separator == "."
    ensures Tidy(a + separator + b)
  {
    var s := a + separator + b;
    var gap := |a| + |separator|;
    forall k | 0 <= k < |s| && IsSpace(s[k]) ensures s[k] == ' ' && (k + 1 < |s| ==> !IsSpace(s[k + 1])) {
      if k < |a| {
        assert s[k] == a[k] && (k + 1 < |a| ==> s[k + 1] == a[k + 1]);
      } else if k >= gap {
        assert s[k] == b[k - gap] && (k + 1 < |s| ==> s[k + 1] == b[k + 1 - gap]);
      } else {
        assert s[k] == separator[k - |a|] && s[k + 1] == b[0];
      }
    }
    assert s[|s| - 1] == b[|b| - 1];
  }

  lemma PairTidy(s: string)
    requires Pair(s)
    ensures Tidy(s) && s != ""
  {
  }

  lemma TidyBase(p: Parts, f: Format)
    requires ValidParts(p)
    ensures Tidy(PrintBase(p, f)) && PrintBase(p, f) != ""
  {
    hide Tidy;
    PairTidy(p.first);
    PairTidy(p.second);
    PairTidy(p.third);
    TidySeparated(p.first, Separator1(f), p.second);
    TidySeparated(p.first + Separator1(f) + p.second, Separator2(f), p.third);
  }

  lemma TidyWithTail(base: string, tail: Tail)
    requires Tidy(base) && base != "" && ValidTail(tail)
    ensures Tidy(base + PrintTail(tail))
  {
    hide Tidy;
    match tail
    case Bare =>
      assert base + PrintTail(tail) == base;
    case Suffix(suffix) =>
      PairTidy(suffix);
      TidySeparated(base, ".", suffix);
      assert base + PrintTail(tail) == base + "." + suffix;
    case Agency(suffix, agency) =>
      PairTidy(suffix);
      PairTidy(agency);
      TidySeparated(base, ".", suffix);
      TidySeparated(base + "." + suffix, " ", agency);
      assert base + PrintTail(tail) == base + "." + suffix + " " + agency;
  }

  lemma TidyForm(p: Parts, f: Format)
    requires ValidParts(p)
    ensures Tidy(PrintForm(p, f)) && PrintForm(p, f) != ""
  {
    TidyBase(p, f);
    TidyWithTail(PrintBase(p, f), p.tail);
  }

  lemma SingleBlanksCons(c: char, s: string)
    requires SingleBlanks(s) && (IsSpace(c) ==> c == ' ' && (s != "" ==> !IsSpace(s[0])))
    ensures SingleBlanks([c] + s)
  {
  }

  lemma {:induction false} RunsTidy(s: string)
    ensures SingleBlanks(CollapseRuns(s))
    ensures s != "" && !IsSpace(s[0]) ==> CollapseRuns(s) != "" && !IsSpace(CollapseRuns(s)[0])
  {
    if s != "" {
      RunsTidy(s[1..]);
      if !IsSpace(s[0]) {
        SingleBlanksCons(s[0], CollapseRuns(s[1..]));
      } else if |s| == 1 || !IsSpace(s[1]) {
        SingleBlanksCons(' ', CollapseRuns(s[1..]));
      }
    }
  }

  lemma TrimSingle(s: string)
    requires SingleBlanks(s)
    ensures Tidy(Trim(s))
  {
    var start := TrimStart(s);
    if s != "" && IsSpace(s[0]) {
      SingleBlanksTail(s);
      assert |s| > 1 ==> s[1..][0] == s[1];
      assert TrimStart(s[1..]) == s[1..];
    }
    if start != "" && IsSpace(start[|start| - 1]) {
      var end := start[..|start| - 1];
      assert SingleBlanks(end);
      assert end != "" ==> start[|start| - 2] == end[|end| - 1];
      assert TrimEnd(start) == end;
    }
  }

  /** Collapsing gives a tidy string, which collapsing again leaves alone. */
  lemma CollapseTidy(s: string)
    ensures Tidy(Collapse(s)) && Collapse(Collapse(s)) == Collapse(s)
  {
    RunsTidy(s);
    TrimSingle(CollapseRuns(s));
    TidyCollapse(Collapse(s));
  }

  // ---------------------------------------------------------------- round trips

  /** What parsing makes of a tidy string: the one syntax that accepts it. */
  lemma ParseTidy(s: string, f: Format, p: Parts)
    requires ValidParts(p) && s == PrintForm(p, f)
    ensures ParseCandidate(s, Strong) == Ok(Parsed(PrintForm(p, Canonical), f))
  {
    hide MatchForm, PrintForm;
    TidyForm(p, f);
    TidyCollapse(s);
    MatchPrinted(p, f);
    forall g | g != f ensures MatchForm(s, g).None? {
      if MatchForm(s, g).Some? {
        FormsDisjoint(s, f, g);
      }
    }
  }

  /** Parsing looks at the collapsed string only. */
  lemma ParseCollapsed(raw: string, context: Context)
    ensures ParseCandidate(raw, context) == ParseCandidate(Collapse(raw), context)
  {
    hide MatchForm, PrintForm;
    CollapseTidy(raw);
  }

  /** Printing a canonical number in any format and parsing it gives both back. */
  lemma ParseOfFormat(canonical: string, f: Format)
    requires IsCanonical(canonical)
    ensures FormatNumber(canonical, f).Some?
    ensures ParseCandidate(FormatNumber(canonical, f).value, Strong) == Ok(Parsed(canonical, f))
  {
    var p := MatchForm(canonical, Canonical).value;
    MatchFormIff(canonical, Canonical, p);
    ParseTidy(PrintForm(p, f), f, p);
  }

  /** Acceptance means that the syntax reported accepts the collapsed string. */
  lemma Accepted(raw: string)
    requires ParseCandidate(raw, Strong).Ok?
    ensures var parsed := ParseCandidate(raw, Strong).value;
            var p := MatchForm(Collapse(raw), parsed.inputFormat);
            && p.Some?
            && parsed.canonical == if parsed.inputFormat == Canonical then Collapse(raw) else PrintForm(p.value, Canonical)
  {
    hide MatchForm, PrintForm;
    CollapseTidy(raw);
  }

  /** Every accepted string, its white space collapsed, is its number printed in its format. */
  lemma FormatOfParse(raw: string)
    requires ParseCandidate(raw, Strong).Ok?
    ensures var parsed := ParseCandidate(raw, Strong).value;
            && IsCanonical(parsed.canonical)
            && FormatNumber(parsed.canonical, parsed.inputFormat) == Some(Collapse(raw))
  {
    hide MatchForm, PrintForm, ParseCandidate;
    Accepted(raw);
    var f := ParseCandidate(raw, Strong).value.inputFormat;
    var p := MatchForm(Collapse(raw), f).value;
    PrintMatched(Collapse(raw), f);
    MatchPrinted(p, Canonical);
  }

  /** Without strong context exactly the canonical syntax is accepted, and kept as it is. */
  lemma CanonicalContext(raw: string)
    ensures ParseCandidate(raw, CanonicalOnly).Ok?
       <==> ParseCandidate(raw, Strong).Ok? && ParseCandidate(raw, Strong).value.inputFormat == Canonical
    ensures ParseCandidate(raw, CanonicalOnly).Ok? ==>
              ParseCandidate(raw, CanonicalOnly).value == Parsed(Collapse(raw), Canonical)
  {
    CollapseTidy(raw);
  }
}
