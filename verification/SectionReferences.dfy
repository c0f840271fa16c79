/**
 The two free-text scanners of src/lib/section-number.ts: `formatSectionReferences`, which
 rewrites cited section numbers, and `findSectionNumbers`. Regular expressions are explicit
 scanners that eat a prefix and return the rest. A greedy `\s+` before a digit never needs to
 give characters back, so `EatWhile` takes the whole run.
 */
module SectionReferences {
  import opened Text
  import opened SectionNumber

  datatype Eaten = Eaten(text: string, rest: string)

  datatype Base = Base(first: string, gap1: string, second: string, gap2: string, third: string, rest: string)

  datatype TailMatch = TailMatch(tail: Tail, gap: string, rest: string)

  datatype Number = Number(base: Base, tail: TailMatch, format: Format) {
    function Parts(): Parts {
      SectionNumber.Parts(base.first, base.second, base.third, tail.tail)
    }
  }

  /** A match of the citation expression: keyword and white space, then the number as written. */
  datatype Citation = Citation(prefix: string, raw: string, number: Number) {
    function Rest(): string {
      number.tail.rest
    }
  }

  // ---------------------------------------------------------------- scanners

  /** `\d{2}` */
  function EatPair(s: string): (r: Option<Eaten>)
    ensures r.Some? ==> s == r.value.text + r.value.rest && Pair(r.value.text)
  {
    if |s| >= 2 && Pair(s[..2]) then Some(Eaten(s[..2], s[2..])) else None
  }

  /** One or more characters of a class, as many as there are. */
  function EatWhile(s: string, p: char -> bool): (r: Option<Eaten>)
    ensures r.Some? ==> s == r.value.text + r.value.rest && r.value.text != ""
    ensures r.Some? ==> forall k :: 0 <= k < |r.value.text| ==> p(r.value.text[k])
  {
    var n := Span(s, p);
    if n == 0 then None else Some(Eaten(s[..n], s[n..]))
  }

  /** `[^\S\r\n]` */
  predicate IsBlank(c: char) {
    IsSpace(c) && c != '\r' && c != '\n'
  }

  ghost predicate IsGap(gap: string, separator: string) {
    if separator == " " then gap != "" && forall k :: 0 <= k < |gap| ==> IsSpace(gap[k])
    else gap == separator
  }

  function EatGap(s: string, separator: string): (r: Option<Eaten>)
    requires separator == "" || separator == " " || separator == "."
    ensures r.Some? ==> s == r.value.text + r.value.rest && IsGap(r.value.text, separator)
  {
    if separator == "" then Some(Eaten("", s))
    else if separator == " " then EatWhile(s, IsSpace)
    else if s != "" && s[0] == '.' then Some(Eaten(s[..1], s[1..]))
    else None
  }

  function BaseOf(s: string, f: Format): Option<Base> {
    var first :- EatPair(s);
    var gap1 :- EatGap(first.rest, Separator1(f));
    var second :- EatPair(gap1.rest);
    var gap2 :- EatGap(second.rest, Separator2(f));
    var third :- EatPair(gap2.rest);
    Some(Base(first.text, gap1.text, second.text, gap2.text, third.text, third.rest))
  }

  predicate DigitAt(s: string, k: nat) {
    k < |s| && IsDigit(s[k])
  }

  /** `\.\d{2}(?!\d)` */
  function SuffixTail(s: string): Option<TailMatch> {
    if s == "" || s[0] != '.' then None
    else
      var suffix :- EatPair(s[1..]);
      if DigitAt(suffix.rest, 0) then None
      else Some(TailMatch(Suffix(suffix.text), "", suffix.rest))
  }

  /** `\.\d{2}(?!\d)[^\S\r\n]+\d{2}(?!\d)` */
  function AgencyTail(s: string): Option<TailMatch> {
    var suffix :- SuffixTail(s);
    var gap :- EatWhile(suffix.rest, IsBlank);
    var agency :- EatPair(gap.rest);
    if DigitAt(agency.rest, 0) then None
    else Some(TailMatch(Agency(suffix.tail.suffix, agency.text), gap.text, agency.rest))
  }

  /** `(?!\d)(?!\.\d)`, the second guard only in strong context. */
  predicate Guards(s: string, context: Context) {
    !DigitAt(s, 0) && !(context == Strong && s != "" && s[0] == '.' && DigitAt(s, 1))
  }

  /** The optional tail: the longest form first, a shorter one when the guards then fail. */
  function TailOf(s: string, context: Context): Option<TailMatch> {
    var agency, suffix := AgencyTail(s), SuffixTail(s);
    if agency.Some? && Guards(agency.value.rest, context) then agency
    else if suffix.Some? && Guards(suffix.value.rest, context) then suffix
    else if Guards(s, context) then Some(TailMatch(Bare, "", s))
    else None
  }

  function NumberIn(s: string, f: Format, context: Context): Option<Number> {
    var base :- BaseOf(s, f);
    var tail :- TailOf(base.rest, context);
    Some(Number(base, tail, f))
  }

  /** `STRONG_FRAGMENT` without its look-behind: four alternatives in order. */
  function NumberOf(s: string): Option<Number> {
    var canonical, spaced := NumberIn(s, Canonical, Strong), NumberIn(s, SpacedCompact, Strong);
    var dots := NumberIn(s, Dots, Strong);
    if canonical.Some? then canonical
    else if spaced.Some? then spaced
    else if dots.Some? then dots
    else NumberIn(s, Compact, Strong)
  }

  function Lower(c: char): char {
    if 'A' <= c <= 'Z' then c - 'A' + 'a' else c
  }

  /** `Section`, in any case, at the head of `s`. */
  predicate KeywordAt(s: string) {
    |s| >= 7 && forall k :: 0 <= k < 7 ==> Lower(s[k]) == "section"[k]
  }

  predicate IsWord(c: char) {
    'a' <= c <= 'z' || 'A' <= c <= 'Z' || IsDigit(c) || c == '_'
  }

  /**
   `\b(Section\s+)` and `STRONG_FRAGMENT` at the head of `s`; `afterWord` says that a word
   character precedes it. The look-behind holds, as white space precedes the number.
   */
  function CitationAt(afterWord: bool, s: string): Option<Citation> {
    if afterWord || !KeywordAt(s) then None
    else
      var gap :- EatWhile(s[7..], IsSpace);
      var number :- NumberOf(gap.rest);
      Some(Citation(s[..7] + gap.text, NumberText(number), number))
  }

  // ---------------------------------------------------------------- what is eaten

  function TailText(t: TailMatch): string {
    match t.tail
    case Bare => ""
    case Suffix(suffix) => "." + suffix
    case Agency(suffix, agency) => "." + suffix + t.gap + agency
  }

  function BaseText(b: Base): string {
    b.first + b.gap1 + b.second + b.gap2 + b.third
  }

  /** The characters a number was read from. */
  function NumberText(n: Number): string {
    BaseText(n.base) + TailText(n.tail)
  }

  lemma BaseEats(s: string, f: Format)
    requires BaseOf(s, f).Some?
    ensures var b := BaseOf(s, f).value;
            && s == BaseText(b) + b.rest
            && Pair(b.first) && Pair(b.second) && Pair(b.third)
            && IsGap(b.gap1, Separator1(f)) && IsGap(b.gap2, Separator2(f))
  {
    hide EatPair, EatGap, IsGap, Pair;
    var b := BaseOf(s, f).value;
    Nested(b.first, b.gap1, b.second, b.gap2, b.third, b.rest);
  }

  lemma SuffixEats(s: string)
    requires SuffixTail(s).Some?
    ensures var t := SuffixTail(s).value;
            && s == "." + t.tail.suffix + t.rest
            && t.tail.Suffix? && ValidTail(t.tail) && t.gap == ""
  {
    assert s == "." + s[1..];
  }

  lemma AgencyEats(s: string)
    requires AgencyTail(s).Some?
    ensures var t := AgencyTail(s).value;
            && t.tail.Agency? && ValidTail(t.tail)
            && s == TailText(t) + t.rest
            && t.gap != "" && forall k :: 0 <= k < |t.gap| ==> IsBlank(t.gap[k])
  {
    hide EatPair, EatWhile, SuffixTail, Pair, IsBlank;
    var suffix := SuffixTail(s).value;
    var gap := EatWhile(suffix.rest, IsBlank).value;
    var agency := EatPair(gap.rest).value;
    SuffixEats(s);
    Assoc("." + suffix.tail.suffix, gap.text, agency.text + agency.rest);
    Assoc("." + suffix.tail.suffix + gap.text, agency.text, agency.rest);
  }

  lemma TailEats(s: string, context: Context)
    requires TailOf(s, context).Some?
    ensures var t := TailOf(s, context).value;
            && s == TailText(t) + t.rest
            && ValidTail(t.tail) && Guards(t.rest, context)
            && (t.tail.Agency? ==> IsGap(t.gap, " "))
  {
    hide AgencyTail, SuffixTail, Guards;
    if AgencyTail(s).Some? {
      AgencyEats(s);
    }
    if SuffixTail(s).Some? {
      SuffixEats(s);
    }
    assert s == "" + s;
  }

  lemma NumberEats(s: string, f: Format, context: Context)
    requires NumberIn(s, f, context).Some?
    ensures var n := NumberIn(s, f, context).value;
            && s == NumberText(n) + n.tail.rest
            && ValidParts(n.Parts()) && n.format == f
            && IsGap(n.base.gap1, Separator1(f)) && IsGap(n.base.gap2, Separator2(f))
            && (n.tail.tail.Agency? ==> IsGap(n.tail.gap, " "))
  {
    hide BaseOf, TailOf, BaseText, TailText;
    var n := NumberIn(s, f, context).value;
    BaseEats(s, f);
    TailEats(n.base.rest, context);
    assert BaseText(n.base) + (TailText(n.tail) + n.tail.rest) == NumberText(n) + n.tail.rest;
  }
}
