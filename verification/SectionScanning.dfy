/** The scan for section numbers in free text: `findSectionNumbers` of src/lib/section-number.ts. */
module SectionScanning {
  import opened Text
  import opened SectionNumber
  import opened SectionReferences
  import opened SectionRewriting
  import opened SectionWriting

  datatype SectionMatch = SectionMatch(value: string, index: nat)

  datatype Hit = Hit(index: nat, number: Number)

  /** `[\d.]` */
  predicate InNumber(c: char) {
    IsDigit(c) || c == '.'
  }

  /** `FRAGMENT` at index `i`, with its look-behind `(?<![\d.])`. */
  function FragmentAt(text: string, i: nat): Option<Number>
    requires i <= |text|
  {
    if i > 0 && InNumber(text[i - 1]) then None else NumberIn(text[i..], Canonical, CanonicalOnly)
  }

  /** The leftmost match from index `from` on, as `matchAll` finds it. */
  function NextHit(text: string, from: nat): (m: Option<Hit>)
    ensures m.Some? ==> from <= m.value.index < |text| && FragmentAt(text, m.value.index) == Some(m.value.number)
    decreases |text| - from
  {
    if from >= |text| then None
    else
      var n := FragmentAt(text, from);
      if n.Some? then Some(Hit(from, n.value)) else NextHit(text, from + 1)
  }

  lemma {:induction false} NextHitFirst(text: string, from: nat, i: nat)
    requires from <= i < |text| && FragmentAt(text, i).Some?
    ensures NextHit(text, from).Some? && NextHit(text, from).value.index <= i
    decreases |text| - from
  {
    hide FragmentAt;
    if from < i {
      NextHitFirst(text, from + 1, i);
    }
  }

  function End(hit: Hit): nat {
    hit.index + |NumberText(hit.number)|
  }

  lemma HitAdvances(text: string, from: nat)
    requires NextHit(text, from).Some?
    ensures var hit := NextHit(text, from).value;
            && hit.index < End(hit) <= |text|
            && text[hit.index..End(hit)] == NumberText(hit.number)
            && Normalize(NumberText(hit.number)) == Some(PrintForm(hit.number.Parts(), Canonical))
  {
    hide NumberText, NumberIn, PrintForm, ValidParts, Collapse, IsCanonical;
    var hit := NextHit(text, from).value;
    NumberEats(text[hit.index..], Canonical, CanonicalOnly);
    CollapseNumber(hit.number);
    MatchPrinted(hit.number.Parts(), Canonical);
    CanonicalHas(hit.number.Parts());
    TextNotEmpty(hit.number);
  }

  lemma CanonicalHas(p: Parts)
    requires MatchForm(PrintForm(p, Canonical), Canonical) == Some(p)
    ensures IsCanonical(PrintForm(p, Canonical))
  {
  }

  lemma TextNotEmpty(n: Number)
    requires ValidParts(n.Parts())
    ensures NumberText(n) != ""
  {
  }

  /** All matches from an index on. */
  function Hits(text: string, from: nat): seq<Hit>
    decreases |text| - from
  {
    var hit := NextHit(text, from);
    if hit.None? then []
    else
      HitAdvances(text, from);
      [hit.value] + Hits(text, End(hit.value))
  }

  function Matches(hits: seq<Hit>): (m: seq<SectionMatch>)
    ensures |m| == |hits|
    ensures forall k :: 0 <= k < |hits| ==>
      m[k] == SectionMatch(PrintForm(hits[k].number.Parts(), Canonical), hits[k].index)
  {
    seq(|hits|, k requires 0 <= k < |hits| => SectionMatch(PrintForm(hits[k].number.Parts(), Canonical), hits[k].index))
  }

  method FindSectionNumbers(text: string) returns (out: seq<SectionMatch>)
    ensures out == Matches(Hits(text, 0))
  {
    hide FragmentAt, NextHit, PrintForm, Normalize, NumberText;
    out := [];
    ghost var seen: seq<Hit> := [];
    var from := 0;
    var hit := NextHit(text, from);
    while hit.Some?
      invariant hit == NextHit(text, from)
      invariant out == Matches(seen) && seen + Hits(text, from) == Hits(text, 0)
      decreases |text| - from
    {
      HitAdvances(text, from);
      var m := hit.value;
      var value := Normalize(NumberText(m.number));
      if value.Some? {
        out := out + [SectionMatch(value.value, m.index)];
        seen := seen + [m];
      }
      from := End(m);
      hit := NextHit(text, from);
    }
    assert Hits(text, from) == [];
  }

  /**
   Every match is a number as written there, delimited by neither digit nor point before it and no
   digit behind it; its value is the normal form, and the matches do not overlap.
   */
  lemma {:induction false} HitsSound(text: string, from: nat, k: nat)
    requires k < |Hits(text, from)|
    ensures var hits := Hits(text, from);
            && from <= hits[k].index < End(hits[k]) <= |text|
            && Normalize(text[hits[k].index..End(hits[k])]) == Some(Matches(hits)[k].value)
            && (hits[k].index > 0 ==> !InNumber(text[hits[k].index - 1]))
            && (End(hits[k]) < |text| ==> !IsDigit(text[End(hits[k])]))
            && (k + 1 < |hits| ==> End(hits[k]) <= hits[k + 1].index)
    decreases |text| - from
  {
    hide FragmentAt, NextHit, PrintForm, Normalize, NumberText;
    HitAdvances(text, from);
    var hit := NextHit(text, from).value;
    if k == 0 {
      Delimited(text, from);
      if |Hits(text, from)| > 1 {
        HitsSound(text, End(hit), 0);
      }
    } else {
      HitsSound(text, End(hit), k - 1);
    }
  }

  lemma Delimited(text: string, from: nat)
    requires NextHit(text, from).Some?
    ensures var hit := NextHit(text, from).value;
            && (hit.index > 0 ==> !InNumber(text[hit.index - 1]))
            && (End(hit) < |text| ==> !IsDigit(text[End(hit)]))
  {
    var hit := NextHit(text, from).value;
    HitAdvances(text, from);
    assert FragmentAt(text, hit.index).Some?;
    hide NumberText, PrintForm, ValidParts, BaseOf, TailOf;
    var s := text[hit.index..];
    NumberEats(s, Canonical, CanonicalOnly);
    TailEats(hit.number.base.rest, CanonicalOnly);
    if End(hit) < |text| {
      assert text[End(hit)] == s[|NumberText(hit.number)|] == hit.number.tail.rest[0];
    }
  }

  lemma {:induction false} HitsCover(text: string, from: nat, i: nat)
    requires from <= i < |text| && FragmentAt(text, i).Some?
    ensures exists k :: 0 <= k < |Hits(text, from)| && Hits(text, from)[k].index <= i < End(Hits(text, from)[k])
    decreases |text| - from
  {
    hide FragmentAt, NumberText;
    hide NextHit;
    var hits := Hits(text, from);
    NextHitFirst(text, from, i);
    var hit := NextHit(text, from).value;
    HitAdvances(text, from);
    if i < End(hit) {
      assert hits[0].index <= i < End(hits[0]);
    } else {
      HitsCover(text, End(hit), i);
      var rest := Hits(text, End(hit));
      var k :| 0 <= k < |rest| && rest[k].index <= i < End(rest[k]);
      assert hits[k + 1] == rest[k];
    }
  }

  // ---------------------------------------------------------------- what is found, on the text alone

  /** A number is written at index `i`, in canonical syntax, neither digit nor point before it. */
  ghost predicate StandsAt(text: string, i: nat, w: Written, rest: string) {
    && i <= |text| && (i > 0 ==> text[i - 1] != '.' && !('0' <= text[i - 1] <= '9'))
    && text[i..] == WrittenText(w) + rest
    && w.format == Canonical && IsWritten(w) && OnOneLine(w)
    && StopsAt(w.parts.tail, rest, CanonicalOnly)
  }

  lemma StandingIsRead(text: string, i: nat, w: Written, rest: string)
    requires StandsAt(text, i, w, rest)
    ensures i <= |text| && FragmentAt(text, i) == Some(NumberFor(w, rest))
  {
    hide NumberIn, IsWritten, StopsAt, WrittenText;
    WrittenIsRead(w, rest, CanonicalOnly);
  }

  lemma ReadStands(text: string, i: nat)
    requires i <= |text| && FragmentAt(text, i).Some?
    ensures var n := FragmentAt(text, i).value; StandsAt(text, i, WrittenIn(n), n.tail.rest)
    ensures var n := FragmentAt(text, i).value; NumberText(n) == WrittenText(WrittenIn(n))
  {
    hide NumberIn, IsWritten, StopsAt, WrittenText, NumberText;
    ReadIsWritten(text[i..], Canonical, CanonicalOnly);
  }

  /** Every match is a number that stands there, and its value is the number's canonical form. */
  lemma {:induction false} HitStands(text: string, from: nat, k: nat)
    requires k < |Hits(text, from)|
    ensures var hit, m := Hits(text, from)[k], Matches(Hits(text, from))[k];
            exists w, rest ::
              && StandsAt(text, hit.index, w, rest)
              && m == SectionMatch(FormText(w.parts, Canonical), hit.index)
              && End(hit) == hit.index + |WrittenText(w)|
    decreases |text| - from
  {
    hide FragmentAt, NextHit, PrintForm, FormText, NumberText, StandsAt, WrittenText;
    HitAdvances(text, from);
    var hit := NextHit(text, from).value;
    if k == 0 {
      ReadStands(text, hit.index);
      var w := WrittenIn(hit.number);
      PrintIsForm(w.parts, Canonical);
      assert Hits(text, from)[0] == hit && End(hit) == hit.index + |WrittenText(w)|;
      assert StandsAt(text, hit.index, w, hit.number.tail.rest);
    } else {
      HitStands(text, End(hit), k - 1);
    }
  }

  /** Nothing is missed: wherever a number stands, a match starts or goes on. */
  lemma HitsComplete(text: string, i: nat, w: Written, rest: string)
    requires StandsAt(text, i, w, rest)
    ensures exists k :: 0 <= k < |Hits(text, 0)| && Hits(text, 0)[k].index <= i < End(Hits(text, 0)[k])
  {
    hide FragmentAt, StandsAt;
    StandingIsRead(text, i, w, rest);
    if i == |text| {
      NothingAtEnd(text, w, rest);
    } else {
      HitsCover(text, 0, i);
    }
  }

  lemma NothingAtEnd(text: string, w: Written, rest: string)
    ensures !StandsAt(text, |text|, w, rest)
  {
    if IsWritten(w) {
      assert WrittenText(w) != "";
    }
  }
}
