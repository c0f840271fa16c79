/** The CSI labels of src/ast/labels.ts. */
module Labels {
  import opened Text
  import opened SpecTree

  // ---------------------------------------------------------------- letters

  predicate IsBase(base: char) {
    base == 'A' || base == 'a'
  }

  /** The `n`-th word over the 26 letters from `base` on, shorter words first, from 1. */
  function Letters(n: nat, base: char): string
    requires IsBase(base)
  {
    if n == 0 then "" else Letters((n - 1) / 26, base) + [base + ((n - 1) % 26) as char]
  }

  predicate IsLetter(c: char, base: char)
    requires IsBase(base)
  {
    base <= c <= base + 25 as char
  }

  predicate AllLetters(s: string, base: char)
    requires IsBase(base)
  {
    forall k :: 0 <= k < |s| ==> IsLetter(s[k], base)
  }

  function LettersValue(s: string, base: char): nat
    requires IsBase(base) && AllLetters(s, base)
  {
    if s == "" then 0
    else 26 * LettersValue(s[..|s| - 1], base) + (s[|s| - 1] - base) as nat + 1
  }

  /** The loop of `alphaLabel`. */
  method AlphaLabel(index: nat, upper: bool) returns (out: string)
    ensures out == Letters(index + 1, if upper then 'A' else 'a')
  {
    var n: nat := index + 1;
    out := "";
    var base := if upper then 'A' else 'a';
    while n > 0
      invariant Letters(n, base) + out == Letters(index + 1, base)
    {
      n := n - 1;
      assert Letters(n / 26, base) + ([base + (n % 26) as char] + out)
          == Letters(n / 26, base) + [base + (n % 26) as char] + out;
      out := [base + (n % 26) as char] + out;
      n := n / 26;
    }
    assert Letters(0, base) + out == out;
  }

  /** Bijective base 26: reading the letters gives the number back. */
  lemma {:induction false} LettersRoundTrip(n: nat, base: char)
    requires IsBase(base)
    ensures AllLetters(Letters(n, base), base) && LettersValue(Letters(n, base), base) == n
    ensures n > 0 ==> Letters(n, base) != ""
  {
    if n > 0 {
      var init, last := Letters((n - 1) / 26, base), base + ((n - 1) % 26) as char;
      LettersRoundTrip((n - 1) / 26, base);
      LettersAppend(init, last, base);
    }
  }

  lemma LettersAppend(init: string, last: char, base: char)
    requires IsBase(base) && AllLetters(init, base) && IsLetter(last, base)
    ensures AllLetters(init + [last], base)
    ensures LettersValue(init + [last], base) == 26 * LettersValue(init, base) + (last - base) as nat + 1
  {
    assert (init + [last])[..|init|] == init;
  }

  /** Every word of letters is the label of the number it reads as. */
  lemma {:induction false} ValueRoundTrip(s: string, base: char)
    requires IsBase(base) && AllLetters(s, base)
    ensures Letters(LettersValue(s, base), base) == s
  {
    if s != "" {
      var init, last := s[..|s| - 1], s[|s| - 1];
      ValueRoundTrip(init, base);
      LettersNext(LettersValue(init, base), last, base);
      hide Letters;
      assert s == init + [last];
    }
  }

  lemma LettersNext(n: nat, last: char, base: char)
    requires IsBase(base) && IsLetter(last, base)
    ensures Letters(26 * n + (last - base) as nat + 1, base) == Letters(n, base) + [last]
  {
    var digit := (last - base) as nat;
    DivMod26(n, digit);
    assert base + digit as char == last;
  }

  lemma DivMod26(q: nat, r: nat)
    requires r < 26
    ensures (26 * q + r) / 26 == q && (26 * q + r) % 26 == r
  {
  }

  // ---------------------------------------------------------------- labels

  function GetLabel(kind: NodeType, index: nat, partNumber: nat): string {
    match kind
    case Part => "PART " + Decimal(index + 1) + " -"
    case Article => Decimal(partNumber) + "." + Decimal(index + 1)
    case Pr1 => Letters(index + 1, 'A') + "."
    case Pr2 => Decimal(index + 1) + "."
    case Pr3 => Letters(index + 1, 'a') + "."
    case Pr4 => Decimal(index + 1) + ")"
    case Pr5 => Letters(index + 1, 'a') + ")"
    case Pr6 => Decimal(index + 1) + ")"
    case Pr7 => Letters(index + 1, 'a') + ")"
    case _ => ""
  }

  predicate ConsumesNumber(node: Node) {
    && node.kind != Note && node.kind != Continuation
    && node.kind != Object && node.kind != ObjectText
    && !node.meta.vanish
  }

  /** The counter a label writes, and how it writes it. */
  datatype Style = Words | Dotted | Digits(close: char) | Upper | Lowers(close: char)

  function StyleOf(kind: NodeType): Style
    requires LevelOf(kind).Some?
  {
    match kind
    case Part => Words
    case Article => Dotted
    case Pr1 => Upper
    case Pr2 => Digits('.')
    case Pr3 => Lowers('.')
    case Pr4 => Digits(')')
    case Pr5 => Lowers(')')
    case Pr6 => Digits(')')
    case _ => Lowers(')')
  }

  /** The first and the last character of a label tell its style. */
  lemma LabelShape(kind: NodeType, index: nat, partNumber: nat)
    requires LevelOf(kind).Some?
    ensures GetLabel(kind, index, partNumber) != ""
    ensures var text := GetLabel(kind, index, partNumber);
            var last := text[|text| - 1];
            match StyleOf(kind)
            case Words => text[0] == 'P' && last == '-'
            case Dotted => IsDigit(text[0]) && IsDigit(last)
            case Digits(close) => IsDigit(text[0]) && last == close && text == Decimal(index + 1) + [close]
            case Upper => IsLetter(text[0], 'A') && last == '.' && text == Letters(index + 1, 'A') + ['.']
            case Lowers(close) => IsLetter(text[0], 'a') && last == close && text == Letters(index + 1, 'a') + [close]
  {
    hide Letters;
    FirstLetter(index + 1, 'A');
    FirstLetter(index + 1, 'a');
  }

  lemma FirstLetter(n: nat, base: char)
    requires IsBase(base) && n > 0
    ensures Letters(n, base) != "" && IsLetter(Letters(n, base)[0], base)
  {
    LettersRoundTrip(n, base);
  }

  lemma InitEqual(a: string, b: string, x: char, y: char)
    requires a + [x] == b + [y]
    ensures a == b && x == y
  {
    assert (a + [x])[..|a|] == a && (b + [y])[..|b|] == b;
    assert (a + [x])[|a|] == x && (b + [y])[|b|] == y;
  }

  /** Structural labels under one part number are equal only for equal ordinals. */
  lemma EqualLabels(k1: NodeType, i: nat, k2: NodeType, j: nat, partNumber: nat)
    requires LevelOf(k1).Some? && LevelOf(k2).Some?
    requires GetLabel(k1, i, partNumber) == GetLabel(k2, j, partNumber)
    ensures i == j
  {
    hide Letters, Decimal;
    LabelShape(k1, i, partNumber);
    LabelShape(k2, j, partNumber);
    SameStyle(k1, i, k2, j, partNumber);
    match StyleOf(k1)
    case Words =>
      MiddleEqual("PART ", Decimal(i + 1), Decimal(j + 1), " -");
      DecimalInjective(i + 1, j + 1);
    case Dotted =>
      MiddleEqual(Decimal(partNumber) + ".", Decimal(i + 1), Decimal(j + 1), "");
      assert Decimal(partNumber) + "." + Decimal(i + 1) + "" == Decimal(partNumber) + "." + Decimal(i + 1);
      DecimalInjective(i + 1, j + 1);
    case Digits(close) =>
      InitEqual(Decimal(i + 1), Decimal(j + 1), close, close);
      DecimalInjective(i + 1, j + 1);
    case Upper =>
      InitEqual(Letters(i + 1, 'A'), Letters(j + 1, 'A'), '.', '.');
      LettersInjective(i + 1, j + 1, 'A');
    case Lowers(close) =>
      InitEqual(Letters(i + 1, 'a'), Letters(j + 1, 'a'), close, close);
      LettersInjective(i + 1, j + 1, 'a');
  }

  lemma LettersInjective(m: nat, n: nat, base: char)
    requires IsBase(base) && Letters(m, base) == Letters(n, base)
    ensures m == n
  {
    LettersRoundTrip(m, base);
    LettersRoundTrip(n, base);
  }

  lemma MiddleEqual(before: string, a: string, b: string, after: string)
    requires before + a + after == before + b + after
    ensures a == b
  {
    assert (before + a + after)[|before|..|before| + |a|] == a;
    assert (before + b + after)[|before|..|before| + |b|] == b;
  }

  lemma SameStyle(k1: NodeType, i: nat, k2: NodeType, j: nat, partNumber: nat)
    requires LevelOf(k1).Some? && LevelOf(k2).Some?
    requires GetLabel(k1, i, partNumber) == GetLabel(k2, j, partNumber)
    ensures StyleOf(k1) == StyleOf(k2)
  {
    hide Letters, Decimal, GetLabel;
    LabelShape(k1, i, partNumber);
    LabelShape(k2, j, partNumber);
  }

  // ---------------------------------------------------------------- reading labels

  function ReadDecimal(s: string): Option<nat> {
    if s != "" && AllDigits(s) then Some(DecimalValue(s)) else None
  }

  function ReadLetters(s: string, base: char): Option<nat>
    requires IsBase(base)
  {
    if s != "" && AllLetters(s, base) then Some(LettersValue(s, base)) else None
  }

  /** What stands before a closing character. */
  function Before(s: string, close: char): Option<string> {
    if s != "" && s[|s| - 1] == close then Some(s[..|s| - 1]) else None
  }

  /** The counter a label shows, in the style of its level; the part number of an article aside. */
  function ReadCounter(kind: NodeType, label_: string): Option<nat> {
    match kind
    case Part =>
      if |label_| > 7 && label_[..5] == "PART " && label_[|label_| - 2..] == " -"
      then ReadDecimal(label_[5..|label_| - 2]) else None
    case Article =>
      var point :- IndexOf(label_, '.');
      ReadDecimal(label_[point + 1..])
    case Pr1 => var word :- Before(label_, '.'); ReadLetters(word, 'A')
    case Pr2 => var word :- Before(label_, '.'); ReadDecimal(word)
    case Pr3 => var word :- Before(label_, '.'); ReadLetters(word, 'a')
    case Pr4 => var word :- Before(label_, ')'); ReadDecimal(word)
    case Pr5 => var word :- Before(label_, ')'); ReadLetters(word, 'a')
    case Pr6 => var word :- Before(label_, ')'); ReadDecimal(word)
    case Pr7 => var word :- Before(label_, ')'); ReadLetters(word, 'a')
    case _ => None
  }

  /** The number an article's label shows before its point. */
  function ReadPartNumber(label_: string): Option<nat> {
    var point :- IndexOf(label_, '.');
    ReadDecimal(label_[..point])
  }

  lemma ReadsDecimal(n: nat)
    ensures ReadDecimal(Decimal(n)) == Some(n)
  {
    hide Decimal;
    DecimalRoundTrip(n);
  }

  lemma ReadsLetters(n: nat, base: char)
    requires IsBase(base) && n > 0
    ensures ReadLetters(Letters(n, base), base) == Some(n)
  {
    hide Letters;
    LettersRoundTrip(n, base);
  }

  lemma BeforeClose(word: string, close: char)
    ensures Before(word + [close], close) == Some(word)
  {
  }

  lemma CutAtPoint(before: string, behind: string)
    requires AllDigits(before)
    ensures IndexOf(before + "." + behind, '.') == Some(|before|)
    ensures var s := before + "." + behind; s[..|before|] == before && s[|before| + 1..] == behind
  {
    hide IndexOf;
    assert '.' !in before;
    IndexOfAfter(before, '.', behind);
    assert "." == ['.'];
  }

  /** A label reads as its ordinal counted from one; an article's also as its part number. */
  lemma LabelReads(kind: NodeType, index: nat, partNumber: nat)
    requires LevelOf(kind).Some?
    ensures ReadCounter(kind, GetLabel(kind, index, partNumber)) == Some(index + 1)
    ensures kind == Article ==> ReadPartNumber(GetLabel(kind, index, partNumber)) == Some(partNumber)
  {
    hide Decimal, Letters, ReadDecimal, ReadLetters, Before, IndexOf, AllLetters;
    ReadsDecimal(index + 1);
    var digits := Decimal(index + 1);
    match kind
    case Part =>
      var s := "PART " + digits + " -";
      assert s[..5] == "PART " && s[|s| - 2..] == " -" && s[5..|s| - 2] == digits;
    case Article =>
      ReadsDecimal(partNumber);
      CutAtPoint(Decimal(partNumber), digits);
    case Pr1 =>
      ReadsLetters(index + 1, 'A');
      BeforeClose(Letters(index + 1, 'A'), '.');
    case Pr2 =>
      BeforeClose(digits, '.');
    case Pr3 =>
      ReadsLetters(index + 1, 'a');
      BeforeClose(Letters(index + 1, 'a'), '.');
    case Pr5 =>
      ReadsLetters(index + 1, 'a');
      BeforeClose(Letters(index + 1, 'a'), ')');
    case Pr7 =>
      ReadsLetters(index + 1, 'a');
      BeforeClose(Letters(index + 1, 'a'), ')');
    case _ =>
      BeforeClose(digits, ')');
  }
}
