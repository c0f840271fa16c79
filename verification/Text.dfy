/** Characters, strings and small containers that every part of the model shares. */
module Text {

  datatype Option<+T> = None | Some(value: T) {
    predicate IsFailure() {
      None?
    }

    function PropagateFailure<U>(): Option<U>
      requires None?
    {
      None
    }

    function Extract(): T
      requires Some?
    {
      value
    }

    function GetOr(default: T): T {
      if Some? then value else default
    }
  }

  datatype Result<+T, +E> = Ok(value: T) | Err(error: E)

  predicate IsDigit(c: char) {
    '0' <= c <= '9'
  }

  /** The class `\s` of ECMAScript: WhiteSpace and LineTerminator. `trim` strips the same set. */
  predicate IsSpace(c: char) {
    || '\t' <= c <= '\r'
    || c == ' '
    || c == '\U{00A0}'
    || c == '\U{1680}'
    || '\U{2000}' <= c <= '\U{200A}'
    || c == '\U{2028}' || c == '\U{2029}' || c == '\U{202F}' || c == '\U{205F}'
    || c == '\U{3000}' || c == '\U{FEFF}'
  }

  /** WhiteSpace and LineTerminator of ECMAScript, listed. */
  const WHITE_SPACE :=
    "\t\n\U{000B}\U{000C}\r \U{00A0}\U{1680}\U{2000}\U{2001}\U{2002}\U{2003}\U{2004}\U{2005}\U{2006}"
    + "\U{2007}\U{2008}\U{2009}\U{200A}\U{2028}\U{2029}\U{202F}\U{205F}\U{3000}\U{FEFF}"

  predicate AllWhite(s: string) {
    forall k :: 0 <= k < |s| ==> s[k] in WHITE_SPACE
  }

  lemma WhiteIff(c: char)
    ensures c in WHITE_SPACE <==> IsSpace(c)
  {
    if IsSpace(c) {
      assert WHITE_SPACE[0] == '\t' && WHITE_SPACE[1] == '\n' && WHITE_SPACE[2] == '\U{000B}'
          && WHITE_SPACE[3] == '\U{000C}' && WHITE_SPACE[4] == '\r' && WHITE_SPACE[5] == ' '
          && WHITE_SPACE[6] == '\U{00A0}' && WHITE_SPACE[7] == '\U{1680}' && WHITE_SPACE[8] == '\U{2000}'
          && WHITE_SPACE[9] == '\U{2001}' && WHITE_SPACE[10] == '\U{2002}' && WHITE_SPACE[11] == '\U{2003}'
          && WHITE_SPACE[12] == '\U{2004}' && WHITE_SPACE[13] == '\U{2005}' && WHITE_SPACE[14] == '\U{2006}'
          && WHITE_SPACE[15] == '\U{2007}' && WHITE_SPACE[16] == '\U{2008}' && WHITE_SPACE[17] == '\U{2009}'
          && WHITE_SPACE[18] == '\U{200A}' && WHITE_SPACE[19] == '\U{2028}' && WHITE_SPACE[20] == '\U{2029}'
          && WHITE_SPACE[21] == '\U{202F}' && WHITE_SPACE[22] == '\U{205F}' && WHITE_SPACE[23] == '\U{3000}'
          && WHITE_SPACE[24] == '\U{FEFF}';
    }
  }

  lemma AllWhiteIff(s: string)
    ensures AllWhite(s) <==> forall k :: 0 <= k < |s| ==> IsSpace(s[k])
  {
    hide IsSpace;
    forall k | 0 <= k < |s| ensures s[k] in WHITE_SPACE <==> IsSpace(s[k]) {
      WhiteIff(s[k]);
    }
  }

  predicate AllDigits(s: string) {
    forall k :: 0 <= k < |s| ==> IsDigit(s[k])
  }

  /** Whether `s` has `c` at index `k`. */
  predicate CharAt(s: string, k: nat, c: char) {
    k < |s| && s[k] == c
  }

  // Concatenation is associative, which the verifier does not see in long expressions.

  lemma Assoc(a: string, b: string, c: string)
    ensures (a + b) + c == a + (b + c)
  {
  }

  lemma Nested(a: string, b: string, c: string, d: string, e: string, rest: string)
    ensures a + (b + (c + (d + (e + rest)))) == a + b + c + d + e + rest
  {
  }

  /** The suffix of `s` from index `i` on; empty when `i` lies past the end. */
  function Drop(s: string, i: nat): (r: string)
    ensures |r| == if i <= |s| then |s| - i else 0
  {
    if i <= |s| then s[i..] else ""
  }

  /** `s.indexOf(c)`. */
  function IndexOf(s: string, c: char): (r: Option<nat>)
    ensures r.Some? ==> r.value < |s| && s[r.value] == c && c !in s[..r.value]
    ensures r.None? ==> c !in s
  {
    if s == "" then None
    else if s[0] == c then Some(0)
    else
      var rest := IndexOf(s[1..], c);
      assert s == [s[0]] + s[1..];
      if rest.Some? then
        assert s[..rest.value + 1] == [s[0]] + s[1..][..rest.value];
        Some(rest.value + 1)
      else None
  }

  /** Prepending text without `c` moves the first `c` by its length. */
  lemma {:induction false} IndexOfAfter(before: string, c: char, rest: string)
    requires c !in before
    ensures IndexOf(before + [c] + rest, c) == Some(|before|)
  {
    if before == "" {
      assert before + [c] + rest == [c] + rest;
    } else {
      var s := before + [c] + rest;
      assert s[1..] == before[1..] + [c] + rest;
      IndexOfAfter(before[1..], c, rest);
    }
  }

  /** Length of the longest prefix of `s` whose characters all satisfy `p`. */
  function Span(s: string, p: char -> bool): (n: nat)
    ensures n <= |s|
    ensures forall k :: 0 <= k < n ==> p(s[k])
    ensures n < |s| ==> !p(s[n])
  {
    if s != "" && p(s[0]) then 1 + Span(s[1..], p) else 0
  }

  lemma SpanUnique(s: string, p: char -> bool, n: nat)
    requires n <= |s| && (forall k :: 0 <= k < n ==> p(s[k])) && (n < |s| ==> !p(s[n]))
    ensures Span(s, p) == n
  {
  }

  function Join(parts: seq<string>, separator: string): string {
    if parts == [] then ""
    else if |parts| == 1 then parts[0]
    else parts[0] + separator + Join(parts[1..], separator)
  }

  /** `s.split(c)`. */
  function Split(s: string, c: char): (parts: seq<string>)
    ensures parts != []
    decreases |s|
  {
    var n := IndexOf(s, c);
    if n.None? then [s] else [s[..n.value]] + Split(s[n.value + 1..], c)
  }

  /** Splitting cuts at every `c`. */
  lemma {:induction false} SplitJoins(s: string, c: char)
    ensures Join(Split(s, c), [c]) == s && forall k :: 0 <= k < |Split(s, c)| ==> c !in Split(s, c)[k]
    decreases |s|
  {
    var n := IndexOf(s, c);
    if n.Some? {
      var rest := s[n.value + 1..];
      SplitJoins(rest, c);
      assert Split(s, c)[1..] == Split(rest, c);
      assert s == s[..n.value] + [c] + rest;
    }
  }

  /** `s.trim()`, from either end. */
  function TrimStart(s: string): string {
    if s != "" && IsSpace(s[0]) then TrimStart(s[1..]) else s
  }

  function TrimEnd(s: string): string {
    if s != "" && IsSpace(s[|s| - 1]) then TrimEnd(s[..|s| - 1]) else s
  }

  function Trim(s: string): string {
    TrimEnd(TrimStart(s))
  }

  predicate Spaces(s: string) {
    forall k :: 0 <= k < |s| ==> IsSpace(s[k])
  }

  lemma {:induction false} StartTrimmed(lead: string, s: string)
    requires Spaces(lead) && (s != "" ==> !IsSpace(s[0]))
    ensures TrimStart(lead + s) == s
  {
    hide IsSpace;
    if lead == "" {
      assert lead + s == s;
    } else {
      assert (lead + s)[1..] == lead[1..] + s;
      StartTrimmed(lead[1..], s);
    }
  }

  lemma {:induction false} EndTrimmed(s: string, trail: string)
    requires Spaces(trail) && (s != "" ==> !IsSpace(s[|s| - 1]))
    ensures TrimEnd(s + trail) == s
    decreases |trail|
  {
    hide IsSpace;
    if trail == "" {
      assert s + trail == s;
    } else {
      var n := |trail| - 1;
      assert (s + trail)[|s| + n] == trail[n] && (s + trail)[..|s| + n] == s + trail[..n];
      EndTrimmed(s, trail[..n]);
    }
  }

  lemma {:induction false} StartCut(s: string) returns (lead: string)
    ensures Spaces(lead) && s == lead + TrimStart(s)
    ensures TrimStart(s) != "" ==> !IsSpace(TrimStart(s)[0])
  {
    hide IsSpace;
    lead := "";
    if s != "" && IsSpace(s[0]) {
      lead := StartCut(s[1..]);
      lead := [s[0]] + lead;
    }
  }

  lemma {:induction false} EndCut(s: string) returns (trail: string)
    ensures Spaces(trail) && s == TrimEnd(s) + trail
    ensures TrimEnd(s) != "" ==> TrimEnd(s)[0] == s[0] && !IsSpace(TrimEnd(s)[|TrimEnd(s)| - 1])
    decreases |s|
  {
    hide IsSpace;
    trail := "";
    if s != "" && IsSpace(s[|s| - 1]) {
      trail := EndCut(s[..|s| - 1]);
      trail := trail + [s[|s| - 1]];
    }
  }

  lemma TrimCut(lead: string, t: string, trail: string)
    requires Spaces(lead) && Spaces(trail) && (t != "" ==> !IsSpace(t[0]) && !IsSpace(t[|t| - 1]))
    ensures Trim(lead + (t + trail)) == t
  {
    hide TrimStart, TrimEnd, IsSpace;
    if t == "" {
      assert Spaces(lead + trail);
      assert lead + (t + trail) == (lead + trail) + "" && "" + "" == "";
      StartTrimmed(lead + trail, "");
      EndTrimmed("", "");
    } else {
      assert (t + trail)[0] == t[0];
      StartTrimmed(lead, t + trail);
      EndTrimmed(t, trail);
    }
  }

  /** Trimming takes the white space at both ends, and nothing else. */
  lemma TrimIff(s: string, t: string)
    ensures Trim(s) == t
       <==> && (t != "" ==> t[0] !in WHITE_SPACE && t[|t| - 1] !in WHITE_SPACE)
            && exists lead, trail :: s == lead + (t + trail) && AllWhite(lead) && AllWhite(trail)
  {
    hide TrimStart, TrimEnd, AllWhite, IsSpace;
    if t != "" {
      WhiteIff(t[0]);
      WhiteIff(t[|t| - 1]);
    }
    forall w: string ensures AllWhite(w) <==> Spaces(w) {
      AllWhiteIff(w);
    }
    if Trim(s) == t {
      var lead := StartCut(s);
      var trail := EndCut(TrimStart(s));
      assert s == lead + (t + trail) && AllWhite(lead) && AllWhite(trail);
    }
    forall lead, trail | s == lead + (t + trail) && AllWhite(lead) && AllWhite(trail)
                         && (t != "" ==> !IsSpace(t[0]) && !IsSpace(t[|t| - 1]))
      ensures Trim(s) == t
    {
      TrimCut(lead, t, trail);
    }
  }

  function DigitChar(d: nat): (c: char)
    requires d < 10
    ensures IsDigit(c)
  {
    '0' + d as char
  }

  /** `String(n)` for a natural number. */
  function Decimal(n: nat): (s: string)
    ensures s != "" && AllDigits(s)
  {
    if n < 10 then [DigitChar(n)] else Decimal(n / 10) + [DigitChar(n % 10)]
  }

  function DigitValue(c: char): (d: nat)
    requires IsDigit(c)
  {
    c as int - '0' as int
  }

  function DecimalValue(s: string): nat
    requires AllDigits(s)
  {
    if s == "" then 0 else 10 * DecimalValue(s[..|s| - 1]) + DigitValue(s[|s| - 1])
  }

  lemma {:induction false} DecimalRoundTrip(n: nat)
    ensures DecimalValue(Decimal(n)) == n
  {
    if n >= 10 {
      DecimalRoundTrip(n / 10);
      assert Decimal(n)[..|Decimal(n)| - 1] == Decimal(n / 10);
    } else {
      assert Decimal(n)[..0] == "";
    }
  }

  lemma DecimalInjective(m: nat, n: nat)
    requires Decimal(m) == Decimal(n)
    ensures m == n
  {
    DecimalRoundTrip(m);
    DecimalRoundTrip(n);
  }

  function Min(a: nat, b: nat): nat {
    if a < b then a else b
  }
}
