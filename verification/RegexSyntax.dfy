/**
 Regular expressions as section 22.2.1 of ECMA-262 writes them, with the literal `]`, `}` and
 `{` that its Annex B adds, and the proof that the scanner of module RegexSafety decides
 exactly whether their star height exceeds one.
 */
module RegexSyntax {
  import opened Text
  import opened RegexSafety

  datatype Count =
    | Exactly(n: string)
    | AtLeast(n: string)
    | Between(lo: string, hi: string)

  datatype Quant =
    | Once
    | Star(lazy: bool)
    | Plus(lazy: bool)
    | Optional(lazy: bool)
    | Braces(count: Count, lazy: bool)

  /** `Special(c)` is `(?c`: `(?:`, the lookaheads `(?=` and `(?!`, and flag modifiers. */
  datatype GroupKind =
    | Capture
    | Special(mark: char)
    | Lookbehind(positive: bool)
    | Named(name: string)

  datatype Member = Plain(c: char) | Escaped(c: char)

  /** An escape of several characters, as `\x41`, is an `Escape` and the characters behind it. */
  datatype Atom =
    | Char(c: char)
    | Escape(c: char)
    | Class(negated: bool, members: seq<Member>)
    | Group(kind: GroupKind, body: Regex)

  /** A disjunction read left to right: terms, and the bars between its alternatives. */
  datatype Regex =
    | Empty
    | Bar(rest: Regex)
    | Term(atom: Atom, quant: Quant, rest: Regex)

  // ---------------------------------------------------------------- printing

  function PrintCount(count: Count): string {
    match count
    case Exactly(n) => n
    case AtLeast(n) => n + ","
    case Between(lo, hi) => lo + "," + hi
  }

  function Lazy(lazy: bool): string {
    if lazy then "?" else ""
  }

  function PrintQuant(q: Quant): string {
    match q
    case Once => ""
    case Star(lazy) => "*" + Lazy(lazy)
    case Plus(lazy) => "+" + Lazy(lazy)
    case Optional(lazy) => "?" + Lazy(lazy)
    case Braces(count, lazy) => "{" + PrintCount(count) + "}" + Lazy(lazy)
  }

  function PrintOpen(kind: GroupKind): string {
    match kind
    case Capture => "("
    case Special(mark) => "(?" + [mark]
    case Lookbehind(positive) => "(?<" + (if positive then "=" else "!")
    case Named(name) => "(?<" + name + ">"
  }

  function PrintMember(member: Member): string {
    match member
    case Plain(c) => [c]
    case Escaped(c) => ['\\', c]
  }

  function PrintMembers(members: seq<Member>): string {
    if members == [] then "" else PrintMember(members[0]) + PrintMembers(members[1..])
  }

  function PrintClass(negated: bool, members: seq<Member>): string {
    (if negated then "[^" else "[") + PrintMembers(members) + "]"
  }

  function PrintAtom(atom: Atom): string {
    match atom
    case Char(c) => [c]
    case Escape(c) => ['\\', c]
    case Class(negated, members) => PrintClass(negated, members)
    case Group(kind, body) => PrintOpen(kind) + Print(body) + ")"
  }

  function Print(r: Regex): string {
    match r
    case Empty => ""
    case Bar(rest) => "|" + Print(rest)
    case Term(atom, q, rest) => PrintAtom(atom) + PrintQuant(q) + Print(rest)
  }

  // ---------------------------------------------------------------- syntax and meaning

  predicate ValidCount(count: Count) {
    match count
    case Exactly(n) => n != "" && AllDigits(n)
    case AtLeast(n) => n != "" && AllDigits(n)
    case Between(lo, hi) => lo != "" && AllDigits(lo) && hi != "" && AllDigits(hi)
  }

  /** The text begins with a quantifier in braces. */
  ghost predicate OpensBraces(s: string) {
    exists count, rest :: ValidCount(count) && s == "{" + PrintCount(count) + "}" + rest
  }

  predicate ValidKind(kind: GroupKind) {
    match kind
    case Special(mark) => mark != '<'
    case Named(name) => '>' !in name && name != "" && name[0] != '=' && name[0] != '!'
    case _ => true
  }

  /** Members of a class: no unescaped `]` or backslash, and `^` only behind the negation mark. */
  predicate ValidMembers(negated: bool, members: seq<Member>) {
    && (forall k :: 0 <= k < |members| && members[k].Plain? ==> members[k].c != ']' && members[k].c != '\\')
    && (members != [] && !negated ==> members[0] != Plain('^'))
  }

  ghost predicate ValidAtom(atom: Atom) {
    match atom
    case Char(c) => c !in "\\[()|*+?"
    case Escape(_) => true
    case Class(negated, members) => members != [] && ValidMembers(negated, members)
    case Group(kind, body) => ValidKind(kind) && Valid(body)
  }

  /** A literal `{` must not begin what is a quantifier, as in `a{2}`; `a{2` and `a{x}` are no such case. */
  ghost predicate Valid(r: Regex) {
    match r
    case Empty => true
    case Bar(rest) => Valid(rest)
    case Term(atom, q, rest) =>
      && ValidAtom(atom)
      && (q.Braces? ==> ValidCount(q.count))
      && (atom == Char('{') ==> !OpensBraces(Print(r)))
      && Valid(rest)
  }

  predicate Unbounded(q: Quant) {
    q.Star? || q.Plus? || (q.Braces? && q.count.AtLeast?)
  }

  /** How deeply unbounded quantifiers nest: one more for each, the maximum over the parts. */
  function StarHeight(r: Regex): nat {
    match r
    case Empty => 0
    case Bar(rest) => StarHeight(rest)
    case Term(atom, q, rest) =>
      var height := AtomHeight(atom) + (if Unbounded(q) then 1 else 0);
      if height < StarHeight(rest) then StarHeight(rest) else height
  }

  function AtomHeight(atom: Atom): nat {
    match atom
    case Group(_, body) => StarHeight(body)
    case _ => 0
  }

  // ---------------------------------------------------------------- quantifiers

  lemma {:induction false} DigitRunOf(digits: string, rest: string)
    requires AllDigits(digits)
    requires rest == "" || !IsDigit(rest[0])
    ensures DigitRun(digits + rest) == |digits|
  {
    if digits == "" {
      assert digits + rest == rest;
    } else {
      assert (digits + rest)[1..] == digits[1..] + rest;
      DigitRunOf(digits[1..], rest);
    }
  }

  lemma BraceBody(count: Count)
    requires ValidCount(count)
    ensures IsBraceBody(PrintCount(count))
    ensures IsOpenEnded(PrintCount(count)) == count.AtLeast?
    ensures '}' !in PrintCount(count)
  {
    match count
    case Exactly(n) =>
      DigitRunOf(n, "");
      assert n + "" == n;
    case AtLeast(n) =>
      DigitRunOf(n, ",");
    case Between(lo, hi) =>
      DigitRunOf(lo, "," + hi);
      DigitRunOf(hi, "");
      var body := lo + "," + hi;
      assert body == lo + ("," + hi);
      assert body[|lo| + 1..] == hi == hi + "";
  }

  lemma ReadBraceText(body: string, after: string)
    requires IsBraceBody(body) && '}' !in body
    ensures ReadQuantifier(['{'] + body + ['}'] + after)
         == Some(Quantifier(IsOpenEnded(body), if after != "" && after[0] == '?' then |body| + 3 else |body| + 2))
  {
    var s := ['{'] + body + ['}'] + after;
    IndexOfAfter(['{'] + body, '}', after);
    assert s[1..|body| + 1] == body;
    assert after != "" ==> s[|body| + 2] == after[0];
  }

  lemma BraceParts(body: string, lazy: string, rest: string)
    ensures ("{" + body + "}" + lazy) + rest == ['{'] + body + ['}'] + (lazy + rest)
    ensures |"{" + body + "}" + lazy| == |body| + 2 + |lazy|
  {
    Assoc(['{'] + body + ['}'], lazy, rest);
    assert "{" == ['{'] && "}" == ['}'];
  }

  lemma AfterBrace(lazy: bool, rest: string)
    requires rest == "" || rest[0] != '?'
    ensures var after := Lazy(lazy) + rest;
            (after != "" && after[0] == '?') == lazy && |Lazy(lazy)| == if lazy then 1 else 0
  {
  }

  lemma ReadBraceParts(body: string, lazy: bool, rest: string)
    requires IsBraceBody(body) && '}' !in body
    requires rest == "" || rest[0] != '?'
    ensures var text := "{" + body + "}" + Lazy(lazy);
            ReadQuantifier(text + rest) == Some(Quantifier(IsOpenEnded(body), |text|))
  {
    hide ReadQuantifier, IsBraceBody, IsOpenEnded, Lazy;
    AfterBrace(lazy, rest);
    BraceParts(body, Lazy(lazy), rest);
    ReadBraceText(body, Lazy(lazy) + rest);
  }

  lemma ReadBraces(q: Quant, rest: string)
    requires q.Braces? && ValidCount(q.count)
    requires rest == "" || rest[0] != '?'
    ensures ReadQuantifier(PrintQuant(q) + rest) == Some(Quantifier(Unbounded(q), |PrintQuant(q)|))
  {
    hide ReadQuantifier, IsBraceBody, IsOpenEnded, Lazy, PrintCount;
    BraceBody(q.count);
    ReadBraceParts(PrintCount(q.count), q.lazy, rest);
  }

  /** What the reader makes of a printed quantifier: `??` counts as `?` and a separate mark. */
  lemma ReadPrinted(q: Quant, rest: string)
    requires !q.Once? && (q.Braces? ==> ValidCount(q.count))
    requires rest == "" || rest[0] != '?'
    ensures ReadQuantifier(PrintQuant(q) + rest)
         == Some(Quantifier(Unbounded(q), if q.Optional? then 1 else |PrintQuant(q)|))
  {
    if q.Braces? {
      ReadBraces(q, rest);
    } else {
      var s := PrintQuant(q) + rest;
      assert s[1..] == Lazy(q.lazy) + rest;
      assert |s| > 1 ==> s[1] == s[1..][0];
    }
  }

  predicate NoQuantifier(s: string) {
    ReadQuantifier(s).None?
  }

  /** Behind an atom, its quantifier is consumed and marks the innermost frame. */
  lemma ScanQuantified(atom: string, q: Quant, rest: string, frames: seq<bool>)
    requires q.Braces? ==> ValidCount(q.count)
    requires NoQuantifier(rest)
    ensures
      var s := atom + PrintQuant(q) + rest;
      var step := Apply(s, |atom|, frames);
      !step.danger && Scan(Drop(s, step.len), step.frames) == Scan(rest, Mark(frames, Unbounded(q)))
  {
    var s := atom + PrintQuant(q) + rest;
    var step := Apply(s, |atom|, frames);
    assert Drop(s, |atom|) == PrintQuant(q) + rest;
    if q.Once? {
      assert PrintQuant(q) + rest == rest;
    } else {
      ReadPrinted(q, rest);
      SkipLazyMark(q, rest, frames);
      assert Drop(s, step.len) == Drop(PrintQuant(q) + rest, step.len - |atom|);
    }
  }

  lemma SkipLazyMark(q: Quant, rest: string, frames: seq<bool>)
    requires !q.Once? && NoQuantifier(rest)
    ensures var s := PrintQuant(q) + rest;
            Scan(Drop(s, if q.Optional? then 1 else |PrintQuant(q)|), frames) == Scan(rest, frames)
  {
    var s := PrintQuant(q) + rest;
    assert Drop(s, |PrintQuant(q)|) == rest;
    if q.Optional? && q.lazy {
      var mark := Drop(s, 1);
      assert mark == "?" + rest;
      assert Drop(mark, 1) == rest;
      assert Step(mark, frames) == Stepped(1, frames, false);
    }
  }

  // ---------------------------------------------------------------- what may follow a term

  predicate Ends(rest: string) {
    rest == "" || rest[0] == ')'
  }

  lemma AtomHead(atom: Atom)
    requires ValidAtom(atom)
    ensures PrintAtom(atom) != "" && PrintAtom(atom)[0] !in "*+?"
    ensures PrintAtom(atom)[0] == '{' ==> atom == Char('{')
  {
  }

  lemma {:induction false} DigitRunDigits(s: string)
    ensures forall k :: 0 <= k < DigitRun(s) ==> IsDigit(s[k])
  {
    if s != "" && IsDigit(s[0]) {
      DigitRunDigits(s[1..]);
      assert forall k :: 0 < k < |s| ==> s[k] == s[1..][k - 1];
    }
  }

  /** A body that is recognised is a printed count. */
  lemma BodyCount(body: string) returns (count: Count)
    requires IsBraceBody(body)
    ensures ValidCount(count) && PrintCount(count) == body
  {
    var n := DigitRun(body);
    DigitRunDigits(body);
    if n == |body| {
      count := Exactly(body);
    } else {
      var behind := body[n + 1..];
      DigitRunDigits(behind);
      count := if behind == "" then AtLeast(body[..n]) else Between(body[..n], behind);
      assert body == body[..n] + "," + behind;
    }
  }

  /** A brace is read as a quantifier exactly where the syntax has one. */
  lemma ReadsBracesIff(s: string)
    requires s != "" && s[0] == '{'
    ensures ReadQuantifier(s).Some? <==> OpensBraces(s)
  {
    hide IsBraceBody, IsOpenEnded, PrintCount;
    if ReadQuantifier(s).Some? {
      var close := IndexOf(s, '}').value;
      var count := BodyCount(s[1..close]);
      assert s == "{" + s[1..close] + "}" + s[close + 1..];
      assert s == "{" + PrintCount(count) + "}" + s[close + 1..];
    }
    if OpensBraces(s) {
      var count, rest :| ValidCount(count) && s == "{" + PrintCount(count) + "}" + rest;
      BraceBody(count);
      assert "{" == ['{'] && "}" == ['}'];
      ReadBraceText(PrintCount(count), rest);
    }
  }

  lemma BraceBodyChars(body: string)
    requires IsBraceBody(body)
    ensures ')' !in body
  {
    var n := DigitRun(body);
    DigitRunDigits(body);
    if n < |body| {
      DigitRunDigits(body[n + 1..]);
      assert forall k :: n < k < |body| ==> body[k] == body[n + 1..][k - n - 1];
    }
  }

  /** The end of a group makes no quantifier of a literal brace inside it. */
  lemma BraceBeforeEnd(s: string, rest: string)
    requires s != "" && s[0] == '{' && NoQuantifier(s) && Ends(rest)
    ensures NoQuantifier(s + rest)
  {
    var text := s + rest;
    var close, later := IndexOf(s, '}'), IndexOf(text, '}');
    if close.Some? {
      assert text[close.value] == '}' && text[..close.value] == s[..close.value];
      SameIndex(text, '}', close.value);
      assert text[1..close.value] == s[1..close.value];
    } else if later.Some? {
      assert later.value >= |s| && (rest != "" ==> text[|s|] == ')');
      var body := text[1..later.value];
      assert body[|s| - 1] == ')';
      if IsBraceBody(body) {
        BraceBodyChars(body);
      }
    }
  }

  lemma SameIndex(s: string, c: char, k: nat)
    requires k < |s| && s[k] == c && c !in s[..k]
    ensures IndexOf(s, c) == Some(k)
  {
    IndexOfAfter(s[..k], c, s[k + 1..]);
    assert s == s[..k] + [c] + s[k + 1..];
  }

  /** Neither a printed term nor an end can be taken for a quantifier of what precedes it. */
  lemma NothingToQuantify(r: Regex, rest: string)
    requires Valid(r) && Ends(rest)
    ensures NoQuantifier(Print(r) + rest)
  {
    match r
    case Empty =>
      assert Print(r) + rest == rest;
    case Bar(_) =>
    case Term(atom, q, more) =>
      AtomHead(atom);
      assert Print(r)[0] == PrintAtom(atom)[0];
      if atom == Char('{') {
        ReadsBracesIff(Print(r));
        BraceBeforeEnd(Print(r), rest);
      }
  }

  // ---------------------------------------------------------------- atoms

  lemma MemberSkipped(before: string, member: Member, after: string)
    requires member.Plain? ==> member.c != ']' && member.c != '\\'
    ensures var s := before + PrintMember(member) + after;
            MembersEnd(s, |before|) == MembersEnd(s, |before| + |PrintMember(member)|)
  {
    var s := before + PrintMember(member) + after;
    assert s[|before|] == PrintMember(member)[0];
  }

  lemma {:induction false} MembersSkipped(before: string, members: seq<Member>, rest: string)
    requires ValidMembers(true, members)
    ensures MembersEnd(before + (PrintMembers(members) + ("]" + rest)), |before|)
         == |before| + |PrintMembers(members)| + 1
    decreases |members|
  {
    var after := "]" + rest;
    if members == [] {
      assert before + (PrintMembers(members) + after) == before + after;
    } else {
      var first, more := PrintMember(members[0]), PrintMembers(members[1..]);
      Assoc(first, more, after);
      Assoc(before, first, more + after);
      MemberSkipped(before, members[0], more + after);
      MembersSkipped(before + first, members[1..], rest);
    }
  }

  /** A non-empty class is skipped exactly, whatever follows it. */
  lemma ClassSkipped(negated: bool, members: seq<Member>, rest: string)
    requires members != [] && ValidMembers(negated, members)
    ensures ClassLength(PrintClass(negated, members) + rest) == |PrintClass(negated, members)|
  {
    var opener := if negated then "[^" else "[";
    MembersSkipped(opener, members, rest);
    var s := PrintClass(negated, members) + rest;
    assert s == opener + (PrintMembers(members) + ("]" + rest));
    assert s[|opener|] == PrintMember(members[0])[0];
  }

  /**
   The scanner takes a `]` that opens a class for a member, so it misreads the empty classes
   `[]` and `[^]` of ECMAScript: a class is skipped exactly if and only if it has a member.
   */
  lemma ClassSkippedIff(negated: bool, members: seq<Member>, rest: string)
    requires ValidMembers(negated, members)
    ensures ClassLength(PrintClass(negated, members) + rest) == |PrintClass(negated, members)|
       <==> members != []
  {
    if members != [] {
      ClassSkipped(negated, members, rest);
    } else {
      var s := PrintClass(negated, members) + rest;
      var opener := if negated then "[^" else "[";
      assert s == opener + "]" + rest;
      assert s[|opener|] == ']';
    }
  }

  lemma OpenerSkipped(kind: GroupKind, inside: string)
    requires ValidKind(kind) && inside != "" && NoQuantifier(inside)
    ensures GroupOpenLen(PrintOpen(kind) + inside) == |PrintOpen(kind)|
  {
    var s := PrintOpen(kind) + inside;
    match kind
    case Capture =>
      assert s[1] == inside[0];
    case Named(name) =>
      IndexOfAfter("(?<" + name, '>', inside);
      assert s == "(?<" + name + ['>'] + inside;
      assert s[3] == name[0];
    case _ =>
  }

  lemma ScanOpen(kind: GroupKind, inside: string, frames: seq<bool>)
    requires ValidKind(kind) && inside != "" && NoQuantifier(inside)
    ensures Scan(PrintOpen(kind) + inside, frames) == Scan(inside, frames + [false])
  {
    var s := PrintOpen(kind) + inside;
    OpenerSkipped(kind, inside);
    assert s[0] == '(';
    assert Drop(s, |PrintOpen(kind)|) == inside;
  }

  lemma MarkTwice(frames: seq<bool>, a: bool, b: bool)
    ensures Mark(Mark(frames, a), b) == Mark(frames, a || b)
  {
  }

  // ---------------------------------------------------------------- the theorem

  /** Any atom but a group is one step: the atom, then its quantifier. */
  lemma StepAtom(atom: Atom, behind: string, frames: seq<bool>)
    requires ValidAtom(atom) && !atom.Group?
    ensures var s := PrintAtom(atom) + behind;
            Step(s, frames) == Apply(s, |PrintAtom(atom)|, frames)
  {
    if atom.Class? {
      ClassSkipped(atom.negated, atom.members, behind);
    }
  }

  lemma ScanUnfold(atom: string, quant: string, rest: string, frames: seq<bool>)
    requires atom != ""
    ensures var s := atom + quant + rest;
            var step := Step(s, frames);
            s == atom + (quant + rest) && Scan(s, frames) == (step.danger || Scan(Drop(s, step.len), step.frames))
  {
    assert atom + quant + rest == atom + (quant + rest);
  }

  lemma ScanSimple(atom: Atom, q: Quant, rest: string, frames: seq<bool>)
    requires ValidAtom(atom) && !atom.Group?
    requires q.Braces? ==> ValidCount(q.count)
    requires NoQuantifier(rest)
    ensures Scan(PrintAtom(atom) + PrintQuant(q) + rest, frames) == Scan(rest, Mark(frames, Unbounded(q)))
  {
    ScanQuantified(PrintAtom(atom), q, rest, frames);
    StepAtom(atom, PrintQuant(q) + rest, frames);
    AtomHead(atom);
    ScanUnfold(PrintAtom(atom), PrintQuant(q), rest, frames);
  }

  lemma ScanCloseQuantified(behind: string, unbounded: bool, len: nat, outer: seq<bool>, inner: bool)
    requires ReadQuantifier(behind) == Some(Quantifier(unbounded, len))
    ensures Scan(")" + behind, outer + [inner])
         == ((unbounded && inner) || Scan(Drop(behind, len), Mark(outer, inner || unbounded)))
  {
    hide ReadQuantifier;
    var s := ")" + behind;
    assert s[1..] == behind && Drop(s, 1 + len) == Drop(behind, len);
    assert (outer + [inner])[..|outer|] == outer;
  }

  lemma ScanCloseBare(rest: string, outer: seq<bool>, inner: bool)
    requires NoQuantifier(rest)
    ensures Scan(")" + rest, outer + [inner]) == Scan(rest, Mark(outer, inner))
  {
    var s := ")" + rest;
    assert s[1..] == rest && Drop(s, 1) == rest;
    assert (outer + [inner])[..|outer|] == outer;
  }

  /** Closing a group whose frame says whether it holds an unbounded quantifier. */
  lemma ScanClose(q: Quant, rest: string, outer: seq<bool>, inner: bool)
    requires q.Braces? ==> ValidCount(q.count)
    requires NoQuantifier(rest)
    ensures Scan(")" + PrintQuant(q) + rest, outer + [inner])
         == ((Unbounded(q) && inner) || Scan(rest, Mark(outer, inner || Unbounded(q))))
  {
    if q.Once? {
      assert ")" + PrintQuant(q) + rest == ")" + rest;
      hide Scan;
      ScanCloseBare(rest, outer, inner);
    } else {
      var behind := PrintQuant(q) + rest;
      hide PrintQuant, ReadQuantifier, Scan, Mark;
      var len := if q.Optional? then 1 else |PrintQuant(q)|;
      ReadPrinted(q, rest);
      SkipLazyMark(q, rest, Mark(outer, inner || Unbounded(q)));
      ScanCloseQuantified(behind, Unbounded(q), len, outer, inner);
      assert ")" + PrintQuant(q) + rest == ")" + behind;
    }
  }

  /** The scan of a printed regex is the verdict on it, then the scan of what follows. */
  lemma {:induction false} ScanPrinted(r: Regex, rest: string, frames: seq<bool>)
    requires Valid(r) && Ends(rest) && frames != []
    ensures Scan(Print(r) + rest, frames)
         == (StarHeight(r) >= 2 || Scan(rest, Mark(frames, StarHeight(r) >= 1)))
    decreases r, 0
  {
    hide Scan, Step;
    match r
    case Empty =>
      assert Print(r) + rest == rest;
    case Bar(more) =>
      ScanBar(Print(more) + rest, frames);
      assert Print(r) + rest == "|" + (Print(more) + rest);
      ScanPrinted(more, rest, frames);
    case Term(atom, q, more) =>
      var tail := Print(more) + rest;
      Assoc(PrintAtom(atom) + PrintQuant(q), Print(more), rest);
      ScanTerm(atom, q, tail, frames) by {
        NothingToQuantify(more, rest);
      }
      var marks := AtomHeight(atom) >= 1 || Unbounded(q);
      ScanPrinted(more, rest, Mark(frames, marks));
      MarkTwice(frames, marks, StarHeight(more) >= 1);
  }

  lemma ScanBar(rest: string, frames: seq<bool>)
    ensures Scan("|" + rest, frames) == Scan(rest, frames)
  {
    assert Drop("|" + rest, 1) == rest;
  }

  lemma {:induction false} ScanTerm(atom: Atom, q: Quant, tail: string, frames: seq<bool>)
    requires ValidAtom(atom) && frames != []
    requires q.Braces? ==> ValidCount(q.count)
    requires NoQuantifier(tail)
    ensures Scan(PrintAtom(atom) + PrintQuant(q) + tail, frames)
         == (AtomHeight(atom) + (if Unbounded(q) then 1 else 0) >= 2
             || Scan(tail, Mark(frames, AtomHeight(atom) >= 1 || Unbounded(q))))
    decreases atom, 2
  {
    if atom.Group? {
      ScanGroup(atom.kind, atom.body, q, tail, frames);
    } else {
      ScanSimple(atom, q, tail, frames);
    }
  }

  lemma {:induction false} ScanGroup(kind: GroupKind, body: Regex, q: Quant, tail: string, frames: seq<bool>)
    requires ValidKind(kind) && Valid(body) && frames != []
    requires q.Braces? ==> ValidCount(q.count)
    requires NoQuantifier(tail)
    ensures Scan(PrintAtom(Group(kind, body)) + PrintQuant(q) + tail, frames)
         == (StarHeight(body) + (if Unbounded(q) then 1 else 0) >= 2
             || Scan(tail, Mark(frames, StarHeight(body) >= 1 || Unbounded(q))))
    decreases body, 1
  {
    var closing := ")" + PrintQuant(q) + tail;
    var inside := Print(body) + closing;
    var opener := PrintOpen(kind);
    Assoc(opener + Print(body), ")", PrintQuant(q));
    Assoc(opener + Print(body), ")" + PrintQuant(q), tail);
    Assoc(opener, Print(body), closing);
    assert Scan(PrintOpen(kind) + inside, frames) == Scan(inside, frames + [false]) by {
      NothingToQuantify(body, closing);
      ScanOpen(kind, inside, frames);
    }
    ScanPrinted(body, closing, frames + [false]);
    ScanClose(q, tail, frames, StarHeight(body) >= 1);
    MarkNew(frames, StarHeight(body) >= 1);
  }

  lemma MarkNew(frames: seq<bool>, value: bool)
    ensures Mark(frames + [false], value) == frames + [value]
  {
  }

  /** The scanner rejects exactly the patterns of star height above one. */
  lemma ScannerDecidesStarHeight(r: Regex)
    requires Valid(r)
    ensures Scan(Print(r), [false]) <==> StarHeight(r) >= 2
  {
    ScanPrinted(r, "", [false]);
    assert Print(r) + "" == Print(r);
  }

  // ---------------------------------------------------------------- empty classes

  const A_PLUS := Term(Char('a'), Plus(false), Empty)

  /** `(a+)+` */
  const NESTED := Term(Group(Capture, A_PLUS), Plus(false), Empty)

  /** A class and what follows it. */
  function BehindClass(negated: bool, members: seq<Member>, r: Regex): Regex {
    Term(Class(negated, members), Once, r)
  }

  predicate RightVerdict(r: Regex) {
    Scan(Print(r), [false]) <==> StarHeight(r) >= 2
  }

  lemma NestedText()
    ensures Print(NESTED) == "(a+)+" && Valid(NESTED) && StarHeight(NESTED) == 2
    ensures forall negated :: StarHeight(BehindClass(negated, [], NESTED)) == 2
  {
    assert Print(A_PLUS) == "a+";
    assert PrintAtom(Group(Capture, A_PLUS)) == "(a+)";
  }

  lemma BehindClassText(negated: bool, r: Regex)
    ensures Print(BehindClass(negated, [], r)) == (if negated then "[^" else "[") + "]" + Print(r)
  {
  }

  /**
   An empty class swallows the pattern behind it: `[](a+)+` and `[^](a+)+` have star height two
   and are accepted.
   */
  lemma EmptyClassHidesNesting(negated: bool)
    ensures var r := BehindClass(negated, [], NESTED);
            && Print(r) == (if negated then "[^](a+)+" else "[](a+)+")
            && Valid(NESTED) && StarHeight(r) == 2 && !Scan(Print(r), [false])
  {
    var opener := if negated then "[^" else "[";
    var s := opener + "](a+)+";
    NestedText();
    hide Print, StarHeight;
    assert Print(BehindClass(negated, [], NESTED)) == s by {
      BehindClassText(negated, NESTED);
    }
    NoClosingBracket(s, |opener| + 1);
    assert Step(s, [false]).len > |s|;
  }

  lemma {:induction false} NoClosingBracket(s: string, j: nat)
    requires j <= |s| && (forall k :: j <= k < |s| ==> s[k] != ']')
    ensures MembersEnd(s, j) > |s|
    decreases |s| - j
  {
    if j < |s| {
      var next := if s[j] == '\\' then j + 2 else j + 1;
      if next <= |s| {
        NoClosingBracket(s, next);
      }
    }
  }

  /** And it can hide the start of a group: `a+[](])+` has star height one and is rejected. */
  lemma EmptyClassRejects()
    ensures var group := Term(Group(Capture, Term(Char(']'), Once, Empty)), Plus(false), Empty);
            var r := Term(Char('a'), Plus(false), BehindClass(false, [], group));
            Print(r) == "a+[](])+" && StarHeight(r) == 1 && Scan(Print(r), [false])
  {
    var body := Term(Char(']'), Once, Empty);
    var group := Term(Group(Capture, body), Plus(false), Empty);
    var r := Term(Char('a'), Plus(false), BehindClass(false, [], group));
    assert Print(body) == "]";
    assert PrintAtom(Group(Capture, body)) == "(])";
    assert Print(group) == "(])+";
    assert PrintClass(false, []) == "[]";
    assert Print(BehindClass(false, [], group)) == "[](])+";
    assert Print(r) == "a+[](])+";
    ScanRejected();
  }

  lemma ScanRejected()
    ensures Scan("a+[](])+", [false])
  {
    var s, behind := "a+[](])+", "[](])+";
    assert Drop(s, 1) == "+[](])+" && Drop(s, 2) == behind;
    assert Step(s, [false]) == Stepped(2, [true], false);
    assert MembersEnd(behind, 2) == MembersEnd(behind, 3) == 4;
    assert Drop(behind, 4) == ")+";
    assert Step(behind, [true]) == Stepped(4, [true], false);
    assert ")+"[1..] == "+";
    assert Step(")+", [true]).danger;
    assert Scan(")+", [true]) && Scan(behind, [true]);
  }

  /**
   Why `Valid` asks for a member in every class: whatever valid regex follows a class gets the
   right verdict, if and only if the class has a member.
   */
  lemma VerdictsRightIff(negated: bool, members: seq<Member>)
    requires ValidMembers(negated, members)
    ensures (forall r :: Valid(r) ==> RightVerdict(BehindClass(negated, members, r))) <==> members != []
  {
    if members != [] {
      forall r | Valid(r) ensures RightVerdict(BehindClass(negated, members, r)) {
        ScannerDecidesStarHeight(BehindClass(negated, members, r));
      }
    } else {
      EmptyClassHidesNesting(negated);
      assert Valid(NESTED) && !RightVerdict(BehindClass(negated, [], NESTED));
    }
  }
}
