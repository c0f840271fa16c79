/**
 The one-pass scanner of src/lib/regex-safety.ts that rejects regex sources of star height
 above one. The pure readers take the pattern's suffix from the index they look at, so
 `pattern[i + 1]` of the source is `s[1]` here. The functions `ClassLength`, `Close`, `Apply`,
 `Step` and `Scan` specify the methods, which keep the source's indices, loops and mutable
 frame stack.
 */
module RegexSafety {
  import opened Text

  datatype Quantifier = Quantifier(unbounded: bool, len: nat)

  /** What one step does: characters consumed, the frames afterwards, and the verdict. */
  datatype Stepped = Stepped(len: nat, frames: seq<bool>, danger: bool)

  // ---------------------------------------------------------------- pure readers

  /** Length of the run of digits at the head of `s`. */
  function DigitRun(s: string): (n: nat)
    ensures n <= |s|
  {
    if s != "" && IsDigit(s[0]) then 1 + DigitRun(s[1..]) else 0
  }

  /** `/^\d+(?:,\d*)?$/` */
  predicate IsBraceBody(body: string) {
    var n := DigitRun(body);
    n > 0 && (n == |body| || (body[n] == ',' && n + 1 + DigitRun(body[n + 1..]) == |body|))
  }

  /** `/^\d+,$/` */
  predicate IsOpenEnded(body: string) {
    var n := DigitRun(body);
    n > 0 && n + 1 == |body| && body[n] == ','
  }

  function ReadBraceQuantifier(s: string): Option<Quantifier>
    requires s != "" && s[0] == '{'
  {
    var close := IndexOf(s, '}');
    if close.None? then None
    else
      var body := s[1..close.value];
      if !IsBraceBody(body) then None
      else
        var base := close.value + 1;
        var lazy := base < |s| && s[base] == '?';
        Some(Quantifier(IsOpenEnded(body), if lazy then base + 1 else base))
  }

  /** A quantifier at the head of `s`, its lazy `?` included except after `?` itself. */
  function ReadQuantifier(s: string): (q: Option<Quantifier>)
    ensures q.Some? ==> 0 < q.value.len <= |s|
  {
    if s == "" then None
    else if s[0] == '*' || s[0] == '+' then
      Some(Quantifier(true, if 1 < |s| && s[1] == '?' then 2 else 1))
    else if s[0] == '?' then Some(Quantifier(false, 1))
    else if s[0] == '{' then ReadBraceQuantifier(s)
    else None
  }

  /** Characters consumed by the group opener at the head of `s`. */
  function GroupOpenLen(s: string): (n: nat)
    ensures n > 0
  {
    if !CharAt(s, 1, '?') then 1
    else if !CharAt(s, 2, '<') then 3
    else if CharAt(s, 3, '=') || CharAt(s, 3, '!') then 4
    else
      var close := IndexOf(s, '>');
      if close.None? then 2 else close.value + 1
  }

  // ---------------------------------------------------------------- specification

  /** Index just past the `]` that ends the class members from index `j` on. */
  function MembersEnd(s: string, j: nat): (end: nat)
    ensures end > j
    decreases |s| - j
  {
    if j >= |s| || s[j] == ']' then j + 1
    else MembersEnd(s, if s[j] == '\\' then j + 2 else j + 1)
  }

  /** Characters skipped for the character class at the head of `s`. */
  function ClassLength(s: string): (n: nat)
    ensures n > 0
  {
    var negated := if CharAt(s, 1, '^') then 2 else 1;
    MembersEnd(s, if CharAt(s, negated, ']') then negated + 1 else negated)
  }

  /** Mark the innermost frame when `value` holds; with no frame there is nothing to mark. */
  function Mark(frames: seq<bool>, value: bool): (r: seq<bool>)
    ensures |r| == |frames|
  {
    if value && frames != [] then frames[|frames| - 1 := true] else frames
  }

  function Close(s: string, frames: seq<bool>): Stepped
    requires s != ""
  {
    var inner := frames != [] && frames[|frames| - 1];
    var popped := if frames == [] then [] else frames[..|frames| - 1];
    var q := ReadQuantifier(s[1..]);
    var unbounded := q.Some? && q.value.unbounded;
    if unbounded && inner then Stepped(1, popped, true)
    else Stepped(if q.Some? then 1 + q.value.len else 1, Mark(popped, inner || unbounded), false)
  }

  /** An atom of `atom` characters at the head of `s`, and the quantifier behind it. */
  function Apply(s: string, atom: nat, frames: seq<bool>): Stepped {
    var q := ReadQuantifier(Drop(s, atom));
    if q.None? then Stepped(atom, frames, false)
    else Stepped(atom + q.value.len, Mark(frames, q.value.unbounded), false)
  }

  function Step(s: string, frames: seq<bool>): (r: Stepped)
    requires s != ""
    ensures r.len > 0
  {
    if s[0] == '\\' then Apply(s, 2, frames)
    else if s[0] == '[' then Apply(s, ClassLength(s), frames)
    else if s[0] == '(' then Stepped(GroupOpenLen(s), frames + [false], false)
    else if s[0] == ')' then Close(s, frames)
    else if s[0] == '|' then Stepped(1, frames, false)
    else Apply(s, 1, frames)
  }

  predicate Scan(s: string, frames: seq<bool>)
    decreases |s|
  {
    s != "" &&
    var step := Step(s, frames);
    step.danger || Scan(Drop(s, step.len), step.frames)
  }

  // The specification at an index of the whole pattern, one step on.

  lemma {:induction false} MembersFrom(pattern: string, i: nat, j: nat)
    requires i <= |pattern|
    ensures i + MembersEnd(pattern[i..], j) == MembersEnd(pattern, i + j)
    decreases |pattern| - j
  {
    if i + j < |pattern| && pattern[i + j] != ']' {
      MembersFrom(pattern, i, if pattern[i + j] == '\\' then j + 2 else j + 1);
    }
  }

  lemma ScanFrom(pattern: string, i: nat, frames: seq<bool>)
    requires i < |pattern|
    ensures var step := Step(pattern[i..], frames);
            Scan(Drop(pattern, i), frames) == (step.danger || Scan(Drop(pattern, i + step.len), step.frames))
  {
    var step := Step(pattern[i..], frames);
    assert Drop(pattern, i) == pattern[i..];
    assert Drop(pattern[i..], step.len) == Drop(pattern, i + step.len);
  }

  // ---------------------------------------------------------------- the scanner

  method SkipCharClass(pattern: string, i: nat) returns (next: nat)
    requires i < |pattern|
    ensures next == i + ClassLength(pattern[i..])
  {
    var j := i + 1;
    if j < |pattern| && pattern[j] == '^' {
      j := j + 1;
    }
    if j < |pattern| && pattern[j] == ']' {
      j := j + 1;
    }
    ghost var end := MembersEnd(pattern, j);
    MembersFrom(pattern, i, j - i);
    while j < |pattern| && pattern[j] != ']'
      invariant MembersEnd(pattern, j) == end
    {
      j := j + if pattern[j] == '\\' then 2 else 1;
    }
    next := j + 1;
  }

  class Scanner {
    var frames: seq<bool>

    constructor ()
      ensures frames == [false]
    {
      frames := [false];
    }

    method Propagate(value: bool)
      modifies this
      ensures frames == Mark(old(frames), value)
    {
      var top := |frames| - 1;
      if top >= 0 && value {
        frames := frames[top := true];
      }
    }

    method CloseGroup(pattern: string, i: nat) returns (next: nat, danger: bool)
      requires i < |pattern|
      modifies this
      ensures next > i && Stepped(next - i, frames, danger) == Close(pattern[i..], old(frames))
    {
      var inner := false;
      if frames != [] {
        inner := frames[|frames| - 1];
        frames := frames[..|frames| - 1];
      }
      var q := ReadQuantifier(pattern[i + 1..]);
      assert pattern[i..][1..] == pattern[i + 1..];
      var unbounded := q.Some? && q.value.unbounded;
      if unbounded && inner {
        return i + 1, true;
      }
      Propagate(inner || unbounded);
      next := if q.Some? then i + 1 + q.value.len else i + 1;
      danger := false;
    }

    method ApplyQuantifier(pattern: string, ghost i: nat, afterAtom: nat) returns (next: nat)
      requires i <= afterAtom && i < |pattern|
      modifies this
      ensures next >= afterAtom && Stepped(next - i, frames, false) == Apply(pattern[i..], afterAtom - i, old(frames))
    {
      assert Drop(pattern[i..], afterAtom - i) == Drop(pattern, afterAtom);
      var q := ReadQuantifier(Drop(pattern, afterAtom));
      if q.None? {
        return afterAtom;
      }
      if q.value.unbounded && frames != [] {
        frames := frames[|frames| - 1 := true];
      }
      next := afterAtom + q.value.len;
    }

    method TakeStep(pattern: string, i: nat) returns (next: nat, danger: bool)
      requires i < |pattern|
      modifies this
      ensures next > i && Stepped(next - i, frames, danger) == Step(pattern[i..], old(frames))
    {
      danger := false;
      var c := pattern[i];
      if c == '\\' {
        next := ApplyQuantifier(pattern, i, i + 2);
      } else if c == '[' {
        var afterClass := SkipCharClass(pattern, i);
        next := ApplyQuantifier(pattern, i, afterClass);
      } else if c == '(' {
        frames := frames + [false];
        next := i + GroupOpenLen(pattern[i..]);
      } else if c == ')' {
        next, danger := CloseGroup(pattern, i);
      } else if c == '|' {
        next := i + 1;
      } else {
        next := ApplyQuantifier(pattern, i, i + 1);
      }
    }
  }

  /** The scan of any string, well formed or not, terminates with the verdict of `Scan`. */
  method HasNestedUnbounded(pattern: string) returns (nested: bool)
    ensures nested == Scan(pattern, [false])
  {
    hide Step;  // `ScanFrom` says all that the loop needs
    var scanner := new Scanner();
    var i := 0;
    ghost var verdict := Scan(pattern, [false]);
    assert Drop(pattern, 0) == pattern;
    while i < |pattern|
      invariant verdict == Scan(Drop(pattern, i), scanner.frames)
      decreases |pattern| - i
    {
      ScanFrom(pattern, i, scanner.frames);
      var next, danger := scanner.TakeStep(pattern, i);
      if danger {
        return true;
      }
      i := next;
    }
    return false;
  }
}
