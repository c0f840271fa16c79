/** What `parseSectionNumberCandidate` of src/lib/section-number.ts accepts, and why it refuses the rest. */
module SectionParsing {
  import opened Text
  import opened SectionNumber
  import opened SectionRewriting
  import opened SectionWriting

  // ---------------------------------------------------------------- collapsing joins the words

  predicate NoWhite(s: string) {
    forall k :: 0 <= k < |s| ==> s[k] !in WHITE_SPACE
  }

  /** The words of a text with the white space around them. */
  function Spread(words: seq<string>, gaps: seq<string>): string
    requires |gaps| == |words| + 1
  {
    gaps[0] + if words == [] then "" else words[0] + Spread(words[1..], gaps[1..])
  }

  ghost predicate Words(words: seq<string>, gaps: seq<string>) {
    && |gaps| == |words| + 1
    && (forall k :: 0 <= k < |words| ==> words[k] != "" && NoWhite(words[k]))
    && (forall k :: 0 <= k < |gaps| ==> AllWhite(gaps[k]))
    && (forall k :: 0 < k < |words| ==> gaps[k] != "")
  }

  /** A gap collapsed. */
  function Blank(gap: string): string {
    if gap == "" then "" else " "
  }

  lemma CollapseBlank(gap: string, s: string)
    requires AllWhite(gap) && (s != "" ==> s[0] !in WHITE_SPACE)
    ensures CollapseRuns(gap + s) == Blank(gap) + CollapseRuns(s)
  {
    hide CollapseRuns, AllWhite;
    AllWhiteIff(gap);
    if gap == "" {
      assert gap + s == s && Blank(gap) + CollapseRuns(s) == CollapseRuns(s);
    } else {
      if s != "" {
        WhiteIff(s[0]);
      }
      CollapseSpaces(gap, s);
    }
  }

  lemma CollapseWord(word: string, s: string)
    requires NoWhite(word)
    ensures CollapseRuns(word + s) == word + CollapseRuns(s)
  {
    hide CollapseRuns;
    forall k | 0 <= k < |word| ensures !IsSpace(word[k]) {
      WhiteIff(word[k]);
    }
    CollapseText(word, s);
  }

  lemma {:induction false} CollapseSpread(words: seq<string>, gaps: seq<string>)
    requires Words(words, gaps)
    ensures CollapseRuns(Spread(words, gaps))
         == Blank(gaps[0]) + if words == [] then "" else Join(words, " ") + Blank(gaps[|words|])
    decreases |words|
  {
    hide CollapseRuns, NoWhite, AllWhite;
    if words == [] {
      CollapseBlank(gaps[0], "");
      assert CollapseRuns("") == "" by {
        NothingCollapses();
      }
    } else {
      var rest := Spread(words[1..], gaps[1..]);
      var behind := words[0] + rest;
      NoWhiteHead(words[0], rest);
      CollapseBlank(gaps[0], behind);
      CollapseWord(words[0], rest);
      CollapseSpread(words[1..], gaps[1..]);
      if |words| > 1 {
        Assoc(words[0] + " ", Join(words[1..], " "), Blank(gaps[|words|]));
        Assoc(words[0], " ", Join(words[1..], " ") + Blank(gaps[|words|]));
      } else {
        assert words[1..] == [] && Blank(gaps[1]) + "" == Blank(gaps[1]);
      }
    }
  }

  lemma NothingCollapses()
    ensures CollapseRuns("") == ""
  {
  }

  lemma NoWhiteHead(word: string, s: string)
    requires word != "" && NoWhite(word)
    ensures (word + s)[0] !in WHITE_SPACE
  {
  }

  lemma {:induction false} JoinEnds(words: seq<string>)
    requires words != [] && forall k :: 0 <= k < |words| ==> words[k] != "" && NoWhite(words[k])
    ensures var s := Join(words, " "); s != "" && !IsSpace(s[0]) && !IsSpace(s[|s| - 1])
    decreases |words|
  {
    WhiteIff(words[0][0]);
    if |words| == 1 {
      WhiteIff(words[0][|words[0]| - 1]);
    } else {
      JoinEnds(words[1..]);
      var s, rest := Join(words, " "), Join(words[1..], " ");
      assert s[|s| - 1] == rest[|rest| - 1];
    }
  }

  /** Collapsing joins the words of a text by single blanks. */
  lemma CollapseJoins(words: seq<string>, gaps: seq<string>)
    requires Words(words, gaps)
    ensures Collapse(Spread(words, gaps)) == Join(words, " ")
  {
    hide CollapseRuns, Spread, AllWhite, IsSpace;
    CollapseSpread(words, gaps);
    if words != [] {
      hide NoWhite;
      JoinEnds(words);
      BlankSpaces(gaps[0]);
      BlankSpaces(gaps[|words|]);
      TrimCut(Blank(gaps[0]), Join(words, " "), Blank(gaps[|words|]));
    } else {
      TrimBlank(gaps[0]);
    }
  }

  lemma BlankSpaces(gap: string)
    ensures Spaces(Blank(gap))
  {
  }

  lemma TrimBlank(gap: string)
    ensures Trim(Blank(gap) + "") == ""
  {
    BlankSpaces(gap);
    assert "" + "" == "";
    TrimCut(Blank(gap), "", "");
  }

  // ---------------------------------------------------------------- accepted and refused

  /** A text is parsed as a number in a format exactly when it is that number's form but for white space. */
  lemma ParsesIff(raw: string, p: Parts, f: Format)
    requires PartsWritten(p)
    ensures ParseCandidate(raw, Strong) == Ok(Parsed(FormText(p, Canonical), f)) <==> Collapse(raw) == FormText(p, f)
  {
    hide MatchForm, PrintForm, FormText, ParseCandidate, Collapse;
    PartsIff(p);
    PrintIsForm(p, f);
    PrintIsForm(p, Canonical);
    if Collapse(raw) == FormText(p, f) {
      ParseCollapsed(raw, Strong);
      ParseTidy(Collapse(raw), f, p);
    }
    if ParseCandidate(raw, Strong) == Ok(Parsed(FormText(p, Canonical), f)) {
      FormatOfParse(raw);
      MatchPrinted(p, Canonical);
      assert FormatNumber(FormText(p, Canonical), f) == Some(Collapse(raw));
    }
  }

  /** Every accepted text is the form of some number. */
  lemma ParsesSome(raw: string)
    requires ParseCandidate(raw, Strong).Ok?
    ensures exists p: Parts, f: Format ::
              PartsWritten(p) && ParseCandidate(raw, Strong) == Ok(Parsed(FormText(p, Canonical), f))
  {
    hide MatchForm, PrintForm, FormText, ParseCandidate, Collapse, PartsWritten;
    FormatOfParse(raw);
    var parsed := ParseCandidate(raw, Strong).value;
    var p := MatchForm(parsed.canonical, Canonical).value;
    PrintMatched(parsed.canonical, Canonical);
    PartsIff(p);
    PrintIsForm(p, Canonical);
    assert PartsWritten(p) && ParseCandidate(raw, Strong) == Ok(Parsed(FormText(p, Canonical), parsed.inputFormat));
  }

  /** A refusal names its reason: nothing but white space, or not the syntax the context asks for. */
  lemma RefusalReason(raw: string, context: Context)
    requires ParseCandidate(raw, context).Err?
    ensures ParseCandidate(raw, context).error
         == if AllWhite(raw) then EmptyInput
            else match context case CanonicalOnly => NotCanonical case Strong => InvalidFormat
  {
    hide MatchForm, PrintForm, Collapse;
    EmptyIff(raw);
  }

  lemma EmptyIff(raw: string)
    ensures Collapse(raw) == "" <==> AllWhite(raw)
  {
    hide AllWhite, IsSpace, CollapseRuns, Trim;
    if AllWhite(raw) {
      CollapseBlank(raw, "");
      NothingCollapses();
      assert raw + "" == raw;
      TrimBlank(raw);
    } else {
      AllWhiteIff(raw);
      var k :| 0 <= k < |raw| && !IsSpace(raw[k]);
      RunsKeep(raw, k);
      var runs := CollapseRuns(raw);
      var i :| 0 <= i < |runs| && !IsSpace(runs[i]);
      TrimKeeps(runs, i);
    }
  }

  lemma {:induction false} RunsKeep(s: string, k: nat)
    requires k < |s| && !IsSpace(s[k])
    ensures exists i :: 0 <= i < |CollapseRuns(s)| && !IsSpace(CollapseRuns(s)[i])
  {
    hide IsSpace;
    if k == 0 {
      assert CollapseRuns(s)[0] == s[0];
    } else {
      RunsKeep(s[1..], k - 1);
      var runs, rest := CollapseRuns(s), CollapseRuns(s[1..]);
      var i :| 0 <= i < |rest| && !IsSpace(rest[i]);
      assert runs == rest || runs == [runs[0]] + rest;
      assert runs[if runs == rest then i else i + 1] == rest[i];
    }
  }

  lemma {:induction false} TrimKeeps(s: string, k: nat)
    requires k < |s| && !IsSpace(s[k])
    ensures Trim(s) != ""
    decreases |s|
  {
    if IsSpace(s[0]) {
      TrimKeeps(s[1..], k - 1);
    } else {
      TrimEndKeeps(s);
    }
  }

  lemma {:induction false} TrimEndKeeps(s: string)
    requires s != "" && !IsSpace(s[0])
    ensures TrimEnd(s) != ""
    decreases |s|
  {
    if |s| > 1 && IsSpace(s[|s| - 1]) {
      TrimEndKeeps(s[..|s| - 1]);
    }
  }
}
