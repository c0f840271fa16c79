/** The note-region automaton of src/lib/note-delimiters.ts. */
module NoteDelimiters {
  import opened Text
  import opened Sorting

  const RULE_ROW_MIN := 5

  datatype Item = Item(text: string, isHeading: bool, isStructural: bool)

  datatype Role = Rule | Note | NoRole

  predicate IsRuleRow(text: string) {
    var trimmed := Trim(text);
    |trimmed| >= RULE_ROW_MIN && forall k :: 0 <= k < |trimmed| ==> trimmed[k] == '*'
  }

  /** A rule row is never taken for a heading. */
  predicate IsBreak(item: Item) {
    item.isHeading && !IsRuleRow(item.text)
  }

  /** Index behind the last heading before item `k`; 0 without one. */
  function RegionStart(items: seq<Item>, k: nat): (start: nat)
    requires k <= |items|
    ensures start <= k
    ensures start == 0 || IsBreak(items[start - 1])
    ensures forall j :: start <= j < k ==> !IsBreak(items[j])
  {
    if k == 0 then 0 else if IsBreak(items[k - 1]) then k else RegionStart(items, k - 1)
  }

  function RuleRows(items: seq<Item>): nat {
    if items == [] then 0 else (if IsRuleRow(items[0].text) then 1 else 0) + RuleRows(items[1..])
  }

  /** An odd number of rule rows since the last heading: a region is open at item `k`. */
  predicate IsOpen(items: seq<Item>, k: nat)
    requires k <= |items|
  {
    RuleRows(items[RegionStart(items, k)..k]) % 2 == 1
  }

  function RoleAt(items: seq<Item>, k: nat): Role
    requires k < |items|
  {
    if IsRuleRow(items[k].text) then Rule
    else if !items[k].isHeading && IsOpen(items, k) then Note
    else NoRole
  }

  lemma {:induction false} RuleRowsSnoc(items: seq<Item>, item: Item)
    ensures RuleRows(items + [item]) == RuleRows(items) + if IsRuleRow(item.text) then 1 else 0
  {
    if items == [] {
      assert items + [item] == [item] && [item][1..] == [];
    } else {
      assert (items + [item])[1..] == items[1..] + [item];
      RuleRowsSnoc(items[1..], item);
    }
  }

  /** One step of the toggle: a heading closes, a rule row flips, anything else leaves it. */
  lemma OpenStep(items: seq<Item>, k: nat)
    requires k < |items|
    ensures IsOpen(items, k + 1)
         <==> if IsRuleRow(items[k].text) then !IsOpen(items, k)
              else !items[k].isHeading && IsOpen(items, k)
  {
    hide IsRuleRow;
    var start := RegionStart(items, k);
    if IsBreak(items[k]) {
      hide RegionStart;
      assert items[k + 1..k + 1] == [];
    } else {
      assert RegionStart(items, k + 1) == start;
      hide RegionStart, RuleRows;
      assert items[start..k + 1] == items[start..k] + [items[k]];
      RuleRowsSnoc(items[start..k], items[k]);
    }
  }

  method AssignRoles(items: seq<Item>) returns (roles: seq<Role>)
    ensures |roles| == |items| && forall k :: 0 <= k < |items| ==> roles[k] == RoleAt(items, k)
  {
    hide IsRuleRow, IsOpen;
    roles := [];
    var open := false;
    assert !IsOpen(items, 0) by {
      NothingOpen(items);
    }
    for i := 0 to |items|
      invariant |roles| == i && forall k :: 0 <= k < i ==> roles[k] == RoleAt(items, k)
      invariant open == IsOpen(items, i)
    {
      OpenStep(items, i);
      var item := items[i];
      if IsRuleRow(item.text) {
        open := !open;
        roles := roles + [Rule];
      } else if item.isHeading {
        open := false;
        roles := roles + [NoRole];
      } else {
        roles := roles + [if open then Note else NoRole];
      }
    }
  }

  lemma NothingOpen(items: seq<Item>)
    ensures !IsOpen(items, 0)
  {
    assert items[0..0] == [];
  }

  /** A structural item inside an open region shows that the pairing of rule rows has drifted. */
  method ClassifyNoteRoles(items: seq<Item>) returns (roles: seq<Role>)
    ensures |roles| == |items|
    ensures if exists k :: 0 <= k < |items| && RoleAt(items, k) == Note && items[k].isStructural
            then forall k :: 0 <= k < |items| ==> roles[k] == NoRole
            else forall k :: 0 <= k < |items| ==> roles[k] == RoleAt(items, k)
    ensures forall k :: 0 <= k < |items| && items[k].isStructural ==> roles[k] != Note
  {
    hide RoleAt;
    roles := AssignRoles(items);
    if exists i :: 0 <= i < |items| && roles[i] == Note && items[i].isStructural {
      roles := seq(|items|, _ => NoRole);
    }
  }

  // ---------------------------------------------------------------- roles, on the items alone

  /** A rule row is five asterisks or more, with white space around them or none. */
  lemma RuleRowIff(text: string)
    ensures IsRuleRow(text)
       <==> exists lead, stars, trail ::
              && text == lead + (stars + trail) && AllWhite(lead) && AllWhite(trail)
              && |stars| >= 5 && forall k :: 0 <= k < |stars| ==> stars[k] == '*'
  {
    hide AllWhite, Trim, IsSpace;
    TrimIff(text, Trim(text));
    WhiteIff('*');
    assert !IsSpace('*') by {
      StarIsNoSpace();
    }
    forall lead, stars, trail | && text == lead + (stars + trail) && AllWhite(lead) && AllWhite(trail)
                                && |stars| >= 5 && forall k :: 0 <= k < |stars| ==> stars[k] == '*'
      ensures Trim(text) == stars
    {
      TrimIff(text, stars);
    }
  }

  lemma StarIsNoSpace()
    ensures !IsSpace('*')
  {
  }

  /** The last break before item `k` stands right before `start`, which is 0 without one. */
  ghost predicate RegionFrom(items: seq<Item>, start: nat, k: nat) {
    && start <= k <= |items|
    && (start == 0 || (items[start - 1].isHeading && !IsRuleRow(items[start - 1].text)))
    && forall j :: start <= j < k ==> !items[j].isHeading || IsRuleRow(items[j].text)
  }

  /**
   An item that is neither rule row nor heading is a note exactly when the rule rows since the last
   heading are odd in number; rule rows are rules, headings take no role.
   */
  lemma RoleIff(items: seq<Item>, start: nat, k: nat)
    requires k < |items| && RegionFrom(items, start, k)
    ensures RoleAt(items, k)
         == if IsRuleRow(items[k].text) then Rule
            else if items[k].isHeading then NoRole
            else if |Filter((i: Item) => IsRuleRow(i.text), items[start..k])| % 2 == 1 then Note
            else NoRole
  {
    hide IsRuleRow, Filter, RuleRows;
    OneStart(items, start, k);
    RuleRowsCount(items[start..k]);
  }

  lemma {:induction false} RuleRowsCount(items: seq<Item>)
    ensures RuleRows(items) == |Filter((i: Item) => IsRuleRow(i.text), items)|
  {
    hide IsRuleRow;
    if items != [] {
      RuleRowsCount(items[1..]);
    }
  }

  lemma OneStart(items: seq<Item>, start: nat, k: nat)
    requires RegionFrom(items, start, k)
    ensures RegionStart(items, k) == start
  {
    hide IsRuleRow;
    var other := RegionStart(items, k);
    assert other < start ==> IsBreak(items[start - 1]);
    assert start < other ==> IsBreak(items[other - 1]);
  }
}
