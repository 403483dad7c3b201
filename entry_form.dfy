/**
 * The journal-entry form: the rows the student edits, the answer checker that
 * compares them with a scenario's canonical solution, and the form state the
 * check updates.
 */
module EntryForm {
  import opened Wrappers
  import opened JsText
  import opened JsNumber
  import opened Scenarios
  import opened Sequences

  /** One row of the form; every cell holds the raw text of its input. */
  datatype Line = Line(id: int, account: string, debit: string, credit: string)

  datatype Field = Account | Debit | Credit

  function Get(line: Line, field: Field): string
  {
    match field
    case Account => line.account
    case Debit => line.debit
    case Credit => line.credit
  }

  /** The other amount column of a row. */
  function Opposite(side: Field): (r: Field)
    requires side != Account
    ensures r != Account && r != side
  {
    if side == Debit then Credit else Debit
  }

  /** Amounts closer than this are equal for the checker. */
  const Tolerance: real := 0.01

  // ---------------------------------------------------------------------------
  // The rows

  /** The rows the form starts with for a solution of `n` lines: ids 1..n, every cell blank. */
  function BlankLines(n: nat): (lines: seq<Line>)
    ensures |lines| == n
    ensures forall i :: 0 <= i < n ==> lines[i] == Line(i + 1, "", "", "")
  {
    if n == 0 then [] else BlankLines(n - 1) + [Line(n, "", "", "")]
  }

  /**
   * One row after `field` is set to `value`: a non-empty amount empties the
   * opposite amount of the same row.
   */
  function SetField(line: Line, field: Field, value: string): (r: Line)
    ensures r.id == line.id && Get(r, field) == value
    ensures field == Account ==> r.debit == line.debit && r.credit == line.credit
    ensures field != Account ==> r.account == line.account
    ensures field != Account ==>
              Get(r, Opposite(field)) == if value != "" then "" else Get(line, Opposite(field))
  {
    match field
    case Account => line.(account := value)
    case Debit => if value != "" then line.(debit := value, credit := "") else line.(debit := value)
    case Credit => if value != "" then line.(credit := value, debit := "") else line.(credit := value)
  }

  /** `updateLine(id, field, value)`: every row whose id is `id` gets the new cell; the others stay. */
  function UpdateLines(lines: seq<Line>, id: int, field: Field, value: string): (r: seq<Line>)
    ensures |r| == |lines|
    ensures forall i :: 0 <= i < |lines| && lines[i].id != id ==> r[i] == lines[i]
    ensures forall i :: 0 <= i < |lines| && lines[i].id == id ==> r[i] == SetField(lines[i], field, value)
  {
    if lines == [] then []
    else [if lines[0].id == id then SetField(lines[0], field, value) else lines[0]]
         + UpdateLines(lines[1..], id, field, value)
  }

  /** Entering the same value twice leaves the rows as entering it once. */
  lemma UpdateLinesIdempotent(lines: seq<Line>, id: int, field: Field, value: string)
    ensures UpdateLines(UpdateLines(lines, id, field, value), id, field, value) ==
            UpdateLines(lines, id, field, value)
  {
    var once := UpdateLines(lines, id, field, value);
    var twice := UpdateLines(once, id, field, value);
    forall i | 0 <= i < |lines|
      ensures twice[i] == once[i]
    {
      if lines[i].id == id {
        var l := lines[i];
        match field
        case Account =>
        case Debit =>
        case Credit =>
      }
    }
  }

  /** A row counts as entered when it has an account and at least one amount. */
  predicate IsFilled(line: Line)
  {
    line.account != "" && (line.debit != "" || line.credit != "")
  }

  /** `journalLines.filter(...)` keeping the filled rows, in order. */
  function FilledLines(lines: seq<Line>): (r: seq<Line>)
    ensures |r| <= |lines|
    ensures forall l :: l in r <==> l in lines && IsFilled(l)
  {
    if lines == [] then []
    else (if IsFilled(lines[0]) then [lines[0]] else []) + FilledLines(lines[1..])
  }

  lemma {:induction false} FilledLinesCount(lines: seq<Line>, x: Line)
    ensures multiset(FilledLines(lines))[x] == if IsFilled(x) then multiset(lines)[x] else 0
  {
    if lines != [] {
      var head := if IsFilled(lines[0]) then [lines[0]] else [];
      FilledLinesCount(lines[1..], x);
      assert FilledLines(lines) == head + FilledLines(lines[1..]);
      assert multiset(FilledLines(lines)) == multiset(head) + multiset(FilledLines(lines[1..]));
      assert lines == [lines[0]] + lines[1..];
      assert multiset(lines) == multiset{lines[0]} + multiset(lines[1..]);
    }
  }

  /** Rows that are a permutation of each other have filled rows that are a permutation of each other. */
  lemma FilledLinesPermutation(a: seq<Line>, b: seq<Line>)
    requires multiset(a) == multiset(b)
    ensures multiset(FilledLines(a)) == multiset(FilledLines(b))
  {
    forall x
      ensures multiset(FilledLines(a))[x] == multiset(FilledLines(b))[x]
    {
      FilledLinesCount(a, x);
      FilledLinesCount(b, x);
    }
  }

  /** The `reduce` total of one amount column, each cell read as `parseFloat(cell) || 0`. */
  function SideTotal(lines: seq<Line>, side: Field): real
    requires side != Account
  {
    if lines == [] then 0.0
    else SideTotal(lines[..|lines| - 1], side) + NumberOr0(Get(lines[|lines| - 1], side))
  }

  lemma {:induction false} SideTotalAppend(a: seq<Line>, b: seq<Line>, side: Field)
    requires side != Account
    ensures SideTotal(a + b, side) == SideTotal(a, side) + SideTotal(b, side)
  {
    if b != [] {
      assert (a + b)[..|a + b| - 1] == a + b[..|b| - 1];
      SideTotalAppend(a, b[..|b| - 1], side);
    } else {
      assert a + b == a;
    }
  }

  /** Taking one row out of the rows takes its amount out of the total. */
  lemma SideTotalRemove(b: seq<Line>, j: int, side: Field)
    requires side != Account && 0 <= j < |b|
    ensures SideTotal(b, side) == SideTotal(b[..j] + b[j + 1..], side) + NumberOr0(Get(b[j], side))
  {
    assert b == b[..j] + [b[j]] + b[j + 1..];
    SideTotalAppend(b[..j] + [b[j]], b[j + 1..], side);
    SideTotalAppend(b[..j], [b[j]], side);
    SideTotalAppend(b[..j], b[j + 1..], side);
    assert SideTotal([b[j]], side) == NumberOr0(Get(b[j], side)) by {
      assert [b[j]][..0] == [];
    }
  }

  /** A total does not depend on the order of the rows. */
  lemma {:induction false} SideTotalPermutation(a: seq<Line>, b: seq<Line>, side: Field)
    requires side != Account
    requires multiset(a) == multiset(b)
    ensures SideTotal(a, side) == SideTotal(b, side)
  {
    if a == [] {
      assert b == [];
    } else {
      var j := RemoveMatching(a, b);
      SideTotalPermutation(a[..|a| - 1], b[..j] + b[j + 1..], side);
      SideTotalRemove(b, j, side);
    }
  }

  // ---------------------------------------------------------------------------
  // checkAgainstSolution

  /** The amounts stored in the solution lookup for one account. */
  datatype Sides = Sides(debit: Option<real>, credit: Option<real>)

  /**
   * The lookup `solutionMap` built with `forEach`: keys are the solution
   * accounts lower-cased (not trimmed); a later line with the same key
   * replaces an earlier one.
   */
  function SolutionMap(solution: seq<SolutionLine>): map<string, Sides>
  {
    if solution == [] then map[]
    else
      var l := solution[|solution| - 1];
      SolutionMap(solution[..|solution| - 1])[ToLower(l.account) := Sides(l.debit, l.credit)]
  }

  /** The lookup has a key exactly for each lower-cased solution account. */
  lemma {:induction false} SolutionMapKeys(solution: seq<SolutionLine>, key: string)
    ensures key in SolutionMap(solution) <==>
            exists j :: 0 <= j < |solution| && ToLower(solution[j].account) == key
  {
    if solution != [] {
      var init := solution[..|solution| - 1];
      SolutionMapKeys(init, key);
      if exists j :: 0 <= j < |init| && ToLower(init[j].account) == key {
        var j :| 0 <= j < |init| && ToLower(init[j].account) == key;
        assert solution[j] == init[j];
      }
      if exists j :: 0 <= j < |solution| && ToLower(solution[j].account) == key {
        var j :| 0 <= j < |solution| && ToLower(solution[j].account) == key;
        if j < |init| {
          assert init[j] == solution[j];
        }
      }
    }
  }

  /** The lookup holds the amounts of the LAST solution line with a given lower-cased account. */
  lemma {:induction false} SolutionMapLast(solution: seq<SolutionLine>, j: int)
    requires 0 <= j < |solution|
    requires forall k :: j < k < |solution| ==> ToLower(solution[k].account) != ToLower(solution[j].account)
    ensures ToLower(solution[j].account) in SolutionMap(solution)
    ensures SolutionMap(solution)[ToLower(solution[j].account)] == Sides(solution[j].debit, solution[j].credit)
  {
    var init := solution[..|solution| - 1];
    if j < |solution| - 1 {
      assert init[j] == solution[j];
      SolutionMapLast(init, j);
    }
  }

  /** The account of a row as the checker looks it up: lower-cased, then trimmed. */
  function NormalizeAccount(account: string): string
  {
    Trim(ToLower(account))
  }

  /**
   * Both amounts of a row are within tolerance of the expected ones, each
   * side compared on its own and a missing side counting as 0.
   */
  predicate AmountsMatch(entry: Line, expected: Sides)
  {
    && Abs(NumberOr0(entry.debit) - expected.debit.GetOr(0.0)) <= Tolerance
    && Abs(NumberOr0(entry.credit) - expected.credit.GetOr(0.0)) <= Tolerance
  }

  /** One filled row agrees with the lookup: its account is there and its amounts match. */
  predicate EntryMatches(entry: Line, lookup: map<string, Sides>)
  {
    var key := NormalizeAccount(entry.account);
    key in lookup && AmountsMatch(entry, lookup[key])
  }

  /** What `checkAgainstSolution` accepts: as many rows as solution lines, each found and within tolerance. */
  predicate Matches(entries: seq<Line>, solution: seq<SolutionLine>)
  {
    && |entries| == |solution|
    && forall e :: e in entries ==> EntryMatches(e, SolutionMap(solution))
  }

  /** `checkAgainstSolution`: builds the lookup in place, then checks the rows one by one. */
  method CheckAgainstSolution(userEntries: seq<Line>, solution: seq<SolutionLine>) returns (ok: bool)
    ensures ok == Matches(userEntries, solution)
  {
    if |userEntries| != |solution| {
      return false;
    }
    var solutionMap: map<string, Sides> := map[];
    var i := 0;
    while i < |solution|
      invariant 0 <= i <= |solution|
      invariant solutionMap == SolutionMap(solution[..i])
    {
      assert solution[..i + 1][..i] == solution[..i];
      solutionMap := solutionMap[ToLower(solution[i].account) := Sides(solution[i].debit, solution[i].credit)];
      i := i + 1;
    }
    assert solution[..i] == solution;
    var j := 0;
    while j < |userEntries|
      invariant 0 <= j <= |userEntries|
      invariant forall k :: 0 <= k < j ==> EntryMatches(userEntries[k], solutionMap)
    {
      var entry := userEntries[j];
      var accountName := NormalizeAccount(entry.account);
      if accountName !in solutionMap {
        assert entry in userEntries && !EntryMatches(entry, solutionMap);
        return false;
      }
      var solutionEntry := solutionMap[accountName];
      var userDebit := NumberOr0(entry.debit);
      var userCredit := NumberOr0(entry.credit);
      var solutionDebit := solutionEntry.debit.GetOr(0.0);
      var solutionCredit := solutionEntry.credit.GetOr(0.0);
      if Abs(userDebit - solutionDebit) > Tolerance || Abs(userCredit - solutionCredit) > Tolerance {
        assert entry in userEntries && !AmountsMatch(entry, solutionEntry);
        return false;
      }
      assert AmountsMatch(entry, solutionEntry);
      j := j + 1;
    }
    return true;
  }

  /** A row count different from the solution's is always rejected. */
  lemma CountMismatchRejected(entries: seq<Line>, solution: seq<SolutionLine>)
    requires |entries| != |solution|
    ensures !Matches(entries, solution)
  {
  }

  /** The order of the rows does not matter to the checker. */
  lemma MatchesPermutation(a: seq<Line>, b: seq<Line>, solution: seq<SolutionLine>)
    requires multiset(a) == multiset(b)
    ensures Matches(a, solution) == Matches(b, solution)
  {
    assert |a| == |multiset(a)| == |multiset(b)| == |b|;
    assert forall e :: e in a <==> e in b by {
      forall e
        ensures e in a <==> e in b
      {
        assert e in a <==> e in multiset(a);
        assert e in b <==> e in multiset(b);
      }
    }
  }

  /** Rows that differ only in the case and surrounding white space of their accounts are judged alike. */
  lemma {:induction false} MatchesNormalization(a: seq<Line>, b: seq<Line>, solution: seq<SolutionLine>)
    requires |a| == |b|
    requires forall i :: 0 <= i < |a| ==>
               && NormalizeAccount(a[i].account) == NormalizeAccount(b[i].account)
               && a[i].debit == b[i].debit && a[i].credit == b[i].credit
    ensures Matches(a, solution) == Matches(b, solution)
  {
    var m := SolutionMap(solution);
    assert forall i :: 0 <= i < |a| ==> (EntryMatches(a[i], m) <==> EntryMatches(b[i], m));
    if Matches(a, solution) {
      forall e | e in b
        ensures EntryMatches(e, m)
      {
        var i :| 0 <= i < |b| && b[i] == e;
        assert a[i] in a;
      }
    }
    if Matches(b, solution) {
      forall e | e in a
        ensures EntryMatches(e, m)
      {
        var i :| 0 <= i < |a| && a[i] == e;
        assert b[i] in b;
      }
    }
  }

  /**
   * When the solution's accounts are distinct after lower-casing, rows that
   * give each solution line its account (up to case and white space) and its
   * amounts are accepted.
   */
  lemma MatchesComplete(entries: seq<Line>, solution: seq<SolutionLine>)
    requires |entries| == |solution|
    requires forall j, k :: 0 <= j < k < |solution| ==>
               ToLower(solution[j].account) != ToLower(solution[k].account)
    requires forall i :: 0 <= i < |entries| ==>
               && NormalizeAccount(entries[i].account) == ToLower(solution[i].account)
               && NumberOr0(entries[i].debit) == solution[i].debit.GetOr(0.0)
               && NumberOr0(entries[i].credit) == solution[i].credit.GetOr(0.0)
    ensures Matches(entries, solution)
  {
    forall e | e in entries
      ensures EntryMatches(e, SolutionMap(solution))
    {
      var i :| 0 <= i < |entries| && entries[i] == e;
      SolutionMapLast(solution, i);
    }
  }

  /**
   * What acceptance guarantees: every row names, up to case and white space,
   * a solution account, and both of its amounts are within tolerance of the
   * last solution line with that account.
   */
  lemma MatchesSound(entries: seq<Line>, solution: seq<SolutionLine>, e: Line)
    requires Matches(entries, solution) && e in entries
    ensures exists j :: 0 <= j < |solution| && ToLower(solution[j].account) == NormalizeAccount(e.account)
    ensures var j := LastWithKey(solution, NormalizeAccount(e.account));
            0 <= j < |solution| && AmountsMatch(e, Sides(solution[j].debit, solution[j].credit))
  {
    var key := NormalizeAccount(e.account);
    var m := SolutionMap(solution);
    assert EntryMatches(e, m);
    assert key in m;
    SolutionMapKeys(solution, key);
    var j := LastWithKey(solution, key);
    assert j >= 0;
    SolutionMapLast(solution, j);
    assert m[key] == Sides(solution[j].debit, solution[j].credit);
  }

  /**
   * The checker looks only at which rows occur and at their number, not at how
   * often each row occurs.
   */
  lemma MatchesRowSet(a: seq<Line>, b: seq<Line>, solution: seq<SolutionLine>)
    requires |a| == |b|
    requires forall e :: e in a <==> e in b
    ensures Matches(a, solution) == Matches(b, solution)
  {
  }

  /**
   * Hence a four-row entry that is accepted stays accepted when two of its rows
   * are each entered twice and the other two are dropped: the two solution
   * lines those rows answered are then never entered. The row ids play no
   * part, so this holds for the distinct ids the form gives its rows.
   */
  lemma DuplicateRowsAccepted(entries: seq<Line>, solution: seq<SolutionLine>, i: int, j: int, ids: seq<int>)
    requires Matches(entries, solution) && |entries| == 4
    requires 0 <= i < 4 && 0 <= j < 4 && |ids| == 4
    ensures Matches([entries[i].(id := ids[0]), entries[i].(id := ids[1]),
                     entries[j].(id := ids[2]), entries[j].(id := ids[3])], solution)
  {
    var doubled := [entries[i].(id := ids[0]), entries[i].(id := ids[1]),
                    entries[j].(id := ids[2]), entries[j].(id := ids[3])];
    assert entries[i] in entries && entries[j] in entries;
    forall e | e in doubled
      ensures EntryMatches(e, SolutionMap(solution))
    {
      assert (e.account, e.debit, e.credit) == (entries[i].account, entries[i].debit, entries[i].credit)
          || (e.account, e.debit, e.credit) == (entries[j].account, entries[j].debit, entries[j].credit);
    }
  }

  /** The index of the last solution line whose lower-cased account is `key`, or -1. */
  function LastWithKey(solution: seq<SolutionLine>, key: string): (j: int)
    ensures -1 <= j < |solution|
    ensures j >= 0 ==> ToLower(solution[j].account) == key
    ensures forall k :: j < k < |solution| ==> ToLower(solution[k].account) != key
  {
    if solution == [] then -1
    else if ToLower(solution[|solution| - 1].account) == key then |solution| - 1
    else LastWithKey(solution[..|solution| - 1], key)
  }

  // ---------------------------------------------------------------------------
  // checkAnswer

  /** How `checkAnswer` judges the rows, in the order it tests. */
  datatype Verdict =
    | EmptyEntry
    | Unbalanced(totalDebit: real, totalCredit: real)
    | Incorrect
    | Correct

  /** The verdict on the filled rows `filled`, whose column totals are `totalDebit` and `totalCredit`. */
  function Judge(filled: seq<Line>, totalDebit: real, totalCredit: real, solution: seq<SolutionLine>): Verdict
  {
    if |filled| == 0 then EmptyEntry
    else if Abs(totalDebit - totalCredit) > Tolerance then Unbalanced(totalDebit, totalCredit)
    else if Matches(filled, solution) then Correct
    else Incorrect
  }

  function Assess(lines: seq<Line>, solution: seq<SolutionLine>): Verdict
  {
    var filled := FilledLines(lines);
    Judge(filled, SideTotal(filled, Debit), SideTotal(filled, Credit), solution)
  }

  /** An entry with no filled row is the empty-entry error, whatever the solution. */
  lemma AssessEmpty(lines: seq<Line>, solution: seq<SolutionLine>)
    ensures Assess(lines, solution) == EmptyEntry <==> forall l :: l in lines ==> !IsFilled(l)
  {
    var filled := FilledLines(lines);
    if filled != [] {
      assert filled[0] in filled;
    }
  }

  /**
   * Once some row is filled, the entry is rejected as unbalanced exactly when
   * its column totals differ by more than the tolerance, and the verdict then
   * carries those totals; this is decided before any comparison with the solution.
   */
  lemma AssessUnbalanced(lines: seq<Line>, solution: seq<SolutionLine>)
    requires FilledLines(lines) != []
    ensures var filled := FilledLines(lines);
            var totalDebit, totalCredit := SideTotal(filled, Debit), SideTotal(filled, Credit);
            && (Assess(lines, solution).Unbalanced? <==> Abs(totalDebit - totalCredit) > Tolerance)
            && (Assess(lines, solution).Unbalanced? ==> Assess(lines, solution) == Unbalanced(totalDebit, totalCredit))
  {
    var filled := FilledLines(lines);
    JudgeUnbalanced(filled, SideTotal(filled, Debit), SideTotal(filled, Credit), solution);
  }

  lemma JudgeUnbalanced(filled: seq<Line>, totalDebit: real, totalCredit: real, solution: seq<SolutionLine>)
    requires filled != []
    ensures Judge(filled, totalDebit, totalCredit, solution).Unbalanced? <==> Abs(totalDebit - totalCredit) > Tolerance
    ensures Judge(filled, totalDebit, totalCredit, solution).Unbalanced? ==>
              Judge(filled, totalDebit, totalCredit, solution) == Unbalanced(totalDebit, totalCredit)
  {
  }

  /**
   * The entry is judged correct exactly when some row is filled, the column
   * totals agree within the tolerance and the filled rows match the solution;
   * a correct entry then has exactly one filled row per solution line.
   */
  lemma AssessCorrect(lines: seq<Line>, solution: seq<SolutionLine>)
    ensures var filled := FilledLines(lines);
            Assess(lines, solution) == Correct <==>
              && filled != []
              && Abs(SideTotal(filled, Debit) - SideTotal(filled, Credit)) <= Tolerance
              && Matches(filled, solution)
    ensures Assess(lines, solution) == Correct ==>
              && |FilledLines(lines)| == |solution| > 0
              && forall e :: e in FilledLines(lines) ==> EntryMatches(e, SolutionMap(solution))
  {
    var filled := FilledLines(lines);
    JudgeCorrect(filled, SideTotal(filled, Debit), SideTotal(filled, Credit), solution);
  }

  lemma JudgeCorrect(filled: seq<Line>, totalDebit: real, totalCredit: real, solution: seq<SolutionLine>)
    ensures Judge(filled, totalDebit, totalCredit, solution) == Correct <==>
              filled != [] && Abs(totalDebit - totalCredit) <= Tolerance && Matches(filled, solution)
    ensures Judge(filled, totalDebit, totalCredit, solution) == Correct ==>
              && |filled| == |solution| > 0
              && forall e :: e in filled ==> EntryMatches(e, SolutionMap(solution))
  {
  }

  /** The verdict does not depend on the order of the rows. */
  lemma AssessPermutation(a: seq<Line>, b: seq<Line>, solution: seq<SolutionLine>)
    requires multiset(a) == multiset(b)
    ensures Assess(a, solution) == Assess(b, solution)
  {
    var fa, fb := FilledLines(a), FilledLines(b);
    FilledLinesPermutation(a, b);
    assert |fa| == |multiset(fa)| == |multiset(fb)| == |fb|;
    SideTotalPermutation(fa, fb, Debit);
    SideTotalPermutation(fa, fb, Credit);
    MatchesPermutation(fa, fb, solution);
  }

  // ---------------------------------------------------------------------------
  // The form's state

  /** The message shown under the form. */
  datatype ErrorMessage =
    | NoError
    | AtLeastOneLine                                          // "Please enter at least one journal entry line."
    | DebitsNotEqualCredits(totalDebit: real, totalCredit: real)  // "Debits (...) don't equal credits (...)"
    | NotQuiteRight                                           // "Your journal entry isn't quite right. ..."

  function MessageFor(v: Verdict): ErrorMessage
  {
    match v
    case EmptyEntry => AtLeastOneLine
    case Unbalanced(d, c) => DebitsNotEqualCredits(d, c)
    case Incorrect => NotQuiteRight
    case Correct => NoError
  }

  class JournalEntryForm {
    var scenario: Scenario
    var journalLines: seq<Line>
    var errorMessage: ErrorMessage
    var showSuccessDialog: bool
    var lastScenarioId: int

    /** The form is only ever given a scenario that has a solution. */
    ghost predicate Valid()
      reads this
    {
      scenario.solution.Some?
    }

    constructor(scenario: Scenario)
      requires scenario.solution.Some?
      ensures Valid() && this.scenario == scenario
      ensures journalLines == BlankLines(|scenario.solution.value|)
      ensures errorMessage == NoError && !showSuccessDialog && lastScenarioId == scenario.id
    {
      this.scenario := scenario;
      journalLines := BlankLines(|scenario.solution.value|);
      errorMessage := NoError;
      showSuccessDialog := false;
      lastScenarioId := scenario.id;
    }

    /**
     * The form receives the current scenario; when its id differs from the
     * last one seen, the rows are reset to blanks, the error is cleared and
     * `onCheck(null)` is signalled (the result `resetSignalled`).
     */
    method ReceiveScenario(next: Scenario) returns (resetSignalled: bool)
      requires next.solution.Some?
      modifies this
      ensures Valid() && scenario == next
      ensures resetSignalled == (next.id != old(lastScenarioId))
      ensures resetSignalled ==>
                && journalLines == BlankLines(|next.solution.value|)
                && errorMessage == NoError && lastScenarioId == next.id
      ensures !resetSignalled ==>
                && journalLines == old(journalLines)
                && errorMessage == old(errorMessage) && lastScenarioId == old(lastScenarioId)
      ensures showSuccessDialog == old(showSuccessDialog)
    {
      scenario := next;
      resetSignalled := next.id != lastScenarioId;
      if resetSignalled {
        journalLines := BlankLines(|next.solution.value|);
        lastScenarioId := next.id;
        errorMessage := NoError;
      }
    }

    /** `updateLine` */
    method UpdateLine(id: int, field: Field, value: string)
      modifies this
      ensures journalLines == UpdateLines(old(journalLines), id, field, value)
      ensures scenario == old(scenario) && errorMessage == old(errorMessage)
      ensures showSuccessDialog == old(showSuccessDialog) && lastScenarioId == old(lastScenarioId)
    {
      journalLines := UpdateLines(journalLines, id, field, value);
    }

    /**
     * `checkAnswer`: returns the value passed to `onCheck`, sets the message
     * for the verdict, and opens the success dialog on a correct entry.
     */
    method CheckAnswer() returns (result: bool)
      requires Valid()
      modifies this
      ensures Valid()
      ensures var v := Assess(journalLines, scenario.solution.value);
              && result == (v == Correct)
              && errorMessage == MessageFor(v)
              && showSuccessDialog == (v == Correct || old(showSuccessDialog))
      ensures journalLines == old(journalLines) && scenario == old(scenario)
      ensures lastScenarioId == old(lastScenarioId)
    {
      var filledLines := FilledLines(journalLines);
      if |filledLines| == 0 {
        errorMessage := AtLeastOneLine;
        return false;
      }
      var totalDebit := SideTotal(filledLines, Debit);
      var totalCredit := SideTotal(filledLines, Credit);
      if Abs(totalDebit - totalCredit) > Tolerance {
        errorMessage := DebitsNotEqualCredits(totalDebit, totalCredit);
        return false;
      }
      result := CheckAgainstSolution(filledLines, scenario.solution.value);
      if result {
        errorMessage := NoError;
        showSuccessDialog := true;
      } else {
        errorMessage := NotQuiteRight;
      }
    }

    /**
     * "Next Question": closes the success dialog; the caller then makes the
     * `onAdvance()` call by invoking `App.NextScenario`.
     */
    method HandleNext()
      modifies this
      ensures !showSuccessDialog
      ensures journalLines == old(journalLines) && errorMessage == old(errorMessage)
      ensures scenario == old(scenario) && lastScenarioId == old(lastScenarioId)
    {
      showSuccessDialog := false;
    }
  }
}
