/**
 * The solution panel: the title, the canonical journal entry with its
 * totals, and the breakdown of the key calculations, or a fallback when
 * there is no solution to show.
 */
module SolutionView {
  import opened Wrappers
  import opened JsText
  import opened Scenarios

  // ---------------------------------------------------------------------------
  // formatCalcKey

  /** `key.replace(/([A-Z])/g, " $1")`: a space before every upper-case letter. */
  function SpaceBeforeUpper(key: string): string
  {
    if key == [] then []
    else (if IsUpper(key[0]) then [' ', key[0]] else [key[0]]) + SpaceBeforeUpper(key[1..])
  }

  /** `s.charAt(0).toUpperCase() + s.slice(1)` */
  function CapitalizeFirst(s: string): (r: string)
    ensures |r| == |s|
    ensures r != [] ==> !IsLower(r[0]) && ToLowerChar(r[0]) == ToLowerChar(s[0]) && r[1..] == s[1..]
  {
    if s == [] then [] else [ToUpperChar(s[0])] + s[1..]
  }

  /** `formatCalcKey`: camelCase to Title Case. */
  function FormatCalcKey(key: string): string
  {
    CapitalizeFirst(SpaceBeforeUpper(key))
  }

  function CountUpper(s: string): nat
  {
    if s == [] then 0 else (if IsUpper(s[0]) then 1 else 0) + CountUpper(s[1..])
  }

  /** The text with its spaces removed. */
  function DropSpaces(s: string): string
  {
    if s == [] then [] else (if s[0] == ' ' then [] else [s[0]]) + DropSpaces(s[1..])
  }

  /** The first character lower-cased. */
  function LowerFirst(s: string): string
  {
    if s == [] then [] else [ToLowerChar(s[0])] + s[1..]
  }

  lemma {:induction false} SpaceBeforeUpperLength(key: string)
    ensures |SpaceBeforeUpper(key)| == |key| + CountUpper(key)
  {
    if key != [] {
      SpaceBeforeUpperLength(key[1..]);
    }
  }

  /** Every upper-case letter of the replaced text has a space right before it. */
  lemma {:induction false} SpaceBeforeEveryUpper(key: string)
    ensures forall i :: 0 <= i < |SpaceBeforeUpper(key)| && IsUpper(SpaceBeforeUpper(key)[i]) ==>
              i > 0 && SpaceBeforeUpper(key)[i - 1] == ' '
  {
    if key != [] {
      var p := if IsUpper(key[0]) then [' ', key[0]] else [key[0]];
      var rest := SpaceBeforeUpper(key[1..]);
      SpaceBeforeEveryUpper(key[1..]);
      var r := p + rest;
      assert SpaceBeforeUpper(key) == r;
      forall i | 0 <= i < |r| && IsUpper(r[i])
        ensures i > 0 && r[i - 1] == ' '
      {
        if i >= |p| {
          assert r[i] == rest[i - |p|];
          if i > |p| {
            assert r[i - 1] == rest[i - |p| - 1];
          }
        }
      }
    }
  }

  /** In a key without spaces, the replacement puts a space only right before an upper-case letter. */
  lemma {:induction false} SpacesOnlyBeforeUpper(key: string)
    requires forall i :: 0 <= i < |key| ==> key[i] != ' '
    ensures forall i :: 0 <= i < |SpaceBeforeUpper(key)| && SpaceBeforeUpper(key)[i] == ' ' ==>
              i + 1 < |SpaceBeforeUpper(key)| && IsUpper(SpaceBeforeUpper(key)[i + 1])
  {
    if key != [] {
      var p := if IsUpper(key[0]) then [' ', key[0]] else [key[0]];
      var rest := SpaceBeforeUpper(key[1..]);
      SpacesOnlyBeforeUpper(key[1..]);
      var r := p + rest;
      assert SpaceBeforeUpper(key) == r;
      forall i | 0 <= i < |r| && r[i] == ' '
        ensures i + 1 < |r| && IsUpper(r[i + 1])
      {
        if i >= |p| {
          assert rest[i - |p|] == ' ';
          assert i - |p| + 1 < |rest| && IsUpper(rest[i - |p| + 1]);
          assert r[i + 1] == rest[i - |p| + 1];
        } else {
          assert key[0] != ' ';
        }
      }
    }
  }

  /** The formatted key is one character longer for every upper-case letter of the key. */
  lemma FormatCalcKeyLength(key: string)
    ensures |FormatCalcKey(key)| == |key| + CountUpper(key)
  {
    SpaceBeforeUpperLength(key);
  }

  lemma {:induction false} DropSpacesSpaceBeforeUpper(key: string)
    requires forall i :: 0 <= i < |key| ==> key[i] != ' '
    ensures DropSpaces(SpaceBeforeUpper(key)) == key
  {
    if key != [] {
      var rest := SpaceBeforeUpper(key[1..]);
      DropSpacesSpaceBeforeUpper(key[1..]);
      if IsUpper(key[0]) {
        assert SpaceBeforeUpper(key) == [' '] + ([key[0]] + rest);
      } else {
        assert SpaceBeforeUpper(key) == [key[0]] + rest;
      }
    }
  }

  /**
   * For a camelCase key (no spaces, not starting with an upper-case letter)
   * the formatting can be undone: lower-case the first letter again and drop
   * the spaces.
   */
  lemma FormatCalcKeyRoundTrip(key: string)
    requires forall i :: 0 <= i < |key| ==> key[i] != ' '
    requires key == [] || !IsUpper(key[0])
    ensures DropSpaces(LowerFirst(FormatCalcKey(key))) == key
  {
    var spaced := SpaceBeforeUpper(key);
    DropSpacesSpaceBeforeUpper(key);
    if key != [] {
      assert spaced[0] == key[0];
      var c := key[0];
      assert ToLowerChar(ToUpperChar(c)) == c;
      assert LowerFirst(FormatCalcKey(key)) == spaced;
    }
  }

  // ---------------------------------------------------------------------------
  // The panel

  /** `solutionTitle`: "Solution" without a bond type, else the capitalised bond type and " Bond Solution". */
  function SolutionTitle(bondType: string): string
  {
    if bondType == "" then "Solution" else CapitalizeFirst(bondType) + " Bond Solution"
  }

  lemma SolutionTitleSpec(bondType: string)
    ensures bondType == "" ==> SolutionTitle(bondType) == "Solution"
    ensures bondType != "" ==>
              var t := SolutionTitle(bondType);
              && |t| == |bondType| + |" Bond Solution"|
              && t[|bondType|..] == " Bond Solution"
              && !IsLower(t[0]) && t[1..|bondType|] == bondType[1..]
              && LowerFirst(t[..|bondType|]) == LowerFirst(bondType)
  {
    if bondType != "" {
      var t := SolutionTitle(bondType);
      assert t[..|bondType|] == CapitalizeFirst(bondType);
      var c := bondType[0];
      assert ToLowerChar(ToUpperChar(c)) == ToLowerChar(c);
    }
  }

  /** A missing side counts as 0: `line.debit || 0`. */
  function DebitOf(line: SolutionLine): real { line.debit.GetOr(0.0) }

  function CreditOf(line: SolutionLine): real { line.credit.GetOr(0.0) }

  /** `totalDebit`, the `reduce` over the solution lines. */
  function TotalDebit(lines: seq<SolutionLine>): real
  {
    if lines == [] then 0.0 else TotalDebit(lines[..|lines| - 1]) + DebitOf(lines[|lines| - 1])
  }

  /** `totalCredit` */
  function TotalCredit(lines: seq<SolutionLine>): real
  {
    if lines == [] then 0.0 else TotalCredit(lines[..|lines| - 1]) + CreditOf(lines[|lines| - 1])
  }

  /** The totals of two blocks of lines add up. */
  lemma {:induction false} TotalsAppend(a: seq<SolutionLine>, b: seq<SolutionLine>)
    ensures TotalDebit(a + b) == TotalDebit(a) + TotalDebit(b)
    ensures TotalCredit(a + b) == TotalCredit(a) + TotalCredit(b)
  {
    if b == [] {
      assert a + b == a;
    } else {
      assert (a + b)[..|a + b| - 1] == a + b[..|b| - 1];
      TotalsAppend(a, b[..|b| - 1]);
    }
  }

  /** A line that has no debit leaves the debit total as it is, and likewise for credits. */
  lemma TotalsOfOneSidedLine(lines: seq<SolutionLine>, line: SolutionLine)
    ensures line.debit.None? ==> TotalDebit(lines + [line]) == TotalDebit(lines)
    ensures line.credit.None? ==> TotalCredit(lines + [line]) == TotalCredit(lines)
  {
    assert (lines + [line])[..|lines|] == lines;
  }

  /** What an amount cell of the table shows. */
  datatype Cell = Blank | Amount(amount: real)

  /** `line.debit ? formatCurrency(line.debit) : ''`: an amount is shown only when present and non-zero. */
  function AmountCell(side: Option<real>): (c: Cell)
    ensures c.Amount? <==> side.Some? && side.value != 0.0
    ensures c.Amount? ==> c.amount == side.value
  {
    if side.Some? && side.value != 0.0 then Amount(side.value) else Blank
  }

  datatype Row = Row(account: string, debit: Cell, credit: Cell)

  function Rows(lines: seq<SolutionLine>): (rows: seq<Row>)
    ensures |rows| == |lines|
    ensures forall i :: 0 <= i < |lines| ==>
              rows[i] == Row(lines[i].account, AmountCell(lines[i].debit), AmountCell(lines[i].credit))
  {
    if lines == [] then []
    else [Row(lines[0].account, AmountCell(lines[0].debit), AmountCell(lines[0].credit))] + Rows(lines[1..])
  }

  /** One item of the key-calculation breakdown. */
  datatype BreakdownItem = BreakdownItem(caption: string, value: string)

  /** The breakdown items: every calculation except `overview`, its key formatted, in order. */
  function Breakdown(calculations: seq<Calculation>): (items: seq<BreakdownItem>)
    ensures |items| <= |calculations|
    ensures forall it :: it in items <==>
              exists c :: c in calculations && c.key != "overview" &&
                          it == BreakdownItem(FormatCalcKey(c.key), c.value)
  {
    if calculations == [] then []
    else
      var c := calculations[0];
      var rest := Breakdown(calculations[1..]);
      assert forall d :: d in calculations <==> d == c || d in calculations[1..];
      (if c.key != "overview" then [BreakdownItem(FormatCalcKey(c.key), c.value)] else []) + rest
  }

  /** The breakdown keeps the calculations' order: splitting the calculations splits the items. */
  lemma {:induction false} BreakdownAppend(a: seq<Calculation>, b: seq<Calculation>)
    ensures Breakdown(a + b) == Breakdown(a) + Breakdown(b)
  {
    if a != [] {
      var c := a[0];
      var head := if c.key != "overview" then [BreakdownItem(FormatCalcKey(c.key), c.value)] else [];
      BreakdownAppend(a[1..], b);
      assert (a + b)[1..] == a[1..] + b;
      assert Breakdown(a + b) == head + Breakdown(a[1..] + b);
      assert Breakdown(a) == head + Breakdown(a[1..]);
    } else {
      assert a + b == b;
    }
  }

  /** The panel as rendered. */
  datatype Panel =
    | NoSolutionAvailable
    | SolutionPanel(
        title: string,
        rows: seq<Row>,
        totalDebit: real,
        totalCredit: real,
        breakdown: Option<seq<BreakdownItem>>)  // None: the breakdown section is not shown

  function Render(scenario: Option<Scenario>): Panel
  {
    if scenario.None? || scenario.value.solution.None? then NoSolutionAvailable
    else
      var s := scenario.value;
      var lines := s.solution.value;
      SolutionPanel(
        SolutionTitle(s.bondType),
        Rows(lines),
        TotalDebit(lines),
        TotalCredit(lines),
        if |s.keyCalculations| > 0 then Some(Breakdown(s.keyCalculations)) else None)
  }

  /**
   * The fallback is shown exactly when there is no scenario or it has no
   * solution; otherwise the panel has one row per solution line and the
   * breakdown section exactly when there are calculations.
   */
  lemma RenderSpec(scenario: Option<Scenario>)
    ensures Render(scenario).NoSolutionAvailable? <==> scenario.None? || scenario.value.solution.None?
    ensures Render(scenario).SolutionPanel? ==>
              && |Render(scenario).rows| == |scenario.value.solution.value|
              && Render(scenario).totalDebit == TotalDebit(scenario.value.solution.value)
              && Render(scenario).totalCredit == TotalCredit(scenario.value.solution.value)
              && (Render(scenario).breakdown.Some? <==> |scenario.value.keyCalculations| > 0)
  {
  }
}
