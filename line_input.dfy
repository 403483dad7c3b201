/**
 * One row of the journal table: the account list offered for the bond type,
 * the autocomplete state of the account input, and the rounding of the amount
 * inputs. Every change of a cell goes to the form's `updateLine`.
 */
module LineInput {
  import opened Wrappers
  import opened JsText
  import opened JsNumber
  import opened EntryForm
  import opened Sequences

  /** An option of the account autocomplete; `labelText` is the source's `label`, a keyword in Dafny. */
  datatype AccountOption = AccountOption(value: string, labelText: string)

  function Named(name: string): AccountOption
  {
    AccountOption(name, name)
  }

  /** The accounts offered for every bond type. */
  function CommonAccounts(): seq<AccountOption>
  {
    [ Named("Cash"), Named("Bonds Payable"), Named("Interest Expense"), Named("Interest Payable"),
      Named("Loss on Bond Retirement"), Named("Gain on Bond Retirement") ]
  }

  const Premium: AccountOption := Named("Premium on Bonds Payable")
  const Discount: AccountOption := Named("Discount on Bonds Payable")

  /** `standardAccounts` after the bond-type specific `push`. */
  function StandardAccounts(bondType: string): seq<AccountOption>
  {
    if bondType == "premium" then CommonAccounts() + [Premium]
    else if bondType == "discount" then CommonAccounts() + [Discount]
    else CommonAccounts()
  }

  /** The list holds the common accounts, the premium account only for premium bonds, the discount account only for discount bonds. */
  lemma StandardAccountsContents(bondType: string, a: AccountOption)
    ensures a in StandardAccounts(bondType) <==>
            || a in CommonAccounts()
            || (bondType == "premium" && a == Premium)
            || (bondType == "discount" && a == Discount)
  {
  }

  /** Some account of the list has value `v`. */
  predicate HasValue(accounts: seq<AccountOption>, v: string)
  {
    exists k :: 0 <= k < |accounts| && accounts[k].value == v
  }

  function ValueOf(a: AccountOption): string { a.value }

  /** No value occurs twice. */
  predicate DistinctValues(accounts: seq<AccountOption>)
  {
    DistinctBy(accounts, ValueOf)
  }

  /**
   * `Array.from(new Set(values)).map(value => find(...))`: one account per
   * distinct value, the first one with that value, in the order the values
   * first occur.
   */
  function UniqueByValue(accounts: seq<AccountOption>): seq<AccountOption>
  {
    if accounts == [] then []
    else
      var init := UniqueByValue(accounts[..|accounts| - 1]);
      var last := accounts[|accounts| - 1];
      if HasValue(init, last.value) then init else init + [last]
  }

  /** Every account kept is from the input, and every value of the input is kept. */
  lemma {:induction false} UniqueByValueCovers(accounts: seq<AccountOption>)
    ensures forall a :: a in UniqueByValue(accounts) ==> a in accounts
    ensures forall i :: 0 <= i < |accounts| ==> HasValue(UniqueByValue(accounts), accounts[i].value)
  {
    if accounts != [] {
      var n := |accounts| - 1;
      var init := accounts[..n];
      var u := UniqueByValue(init);
      var last := accounts[n];
      UniqueByValueCovers(init);
      var r := UniqueByValue(accounts);
      if HasValue(u, last.value) {
        assert r == u;
      } else {
        assert r == u + [last];
        assert r[|u|] == last;
      }
      assert forall a :: a in u ==> a in accounts;
      forall i | 0 <= i < |accounts|
        ensures HasValue(r, accounts[i].value)
      {
        if i < n {
          assert accounts[i] == init[i];
          var k :| 0 <= k < |u| && u[k].value == init[i].value;
          assert r[k] == u[k];
        }
      }
    }
  }

  /** No value is kept twice. */
  lemma {:induction false} UniqueByValueDistinct(accounts: seq<AccountOption>)
    ensures DistinctValues(UniqueByValue(accounts))
  {
    if accounts != [] {
      UniqueByValueDistinct(accounts[..|accounts| - 1]);
    }
  }

  /** Each account kept is the first one in the input with its value. */
  lemma {:induction false} UniqueByValueFirst(accounts: seq<AccountOption>, a: AccountOption, i: int)
    requires a in UniqueByValue(accounts)
    requires 0 <= i < |accounts| && accounts[i].value == a.value
    ensures exists k :: 0 <= k <= i && accounts[k] == a
  {
    var n := |accounts| - 1;
    var init := accounts[..n];
    var u := UniqueByValue(init);
    UniqueByValueCovers(init);
    if a in u {
      assert a in init;
      var m :| 0 <= m < n && init[m] == a;
      if i < m {
        UniqueByValueFirst(init, a, i);
        var k :| 0 <= k <= i && init[k] == a;
        assert accounts[k] == a;
      } else {
        assert accounts[m] == a;
      }
    } else {
      UniqueByValueLast(accounts, a, i);
      assert accounts[i] == a;
    }
  }

  /** An account kept by the last step is the last account, and no earlier account has its value. */
  lemma UniqueByValueLast(accounts: seq<AccountOption>, a: AccountOption, i: int)
    requires a in UniqueByValue(accounts) && a !in UniqueByValue(accounts[..|accounts| - 1])
    requires 0 <= i < |accounts| && accounts[i].value == a.value
    ensures i == |accounts| - 1 && a == accounts[i]
  {
    var n := |accounts| - 1;
    var init := accounts[..n];
    var u := UniqueByValue(init);
    var last := accounts[n];
    assert UniqueByValue(accounts) == if HasValue(u, last.value) then u else u + [last];
    assert !HasValue(u, last.value) && a == last;
    assert forall k :: 0 <= k < n ==> HasValue(u, accounts[k].value) by {
      UniqueByValueCovers(init);
      forall k | 0 <= k < n
        ensures HasValue(u, accounts[k].value)
      {
        assert accounts[k] == init[k];
      }
    }
  }

  /** A list whose values are already distinct is left as it is. */
  lemma {:induction false} UniqueByValueOfDistinct(accounts: seq<AccountOption>)
    requires DistinctValues(accounts)
    ensures UniqueByValue(accounts) == accounts
  {
    if accounts != [] {
      var init := accounts[..|accounts| - 1];
      var last := accounts[|accounts| - 1];
      UniqueByValueOfDistinct(init);
      assert !HasValue(init, last.value);
      assert init + [last] == accounts;
    }
  }

  /** Put `a` before the first account whose label it does not follow. */
  function InsertByLabel(a: AccountOption, sorted: seq<AccountOption>): (r: seq<AccountOption>)
    ensures multiset(r) == multiset(sorted) + multiset{a}
  {
    if sorted == [] then [a]
    else if StrLe(a.labelText, sorted[0].labelText) then [a] + sorted
    else
      assert sorted == [sorted[0]] + sorted[1..];
      [sorted[0]] + InsertByLabel(a, sorted[1..])
  }

  /** `.sort((a, b) => a.label.localeCompare(b.label))`, as an insertion sort. */
  function SortByLabel(accounts: seq<AccountOption>): (r: seq<AccountOption>)
    ensures multiset(r) == multiset(accounts)
  {
    if accounts == [] then []
    else
      assert accounts == [accounts[0]] + accounts[1..];
      InsertByLabel(accounts[0], SortByLabel(accounts[1..]))
  }

  predicate SortedByLabel(accounts: seq<AccountOption>)
  {
    forall i, j :: 0 <= i < j < |accounts| ==> StrLe(accounts[i].labelText, accounts[j].labelText)
  }

  lemma {:induction false} InsertByLabelSorted(a: AccountOption, sorted: seq<AccountOption>)
    requires SortedByLabel(sorted)
    ensures SortedByLabel(InsertByLabel(a, sorted))
  {
    if sorted == [] {
    } else if StrLe(a.labelText, sorted[0].labelText) {
      PrependSorted(a, sorted);
    } else {
      StrLeTotal(a.labelText, sorted[0].labelText);
      var rest := InsertByLabel(a, sorted[1..]);
      InsertByLabelSorted(a, sorted[1..]);
      InsertByLabelLowerBound(a, sorted);
      ConsSorted(sorted[0], rest);
    }
  }

  /** A sorted list stays sorted behind an account whose label is at most all of its labels. */
  lemma ConsSorted(h: AccountOption, rest: seq<AccountOption>)
    requires SortedByLabel(rest)
    requires forall y :: y in rest ==> StrLe(h.labelText, y.labelText)
    ensures SortedByLabel([h] + rest)
  {
    var r := [h] + rest;
    forall i, j | 0 <= i < j < |r|
      ensures StrLe(r[i].labelText, r[j].labelText)
    {
      if i == 0 {
        assert r[j] in rest;
      } else {
        assert r[i] == rest[i - 1] && r[j] == rest[j - 1];
      }
    }
  }

  /** An account that sorts before the head of a sorted list can go in front of it. */
  lemma PrependSorted(a: AccountOption, sorted: seq<AccountOption>)
    requires SortedByLabel(sorted) && sorted != [] && StrLe(a.labelText, sorted[0].labelText)
    ensures SortedByLabel([a] + sorted)
  {
    forall j | 0 <= j < |sorted|
      ensures StrLe(a.labelText, sorted[j].labelText)
    {
      if j > 0 {
        StrLeTransitive(a.labelText, sorted[0].labelText, sorted[j].labelText);
      }
    }
    ConsSorted(a, sorted);
  }

  /** Inserting into the tail keeps the head's label as a lower bound. */
  lemma InsertByLabelLowerBound(a: AccountOption, sorted: seq<AccountOption>)
    requires SortedByLabel(sorted) && sorted != [] && StrLe(sorted[0].labelText, a.labelText)
    ensures forall y :: y in InsertByLabel(a, sorted[1..]) ==> StrLe(sorted[0].labelText, y.labelText)
  {
    var rest := InsertByLabel(a, sorted[1..]);
    forall y | y in rest
      ensures StrLe(sorted[0].labelText, y.labelText)
    {
      assert y in multiset(rest);
      if y != a {
        assert y in multiset(sorted[1..]);
        var k :| 0 <= k < |sorted[1..]| && sorted[1..][k] == y;
        assert sorted[k + 1] == y;
      }
    }
  }

  /** The sorted list is in label order. */
  lemma {:induction false} SortByLabelSorted(accounts: seq<AccountOption>)
    ensures SortedByLabel(SortByLabel(accounts))
  {
    if accounts != [] {
      SortByLabelSorted(accounts[1..]);
      InsertByLabelSorted(accounts[0], SortByLabel(accounts[1..]));
    }
  }

  /** The values of the standard accounts are distinct. */
  lemma StandardAccountsDistinct(bondType: string)
    ensures DistinctValues(StandardAccounts(bondType))
  {
    var common := CommonAccounts();
    CommonAccountsDistinct();
    if bondType == "premium" || bondType == "discount" {
      var extra := if bondType == "premium" then Premium else Discount;
      var s := common + [extra];
      assert StandardAccounts(bondType) == s;
      forall i | 0 <= i < |common|
        ensures ValueOf(common[i]) != ValueOf(extra)
      {
        assert |common[i].value| < |extra.value|;
      }
      forall i, j | 0 <= i < j < |s|
        ensures ValueOf(s[i]) != ValueOf(s[j])
      {
        if j < |common| {
          assert s[i] == common[i] && s[j] == common[j];
        }
      }
    }
  }

  lemma CommonAccountsDistinct()
    ensures DistinctValues(CommonAccounts())
  {
  }

  /** Deduplicating and sorting a list with distinct values sorts it and keeps every account once. */
  lemma UniqueSortedOfDistinct(accounts: seq<AccountOption>)
    requires DistinctValues(accounts)
    ensures SortedByLabel(SortByLabel(UniqueByValue(accounts)))
    ensures DistinctValues(SortByLabel(UniqueByValue(accounts)))
    ensures multiset(SortByLabel(UniqueByValue(accounts))) == multiset(accounts)
  {
    UniqueByValueOfDistinct(accounts);
    SortByLabelSorted(accounts);
    DistinctByPermutation(accounts, SortByLabel(accounts), ValueOf);
  }

  /** `uniqueAccounts` */
  function UniqueAccounts(bondType: string): seq<AccountOption>
  {
    SortByLabel(UniqueByValue(StandardAccounts(bondType)))
  }

  /**
   * The offered list is sorted by label, has no value twice, and holds
   * exactly the standard accounts of the bond type.
   */
  lemma UniqueAccountsSpec(bondType: string)
    ensures SortedByLabel(UniqueAccounts(bondType))
    ensures DistinctValues(UniqueAccounts(bondType))
    ensures multiset(UniqueAccounts(bondType)) == multiset(StandardAccounts(bondType))
  {
    StandardAccountsDistinct(bondType);
    UniqueSortedOfDistinct(StandardAccounts(bondType));
  }

  // ---------------------------------------------------------------------------
  // Suggestions

  /** The label contains the input, both lower-cased. */
  predicate Suggests(a: AccountOption, input: string)
  {
    Contains(ToLower(a.labelText), ToLower(input))
  }

  /**
   * `uniqueAccounts.filter(option => option.label.toLowerCase().includes(value.toLowerCase()))`;
   * the field is named `labelText` here because `label` is a Dafny keyword.
   */
  function Suggestions(accounts: seq<AccountOption>, input: string): (r: seq<AccountOption>)
    ensures |r| <= |accounts|
    ensures forall a :: a in r <==> a in accounts && Suggests(a, input)
  {
    if accounts == [] then []
    else (if Suggests(accounts[0], input) then [accounts[0]] else []) + Suggestions(accounts[1..], input)
  }

  /** The filter keeps the accounts' order: what it keeps of a sorted list is sorted. */
  lemma {:induction false} SuggestionsSorted(accounts: seq<AccountOption>, input: string)
    requires SortedByLabel(accounts)
    ensures SortedByLabel(Suggestions(accounts, input))
  {
    if accounts != [] {
      var rest := Suggestions(accounts[1..], input);
      SuggestionsSorted(accounts[1..], input);
      if Suggests(accounts[0], input) {
        var r := [accounts[0]] + rest;
        forall i, j | 0 <= i < j < |r|
          ensures StrLe(r[i].labelText, r[j].labelText)
        {
          if i == 0 {
            assert r[j] in rest;
            var k :| 0 <= k < |accounts| && accounts[k] == r[j];
            if k == 0 {
              StrLeTotal(r[i].labelText, r[j].labelText);
            }
          } else {
            assert r[i] == rest[i - 1] && r[j] == rest[j - 1];
          }
        }
      }
    }
  }

  /** The filter neither repeats nor drops a matching account: each keeps its multiplicity. */
  lemma {:induction false} SuggestionsCount(accounts: seq<AccountOption>, input: string, x: AccountOption)
    ensures multiset(Suggestions(accounts, input))[x] == if Suggests(x, input) then multiset(accounts)[x] else 0
  {
    if accounts != [] {
      var head := if Suggests(accounts[0], input) then [accounts[0]] else [];
      SuggestionsCount(accounts[1..], input, x);
      assert Suggestions(accounts, input) == head + Suggestions(accounts[1..], input);
      assert accounts == [accounts[0]] + accounts[1..];
    }
  }

  /** Filtering a list whose values are distinct gives a list whose values are distinct. */
  lemma {:induction false} SuggestionsDistinct(accounts: seq<AccountOption>, input: string)
    requires DistinctValues(accounts)
    ensures DistinctValues(Suggestions(accounts, input))
  {
    if accounts != [] {
      var rest := Suggestions(accounts[1..], input);
      assert DistinctValues(accounts[1..]) by {
        forall i, j | 0 <= i < j < |accounts[1..]|
          ensures ValueOf(accounts[1..][i]) != ValueOf(accounts[1..][j])
        {
          assert accounts[1..][i] == accounts[i + 1] && accounts[1..][j] == accounts[j + 1];
        }
      }
      SuggestionsDistinct(accounts[1..], input);
      if Suggests(accounts[0], input) {
        var r := [accounts[0]] + rest;
        forall i, j | 0 <= i < j < |r|
          ensures ValueOf(r[i]) != ValueOf(r[j])
        {
          if i == 0 {
            assert r[j] in rest;
            var k :| 0 <= k < |accounts[1..]| && accounts[1..][k] == r[j];
            assert accounts[k + 1] == r[j];
          } else {
            assert r[i] == rest[i - 1] && r[j] == rest[j - 1];
          }
        }
      }
    }
  }

  /**
   * The suggestions shown for an input: in label order, no value twice, and
   * exactly the bond type's standard accounts whose label matches.
   */
  lemma AccountSuggestionsSpec(bondType: string, input: string)
    ensures var r := Suggestions(UniqueAccounts(bondType), input);
            && SortedByLabel(r)
            && DistinctValues(r)
            && forall a :: a in r <==> a in StandardAccounts(bondType) && Suggests(a, input)
  {
    var u := UniqueAccounts(bondType);
    UniqueAccountsSpec(bondType);
    SuggestionsSorted(u, input);
    SuggestionsDistinct(u, input);
    forall a
      ensures a in u <==> a in StandardAccounts(bondType)
    {
      assert a in u <==> a in multiset(u);
      assert a in StandardAccounts(bondType) <==> a in multiset(StandardAccounts(bondType));
    }
  }

  /** An account is suggested exactly when its lower-cased label has the lower-cased input at some position. */
  lemma SuggestsIff(a: AccountOption, input: string)
    ensures Suggests(a, input) <==> exists i :: OccursAt(ToLower(a.labelText), ToLower(input), i)
  {
    ContainsIff(ToLower(a.labelText), ToLower(input));
    assert Suggests(a, input) == Contains(ToLower(a.labelText), ToLower(input));
  }

  // ---------------------------------------------------------------------------
  // Selection index

  /** ArrowDown: `(prev + 1) % suggestions.length` */
  function StepDown(index: int, count: int): (r: int)
    requires count > 0 && -1 <= index < count
    ensures 0 <= r < count
    ensures r == if index == count - 1 then 0 else index + 1
  {
    JsRem(index + 1, count)
  }

  /** ArrowUp: `(prev - 1 + suggestions.length) % suggestions.length` */
  function StepUp(index: int, count: int): (r: int)
    requires count > 0 && 0 <= index < count
    ensures 0 <= r < count
    ensures r == if index == 0 then count - 1 else index - 1
  {
    JsRem(index - 1 + count, count)
  }

  /** ArrowUp undoes ArrowDown and ArrowDown undoes ArrowUp. */
  lemma StepInverse(index: int, count: int)
    requires count > 0 && 0 <= index < count
    ensures StepUp(StepDown(index, count), count) == index
    ensures StepDown(StepUp(index, count), count) == index
  {
  }

  // ---------------------------------------------------------------------------
  // Amount inputs

  /** The text `handleNumericChange` stores for what was typed into an amount cell. */
  function AmountCellValue(value: string): string
  {
    if value == "" || value == "-" then value
    else
      match ParseFloat(value)
      case Some(x) => IntToString(Round(x))
      case None => ""
  }

  /**
   * `""` and `"-"` are kept, text that does not parse is cleared, and a number
   * is stored rounded to the nearest integer, as text that parses back to
   * that integer.
   */
  lemma AmountCellValueSpec(value: string)
    ensures value == "" || value == "-" ==> AmountCellValue(value) == value
    ensures value != "" && value != "-" && ParseFloat(value).None? ==> AmountCellValue(value) == ""
    ensures value != "" && value != "-" && ParseFloat(value).Some? ==>
              var x := ParseFloat(value).value;
              && ParseFloat(AmountCellValue(value)) == Some(Round(x) as real)
              && Abs(Round(x) as real - x) <= 0.5
  {
    if value != "" && value != "-" && ParseFloat(value).Some? {
      ParseIntToString(Round(ParseFloat(value).value));
    }
  }

  /** Storing the stored text again changes nothing. */
  lemma AmountCellValueIdempotent(value: string)
    ensures AmountCellValue(AmountCellValue(value)) == AmountCellValue(value)
  {
    var r := AmountCellValue(value);
    if r != "" && r != "-" {
      var n := Round(ParseFloat(value).value);
      ParseIntToString(n);
      RoundOfInteger(n);
    }
  }

  // ---------------------------------------------------------------------------
  // The row component's state

  /** The keys `handleKeyDown` tells apart. */
  datatype Key = ArrowDown | ArrowUp | Enter | Tab | Escape | OtherKey

  class JournalLine {
    /** The form whose `updateLine` the row calls. */
    const form: JournalEntryForm
    const lineId: int
    const bondType: string
    var accountInput: string
    var suggestions: seq<AccountOption>
    var showSuggestions: bool
    var selectedIndex: int

    /** The index points into the list or is -1, and a shown list is non-empty with an index in it. */
    ghost predicate Valid()
      reads this
    {
      && -1 <= selectedIndex < |suggestions|
      && (showSuggestions ==> 0 <= selectedIndex)
    }

    constructor(form: JournalEntryForm, line: Line, bondType: string)
      ensures Valid()
      ensures this.form == form && lineId == line.id && this.bondType == bondType
      ensures accountInput == line.account
      ensures suggestions == [] && !showSuggestions && selectedIndex == -1
    {
      this.form := form;
      lineId := line.id;
      this.bondType := bondType;
      accountInput := line.account;
      suggestions := [];
      showSuggestions := false;
      selectedIndex := -1;
    }

    /** The row's account changed from outside (a new scenario): the input shows it. */
    method SyncAccount(account: string)
      modifies this
      ensures accountInput == account
      ensures suggestions == old(suggestions) && showSuggestions == old(showSuggestions)
      ensures selectedIndex == old(selectedIndex)
    {
      accountInput := account;
    }

    /**
     * `handleInputChange`: the row's account becomes the typed text; the
     * suggestions are the accounts whose label contains it, shown with the
     * first one selected when there are any.
     */
    method HandleInputChange(value: string)
      modifies this, form
      ensures Valid()
      ensures accountInput == value
      ensures form.journalLines == UpdateLines(old(form.journalLines), lineId, Account, value)
      ensures form.scenario == old(form.scenario) && form.errorMessage == old(form.errorMessage)
      ensures form.showSuccessDialog == old(form.showSuccessDialog)
      ensures form.lastScenarioId == old(form.lastScenarioId)
      ensures value == [] ==> suggestions == [] && !showSuggestions && selectedIndex == -1
      ensures value != [] ==>
                && suggestions == Suggestions(UniqueAccounts(bondType), value)
                && showSuggestions == (|suggestions| > 0)
                && selectedIndex == (if |suggestions| > 0 then 0 else -1)
    {
      accountInput := value;
      form.UpdateLine(lineId, Account, value);
      if |value| > 0 {
        var filtered := Suggestions(UniqueAccounts(bondType), value);
        suggestions := filtered;
        showSuggestions := |filtered| > 0;
        selectedIndex := if |filtered| > 0 then 0 else -1;
      } else {
        suggestions := [];
        showSuggestions := false;
        selectedIndex := -1;
      }
    }

    /**
     * `selectSuggestion`: the input shows the label, the row's account
     * becomes the value, and the list closes.
     */
    method SelectSuggestion(suggestion: AccountOption)
      modifies this, form
      ensures Valid()
      ensures accountInput == suggestion.labelText
      ensures form.journalLines == UpdateLines(old(form.journalLines), lineId, Account, suggestion.value)
      ensures form.scenario == old(form.scenario) && form.errorMessage == old(form.errorMessage)
      ensures form.showSuccessDialog == old(form.showSuccessDialog)
      ensures form.lastScenarioId == old(form.lastScenarioId)
      ensures suggestions == old(suggestions) && !showSuggestions && selectedIndex == -1
    {
      accountInput := suggestion.labelText;
      form.UpdateLine(lineId, Account, suggestion.value);
      showSuggestions := false;
      selectedIndex := -1;
    }

    /** The pointer enters the suggestion at `index` of the shown list. */
    method HoverSuggestion(index: int)
      requires Valid() && showSuggestions && 0 <= index < |suggestions|
      modifies this
      ensures Valid()
      ensures selectedIndex == index
      ensures accountInput == old(accountInput) && suggestions == old(suggestions)
      ensures showSuggestions == old(showSuggestions)
    {
      selectedIndex := index;
    }

    /**
     * `handleKeyDown`: nothing happens unless a non-empty list is shown;
     * the arrows move the selection with wrap-around, Enter and Tab pick the
     * selected suggestion, Escape closes the list.
     */
    method HandleKeyDown(key: Key)
      requires Valid()
      modifies this, form
      ensures Valid()
      ensures suggestions == old(suggestions)
      ensures !old(showSuggestions) || |old(suggestions)| == 0 ==>
                && accountInput == old(accountInput) && showSuggestions == old(showSuggestions)
                && selectedIndex == old(selectedIndex) && unchanged(form)
      ensures old(showSuggestions) && |suggestions| > 0 ==>
                match key
                case ArrowDown =>
                  && selectedIndex == StepDown(old(selectedIndex), |suggestions|)
                  && accountInput == old(accountInput) && showSuggestions && unchanged(form)
                case ArrowUp =>
                  && selectedIndex == StepUp(old(selectedIndex), |suggestions|)
                  && accountInput == old(accountInput) && showSuggestions && unchanged(form)
                case Escape =>
                  && !showSuggestions && selectedIndex == -1
                  && accountInput == old(accountInput) && unchanged(form)
                case OtherKey =>
                  && showSuggestions && selectedIndex == old(selectedIndex)
                  && accountInput == old(accountInput) && unchanged(form)
                case _ =>
                  var chosen := suggestions[old(selectedIndex)];
                  && accountInput == chosen.labelText && !showSuggestions && selectedIndex == -1
                  && form.journalLines == UpdateLines(old(form.journalLines), lineId, Account, chosen.value)
                  && form.scenario == old(form.scenario) && form.errorMessage == old(form.errorMessage)
                  && form.showSuccessDialog == old(form.showSuccessDialog)
                  && form.lastScenarioId == old(form.lastScenarioId)
    {
      if !showSuggestions || |suggestions| == 0 {
        return;
      }
      match key
      case ArrowDown =>
        selectedIndex := JsRem(selectedIndex + 1, |suggestions|);
      case ArrowUp =>
        selectedIndex := JsRem(selectedIndex - 1 + |suggestions|, |suggestions|);
      case Enter =>
        if 0 <= selectedIndex < |suggestions| {
          SelectSuggestion(suggestions[selectedIndex]);
        }
      case Tab =>
        if 0 <= selectedIndex < |suggestions| {
          SelectSuggestion(suggestions[selectedIndex]);
        }
      case Escape =>
        showSuggestions := false;
        selectedIndex := -1;
      case OtherKey =>
    }

    /** `handleNumericChange`: the amount cell gets the rounded text. */
    method HandleNumericChange(field: Field, value: string)
      requires field != Account
      modifies form
      ensures form.journalLines == UpdateLines(old(form.journalLines), lineId, field, AmountCellValue(value))
      ensures form.scenario == old(form.scenario) && form.errorMessage == old(form.errorMessage)
      ensures form.showSuccessDialog == old(form.showSuccessDialog)
      ensures form.lastScenarioId == old(form.lastScenarioId)
    {
      if value == "" || value == "-" {
        form.UpdateLine(lineId, field, value);
        return;
      }
      var num := ParseFloat(value);
      if num.Some? {
        var roundedValue := Round(num.value);
        form.UpdateLine(lineId, field, IntToString(roundedValue));
      } else {
        form.UpdateLine(lineId, field, "");
      }
    }
  }
}
