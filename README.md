# Bond journal-entry drill — a Dafny model of its decision logic

The application is a React drill for bond accounting. A student works through a
catalog of bond scenarios in id order. For each one they type a journal entry:
rows of an account, a debit and a credit, with autocomplete for the account and
amounts rounded to whole numbers. The entry is checked against the scenario's
canonical solution. The app records which scenarios were answered correctly and
derives a mastery level and a progress percentage from that record.

This project models that logic in Dafny 4.11 and proves properties of it:

| file | module | what it models |
|---|---|---|
| `wrappers.dfy` | `Wrappers` | `Option`, standing for JavaScript's `null`/`undefined` |
| `js_text.dfy` | `JsText` | `toLowerCase`, `trim`, `includes` and the label order used by `localeCompare` |
| `js_number.dfy` | `JsNumber` | `parseFloat`, `x \|\| 0`, `Math.round`, `Math.abs`, `n.toString()` and `%` |
| `scenarios.dfy` | `Scenarios` | the scenario records the components read |
| `sequences.dfy` | `Sequences` | distinct keys and permutations (shared helpers) |
| `entry_form.dfy` | `EntryForm` | `src/components/JournalEntryForm.js`: the rows, `updateLine`, `checkAgainstSolution`, `checkAnswer`, and the form state as class `JournalEntryForm` |
| `line_input.dfy` | `LineInput` | `src/components/JournalLine.js`: the account list, suggestions, keyboard navigation and amount rounding, and the row state as class `JournalLine` |
| `solution_view.dfy` | `SolutionView` | `src/components/SolutionComponent.js`: `formatCalcKey`, the title, the totals, the table cells, the breakdown and the fallback panel |
| `progress.dfy` | `Progress` | `src/App.js`: the sorted catalog, lookups, mastery and progress, and the application state as class `App` |

Pure expressions in the source are Dafny functions with lemmas about them. State
that the components change through React setters is kept in class fields, and
the handlers that change it are methods:

- `JournalEntryForm` holds `journalLines`, `errorMessage`, `showSuccessDialog` and `lastScenarioId`.
- `JournalLine` holds `accountInput`, `suggestions`, `showSuggestions` and `selectedIndex`.
  It calls `updateLine` on the form object it was given.
- `App` holds `currentId`, `completedScenarios`, `showSolution`, `isCorrect`, `showFeedback` and `feedbackMessage`.

`checkAgainstSolution` builds its lookup in a loop and then checks the rows in a
second loop with early returns. Its model, `CheckAgainstSolution`, is a method
with both loops. It is proved equal to the specification predicate `Matches`.

Amounts are exact `real` numbers. `parseFloat` is modelled concretely for
`[white space][sign]digits[.digits]`; a text without digits gives `None`, the
model of `NaN`.

Where the code is more specific than a prose description of the app, the model follows the code:

- Advancing past the last scenario leaves `currentId` as it is. There is no "done" value (`src/App.js:123-126`).
- A confirmed reset sets `currentId` to the literal 1 (`src/App.js:174`).
- Mastery divides by the catalog size without a guard, so a non-empty catalog is required (`src/App.js:19`).
- The solution lookup lower-cases its keys but does not trim them. A later solution line with the same key replaces an earlier one (`src/components/JournalEntryForm.js:72-77`).
- `markCompleted` overwrites the recorded value. A correct answer stays recorded only because `onCheck` never calls it with `false` (`src/App.js:139,218-220`).
- The checker compares the number of rows and which rows occur. It does not check that every solution line is answered. A four-line entry is still accepted when two of its rows are each entered twice, with fresh row ids, and the other two rows are dropped (`EntryForm.DuplicateRowsAccepted`).

## Model

| member | source | states |
|---|---|---|
| JsText.ToLowerAt | src/components/JournalEntryForm.js:84 | `toLowerCase` keeps the length and maps every character on its own |
| JsText.TrimStartSpec | src/components/JournalEntryForm.js:84 | the leading trim leaves a suffix of the text that does not start with white space; everything dropped is white space |
| JsText.TrimEndSpec | src/components/JournalEntryForm.js:84 | the trailing trim leaves a prefix of the text that does not end with white space; everything dropped is white space |
| JsText.TrimEnds | src/components/JournalEntryForm.js:84 | after `trim`, neither end of the text is white space |
| JsText.TrimUnchanged | src/components/JournalEntryForm.js:84 | `trim` leaves a text without white space at its ends unchanged |
| JsText.TrimIdempotent | src/components/JournalEntryForm.js:84 | trimming twice gives the same text as trimming once |
| JsText.TrimIsSlice | src/components/JournalEntryForm.js:84 | the trimmed text occurs in the original at some position, with only white space before and after it |
| JsText.ContainsIff | src/components/JournalLine.js:54 | `includes` holds exactly when the needle occurs in the text at some position |
| JsText.StrLeTotal | src/components/JournalLine.js:44 | any two labels are ordered one way or the other |
| JsText.StrLeTransitive | src/components/JournalLine.js:44 | the label order is transitive |
| JsNumber.Abs | src/components/JournalEntryForm.js:107-108 | `Math.abs(x)` is non-negative and is `x` or `-x` |
| JsNumber.Round | src/components/JournalLine.js:141 | `Math.round(x)` is the integer in `(x - 0.5, x + 0.5]` |
| JsNumber.RoundOfInteger | src/components/JournalLine.js:141 | rounding an integer gives that integer |
| JsNumber.NatToString | src/components/JournalLine.js:142 | `toString()` of a natural number is a non-empty run of digits that spells the number, with no leading zero unless the number is 0 |
| JsNumber.ParseIntToString | src/components/JournalLine.js:139-142 | `parseFloat` of an integer's `toString()` gives the integer back |
| EntryForm.BlankLines | src/components/JournalEntryForm.js:23-30 | the initial rows: one per solution line, ids 1..n, every cell empty |
| EntryForm.SetField | src/components/JournalEntryForm.js:120-127 | the row keeps its id and gets the new cell; a non-empty debit empties the credit and the reverse; an empty amount, or an account, leaves the other cells as they were |
| EntryForm.UpdateLines | src/components/JournalEntryForm.js:118-131 | same length and order; rows whose id matches are updated by `SetField`, all other rows are unchanged |
| EntryForm.UpdateLinesIdempotent | src/components/JournalEntryForm.js:118-131 | entering the same value twice leaves the same rows as entering it once |
| EntryForm.FilledLines | src/components/JournalEntryForm.js:137-139 | a row is kept exactly when it has an account and a debit or a credit; the result is no longer than the input |
| EntryForm.FilledLinesCount | src/components/JournalEntryForm.js:137-139 | each filled row occurs as often in the result as in the input; an unfilled row does not occur |
| EntryForm.FilledLinesPermutation | src/components/JournalEntryForm.js:137-139 | reordering the rows reorders the filled rows and changes nothing else |
| EntryForm.SideTotalAppend | src/components/JournalEntryForm.js:151-156 | the column total of two blocks of rows is the sum of their totals |
| EntryForm.SideTotalPermutation | src/components/JournalEntryForm.js:151-156 | a column total does not depend on the order of the rows |
| EntryForm.SolutionMapKeys | src/components/JournalEntryForm.js:71-77 | the lookup has a key exactly for each lower-cased solution account |
| EntryForm.SolutionMapLast | src/components/JournalEntryForm.js:71-77 | under a key the lookup holds the amounts of the last solution line with that lower-cased account |
| EntryForm.LastWithKey | src/components/JournalEntryForm.js:72-77 | the index of the last solution line whose lower-cased account is the key, or -1 when there is none |
| EntryForm.CheckAgainstSolution | src/components/JournalEntryForm.js:62-116 | the loop method returns true exactly when `Matches` holds: as many rows as solution lines, and every row's lower-cased, trimmed account in the lookup with both amounts within 0.01 |
| EntryForm.CountMismatchRejected | src/components/JournalEntryForm.js:65-68 | a row count different from the solution's is always rejected |
| EntryForm.MatchesPermutation | src/components/JournalEntryForm.js:81-112 | the result does not depend on the order of the rows |
| EntryForm.MatchesNormalization | src/components/JournalEntryForm.js:84 | rows whose accounts differ only in case and surrounding white space are judged alike |
| EntryForm.MatchesComplete | src/components/JournalEntryForm.js:62-116 | when the solution's accounts are distinct after lower-casing, rows giving each solution line its account (up to case and white space) and its amounts are accepted |
| EntryForm.MatchesSound | src/components/JournalEntryForm.js:88-111 | an accepted row names a solution account, and both its amounts are within 0.01 of the last solution line with that account, a missing side counting as 0 |
| EntryForm.MatchesRowSet | src/components/JournalEntryForm.js:82-112 | two entries with the same length and the same rows are judged alike, however often each row occurs |
| EntryForm.DuplicateRowsAccepted | src/components/JournalEntryForm.js:65-112 | an accepted four-row entry stays accepted when two of its rows are each entered twice and the other two dropped, whatever ids the four rows carry |
| EntryForm.AssessEmpty | src/components/JournalEntryForm.js:143-148 | the verdict is the empty-entry error exactly when no row is filled |
| EntryForm.AssessUnbalanced | src/components/JournalEntryForm.js:151-166 | once a row is filled, the verdict is "unbalanced" with both totals exactly when the totals differ by more than 0.01; the solution is not consulted |
| EntryForm.AssessCorrect | src/components/JournalEntryForm.js:143-172 | the verdict is correct exactly when some row is filled, the totals agree within 0.01 and the filled rows match the solution; a correct entry has one filled row per solution line |
| EntryForm.AssessPermutation | src/components/JournalEntryForm.js:137-172 | the verdict does not depend on the order of the rows |
| EntryForm.JournalEntryForm.constructor | src/components/JournalEntryForm.js:23-33 | blank rows for the solution, no error, dialog closed, last scenario id recorded |
| EntryForm.JournalEntryForm.ReceiveScenario | src/components/JournalEntryForm.js:37-49 | a new scenario id resets the rows to blanks, clears the error and signals `onCheck(null)`; the same id changes nothing |
| EntryForm.JournalEntryForm.UpdateLine | src/components/JournalEntryForm.js:118-131 | the rows become `UpdateLines` of the old rows; the rest of the form is unchanged |
| EntryForm.JournalEntryForm.CheckAnswer | src/components/JournalEntryForm.js:133-180 | the value passed to `onCheck` is true exactly for a correct verdict; the message is the one for the verdict; a correct verdict opens the success dialog; the rows are unchanged |
| EntryForm.JournalEntryForm.HandleNext | src/components/JournalEntryForm.js:182-185 | closes the success dialog and changes nothing else |
| LineInput.StandardAccountsContents | src/components/JournalLine.js:22-36 | the list is the six common accounts, plus the premium account only for `premium` and the discount account only for `discount` |
| LineInput.CommonAccountsDistinct | src/components/JournalLine.js:22-30 | the six common accounts have distinct values |
| LineInput.StandardAccountsDistinct | src/components/JournalLine.js:22-36 | the standard accounts of every bond type have distinct values |
| LineInput.UniqueByValueCovers | src/components/JournalLine.js:40-43 | deduplication keeps only input accounts and keeps every value of the input |
| LineInput.UniqueByValueDistinct | src/components/JournalLine.js:40-43 | no value is kept twice |
| LineInput.UniqueByValueFirst | src/components/JournalLine.js:41-43 | the account kept for a value is the first one in the input with that value, as `find` returns |
| LineInput.UniqueByValueOfDistinct | src/components/JournalLine.js:40-43 | a list whose values are already distinct is left as it is |
| LineInput.InsertByLabel | src/components/JournalLine.js:44 | insertion adds exactly the new account to the list's multiset |
| LineInput.SortByLabel | src/components/JournalLine.js:44 | the sort is a permutation of its input |
| LineInput.InsertByLabelSorted | src/components/JournalLine.js:44 | inserting into a label-sorted list keeps it sorted |
| LineInput.SortByLabelSorted | src/components/JournalLine.js:44 | the sorted list is in label order |
| LineInput.UniqueSortedOfDistinct | src/components/JournalLine.js:40-44 | for distinct values, deduplicating and sorting gives a sorted permutation with distinct values |
| LineInput.UniqueAccountsSpec | src/components/JournalLine.js:40-44 | `uniqueAccounts` is sorted by label, has no value twice, and holds exactly the standard accounts of the bond type |
| LineInput.Suggestions | src/components/JournalLine.js:53-55 | an account is suggested exactly when it is in the list and its lower-cased label includes the lower-cased input |
| LineInput.SuggestionsSorted | src/components/JournalLine.js:53-55 | the filter keeps the list's order, so the suggestions are sorted by label |
| LineInput.SuggestionsCount | src/components/JournalLine.js:53-55 | a matching account occurs in the suggestions exactly as often as in the list, and a non-matching one not at all |
| LineInput.SuggestionsDistinct | src/components/JournalLine.js:53-55 | filtering a list whose values are distinct keeps them distinct |
| LineInput.AccountSuggestionsSpec | src/components/JournalLine.js:40-55 | the suggestions shown are in label order, have no value twice, and are exactly the bond type's standard accounts whose label matches the input |
| LineInput.SuggestsIff | src/components/JournalLine.js:54 | an account is suggested exactly when the lower-cased input occurs at some position of its lower-cased label |
| LineInput.StepDown | src/components/JournalLine.js:73 | ArrowDown moves to the next index and wraps from the last to 0; the result is in range |
| LineInput.StepUp | src/components/JournalLine.js:77 | ArrowUp moves to the previous index and wraps from 0 to the last; the result is in range |
| LineInput.StepInverse | src/components/JournalLine.js:73-77 | ArrowUp undoes ArrowDown and ArrowDown undoes ArrowUp |
| LineInput.AmountCellValueSpec | src/components/JournalLine.js:134-148 | `""` and `"-"` are kept; text that does not parse is stored as `""`; a number is stored as text that parses back to its nearest integer, within 0.5 of it |
| LineInput.AmountCellValueIdempotent | src/components/JournalLine.js:134-148 | entering the stored text again stores the same text |
| LineInput.JournalLine.constructor | src/components/JournalLine.js:5-8 | the input shows the row's account; no suggestions, list hidden, index -1 |
| LineInput.JournalLine.SyncAccount | src/components/JournalLine.js:13-15 | an outside change of the row's account is shown in the input; the suggestion state is kept |
| LineInput.JournalLine.HandleInputChange | src/components/JournalLine.js:47-64 | the input and the row's account become the text; empty text hides the list with index -1; otherwise the suggestions are the filtered accounts, shown exactly when non-empty, with index 0, or -1 when there are none |
| LineInput.JournalLine.SelectSuggestion | src/components/JournalLine.js:109-115 | the input shows the label, the row's account becomes the value, the list is hidden and the index is -1 |
| LineInput.JournalLine.HoverSuggestion | src/components/JournalLine.js:171 | the hovered suggestion becomes the selected one |
| LineInput.JournalLine.HandleKeyDown | src/components/JournalLine.js:67-93 | with the list hidden or empty nothing changes; otherwise the arrows step the index with wrap-around, Enter and Tab select the suggestion at the index, Escape hides the list with index -1, and any other key changes nothing |
| LineInput.JournalLine.HandleNumericChange | src/components/JournalLine.js:134-148 | the amount cell of the row gets `AmountCellValue` of the typed text; the rest of the form is unchanged |
| SolutionView.CapitalizeFirst | src/components/SolutionComponent.js:10 | the same length; the first character is the original first character made upper-case (not lower-case, and the same letter up to case); the rest is unchanged |
| SolutionView.SpaceBeforeEveryUpper | src/components/SolutionComponent.js:9 | every upper-case letter of the replaced text has a space right before it |
| SolutionView.SpacesOnlyBeforeUpper | src/components/SolutionComponent.js:9 | for a key without spaces, every space of the replaced text stands right before an upper-case letter |
| SolutionView.SpaceBeforeUpperLength | src/components/SolutionComponent.js:9 | the regex replacement adds one character per upper-case letter |
| SolutionView.FormatCalcKeyLength | src/components/SolutionComponent.js:7-11 | `formatCalcKey` output is as long as its input plus its number of upper-case letters |
| SolutionView.DropSpacesSpaceBeforeUpper | src/components/SolutionComponent.js:9 | for a key without spaces, removing the spaces undoes the replacement |
| SolutionView.FormatCalcKeyRoundTrip | src/components/JournalEntryForm.js:8-12 | a camelCase key is recovered from its title-cased form by lower-casing the first letter and dropping the spaces (the same helper is at src/components/SolutionComponent.js:7-11) |
| SolutionView.SolutionTitleSpec | src/components/SolutionComponent.js:20-22 | "Solution" without a bond type; otherwise the bond type with its first letter capitalised followed by " Bond Solution" |
| SolutionView.TotalsAppend | src/components/SolutionComponent.js:25-31 | the totals of two blocks of solution lines add up |
| SolutionView.TotalsOfOneSidedLine | src/components/SolutionComponent.js:25-31 | a line without a debit leaves the debit total unchanged, and the same for credits |
| SolutionView.AmountCell | src/components/SolutionComponent.js:52-53 | a cell shows an amount exactly when that side is present and non-zero, and then shows that side's amount |
| SolutionView.Rows | src/components/SolutionComponent.js:49-55 | one row per solution line, in order, with its account and its two cells |
| SolutionView.Breakdown | src/components/SolutionComponent.js:72-80 | the items are exactly the calculations other than `overview`, with formatted keys |
| SolutionView.BreakdownAppend | src/components/SolutionComponent.js:72-80 | the breakdown of two blocks of calculations is the first block's items followed by the second's: the items keep the calculations' order and multiplicity |
| SolutionView.RenderSpec | src/components/SolutionComponent.js:15-67 | the fallback is shown exactly when there is no scenario or no solution; otherwise one row per solution line, the totals, and the breakdown exactly when there are calculations |
| Progress.InsertById | src/App.js:11 | insertion adds exactly the new scenario to the list's multiset |
| Progress.SortById | src/App.js:11 | the sort is a permutation of its input |
| Progress.InsertByIdSorted | src/App.js:11 | inserting into an id-sorted list keeps it sorted |
| Progress.SortByIdSorted | src/App.js:11 | the sorted catalog is in id order |
| Progress.SortedCatalog | src/App.js:11 | for distinct ids, `sortedScenarios` is a permutation in strictly ascending id order |
| Progress.FindById | src/App.js:34 | `find` by id returns a catalog scenario with that id, and returns nothing exactly when no scenario has the id |
| Progress.FindNext | src/App.js:116 | returns a catalog scenario with a greater id, and returns nothing exactly when no id is greater |
| Progress.FindNextSmallest | src/App.js:116 | in the sorted catalog the scenario found has the smallest id greater than the current one |
| Progress.MasteryIgnoresFalse | src/App.js:14-20 | a scenario recorded as not correct does not change mastery |
| Progress.MasteryMarkCorrect | src/App.js:14-20 | recording a correct answer raises mastery by one scenario's share, or keeps it when already counted |
| Progress.MasteryBounds | src/App.js:14-20 | mastery is between 0 and the share of recorded scenarios |
| Progress.MasteryWithinCatalog | src/App.js:14-20 | when only catalog scenarios are recorded, mastery is between 0 and 1 |
| Progress.ProgressPercentageBounds | src/App.js:189 | when only catalog scenarios are recorded, the percentage is between 0 and 100 |
| Progress.ProgressMonotone | src/App.js:189 | recording a scenario never lowers the completed count or the percentage |
| Progress.App.constructor | src/App.js:26-31 | the sorted catalog in strictly ascending order, id 1, nothing recorded, every flag cleared |
| Progress.App.LoadProgress | src/App.js:73-74 | a missing record becomes `{}` and a missing or zero id becomes 1; the rest of the state is unchanged |
| Progress.App.NextScenario | src/App.js:111-128 | with a greater id: move to the smallest greater catalog id and clear the solution, result and feedback flags; past the last: stay and show the congratulations; the record never changes |
| Progress.App.MarkCompleted | src/App.js:131-162 | the current id is recorded with the answer, other keys are kept; the message is "keep practicing" for a wrong answer, "congratulations" when no greater id exists, else "great job" |
| Progress.App.ToggleSolution | src/App.js:165-167 | flips the solution flag and changes nothing else |
| Progress.App.ResetProgress | src/App.js:170-186 | confirmed: empty record, id 1, flags cleared; declined: nothing changes |
| Progress.App.OnCheck | src/App.js:213-221 | stores the result; only a correct result writes to the record (the current id as true) and shows the feedback, "congratulations" when no greater id exists, else "great job"; otherwise the record and the feedback are unchanged; a scenario recorded correct stays correct and the count never drops |

## Left out

- Network persistence is not modelled: `fetch`, `logAttempt` and the save-on-change effect (`src/App.js:37-53,87-107`). Loaded progress is a parameter of `App.LoadProgress`.
- The URL query parsing (`src/App.js:57-59`) is browser input and is not modelled.
- `window.confirm` is a browser dialog; its answer is the `confirmed` parameter of `App.ResetProgress`.
- The `setTimeout` that hides the feedback after 4 seconds (`src/App.js:158-160`) is timer behaviour.
- Scrolling, focus, `preventDefault` and the click-outside listener are DOM work.
- JSX rendering and styling are not modelled beyond the panel contents of `SolutionView.Render`.
- The text of the error messages is kept as constructors of `EntryForm.ErrorMessage`.
- `formatCurrency` lives in a module that is not part of this model. Table cells and totals are the amounts themselves.
- `scenario.successMessage` and the separate "Overview" paragraph of the success dialog are display-only.
- The `JSON.stringify` of object-valued calculations is not modelled. A calculation value is text.
- `ScenarioDetails`, the `netlify` functions and `scripts/query.js` are outside the core.
- `handleAccountChange` (`src/components/JournalLine.js:17-19`) is never called and is not modelled.
- Amounts are exact reals, not IEEE doubles: rounding errors of sums and of `Math.round` are not modelled.
- `parseFloat` exponent forms (`1e3`) and `Infinity` are not modelled. They read as the digits before them, or as `None`.
- The `<input type="number">` sanitising done by the browser is not modelled. Every text is passed to `handleNumericChange`.
- The `disabled` attribute of the amount inputs (`src/components/JournalLine.js:189,202`) is not modelled, so both amount cells can be edited.
- Case mapping and white space cover ASCII only. Unicode case mapping and Unicode white space are not modelled.
- `localeCompare` is modelled as lexicographic order by character code. Locale collation is not modelled.
- The solution lookup is a Dafny map. JavaScript object keys inherited from the prototype (such as `"constructor"`) are not modelled. Neither is the truthiness of a missing key.
- `completedScenarios` is keyed by integer ids. JavaScript object keys are strings, which does not matter for the integer ids used.
- The catalog is a parameter with distinct ids, because its data file is not part of this model.
- `App.MarkCompleted` requires a current scenario: the source reads `currentScenario.id` and would throw without one.
- `EntryForm.JournalEntryForm` requires a scenario with a solution: the source maps over `scenario.solution` and would throw without one.
- The form and the app are separate objects, and the callbacks that link them are not modelled. `onCheck` is modelled as `CheckAnswer`'s result, which the caller passes to `App.OnCheck`. The `onAdvance()` call in `handleNext` (`src/components/JournalEntryForm.js:184`) is modelled as the caller invoking `App.NextScenario` after `HandleNext`.
