/**
 * The application shell: the scenario catalog in id order, the student's
 * position and completion record, the feedback state, and the mastery and
 * progress figures derived from them.
 */
module Progress {
  import opened Wrappers
  import opened JsNumber
  import opened Scenarios
  import opened Sequences

  // ---------------------------------------------------------------------------
  // The catalog

  function IdOf(s: Scenario): int { s.id }

  /** The ids of the catalog are distinct. */
  predicate DistinctIds(scenarios: seq<Scenario>)
  {
    DistinctBy(scenarios, IdOf)
  }

  predicate SortedById(scenarios: seq<Scenario>)
  {
    forall i, j :: 0 <= i < j < |scenarios| ==> scenarios[i].id <= scenarios[j].id
  }

  /** Put `s` before the first scenario whose id is not smaller; equal ids keep their order. */
  function InsertById(s: Scenario, sorted: seq<Scenario>): (r: seq<Scenario>)
    ensures multiset(r) == multiset(sorted) + multiset{s}
  {
    if sorted == [] then [s]
    else if s.id <= sorted[0].id then [s] + sorted
    else
      assert sorted == [sorted[0]] + sorted[1..];
      [sorted[0]] + InsertById(s, sorted[1..])
  }

  /** `[...scenarios].sort((a, b) => a.id - b.id)`, as an insertion sort. */
  function SortById(scenarios: seq<Scenario>): (r: seq<Scenario>)
    ensures multiset(r) == multiset(scenarios)
  {
    if scenarios == [] then []
    else
      assert scenarios == [scenarios[0]] + scenarios[1..];
      InsertById(scenarios[0], SortById(scenarios[1..]))
  }

  lemma {:induction false} InsertByIdSorted(s: Scenario, sorted: seq<Scenario>)
    requires SortedById(sorted)
    ensures SortedById(InsertById(s, sorted))
  {
    if sorted == [] {
    } else if s.id <= sorted[0].id {
      ConsSortedById(s, sorted);
    } else {
      InsertByIdSorted(s, sorted[1..]);
      InsertByIdLowerBound(s, sorted[1..], sorted[0].id);
      ConsSortedById(sorted[0], InsertById(s, sorted[1..]));
    }
  }

  /** A sorted list stays sorted behind a scenario whose id is at most all of its ids. */
  lemma ConsSortedById(h: Scenario, rest: seq<Scenario>)
    requires SortedById(rest)
    requires forall y :: y in rest ==> h.id <= y.id
    ensures SortedById([h] + rest)
  {
    var r := [h] + rest;
    forall i, j | 0 <= i < j < |r|
      ensures r[i].id <= r[j].id
    {
      if i == 0 {
        assert r[j] in rest;
      } else {
        assert r[i] == rest[i - 1] && r[j] == rest[j - 1];
      }
    }
  }

  /** Inserting keeps a lower bound that both the new scenario and the list respect. */
  lemma InsertByIdLowerBound(s: Scenario, sorted: seq<Scenario>, bound: int)
    requires bound <= s.id && forall t :: t in sorted ==> bound <= t.id
    ensures forall y :: y in InsertById(s, sorted) ==> bound <= y.id
  {
    var r := InsertById(s, sorted);
    forall y | y in r
      ensures bound <= y.id
    {
      assert y in multiset(r);
      if y != s {
        assert y in multiset(sorted);
      }
    }
  }

  lemma {:induction false} SortByIdSorted(scenarios: seq<Scenario>)
    ensures SortedById(SortById(scenarios))
  {
    if scenarios != [] {
      SortByIdSorted(scenarios[1..]);
      InsertByIdSorted(scenarios[0], SortById(scenarios[1..]));
    }
  }

  /** The catalog holds ids in strictly ascending order. */
  predicate StrictlyAscending(catalog: seq<Scenario>)
  {
    forall i, j :: 0 <= i < j < |catalog| ==> catalog[i].id < catalog[j].id
  }

  /** `sortedScenarios`: the scenarios of a catalog with distinct ids, in strictly ascending id order. */
  lemma SortedCatalog(scenarios: seq<Scenario>)
    requires DistinctIds(scenarios)
    ensures StrictlyAscending(SortById(scenarios))
    ensures multiset(SortById(scenarios)) == multiset(scenarios)
  {
    var sorted := SortById(scenarios);
    SortByIdSorted(scenarios);
    DistinctByPermutation(scenarios, sorted, IdOf);
    forall i, j | 0 <= i < j < |sorted|
      ensures sorted[i].id < sorted[j].id
    {
      assert IdOf(sorted[i]) != IdOf(sorted[j]);
    }
  }

  /** `sortedScenarios.find(s => s.id === id)` */
  function FindById(catalog: seq<Scenario>, id: int): (r: Option<Scenario>)
    ensures r.Some? ==> r.value in catalog && r.value.id == id
    ensures r.None? <==> forall s :: s in catalog ==> s.id != id
  {
    if catalog == [] then None
    else if catalog[0].id == id then Some(catalog[0])
    else FindById(catalog[1..], id)
  }

  /** `sortedScenarios.find(s => s.id > id)`: the first scenario after `id`. */
  function FindNext(catalog: seq<Scenario>, id: int): (r: Option<Scenario>)
    ensures r.Some? ==> r.value in catalog && r.value.id > id
    ensures r.None? <==> forall s :: s in catalog ==> s.id <= id
  {
    if catalog == [] then None
    else if catalog[0].id > id then Some(catalog[0])
    else FindNext(catalog[1..], id)
  }

  /** In an id-ordered catalog the first scenario after `id` has the smallest id greater than `id`. */
  lemma {:induction false} FindNextSmallest(catalog: seq<Scenario>, id: int, s: Scenario)
    requires SortedById(catalog)
    requires s in catalog && s.id > id
    ensures FindNext(catalog, id).Some? && FindNext(catalog, id).value.id <= s.id
  {
    if catalog[0].id <= id {
      assert s != catalog[0] && s in catalog[1..];
      FindNextSmallest(catalog[1..], id, s);
    }
  }

  // ---------------------------------------------------------------------------
  // Mastery and progress

  /** The scenarios recorded as answered correctly. */
  function CorrectIds(completed: map<int, bool>): set<int>
  {
    set k | k in completed && completed[k]
  }

  /** `calculateMasteryLevel`: the share of the catalog recorded as correct. */
  function MasteryLevel(completed: map<int, bool>, total: nat): real
    requires total > 0
  {
    |CorrectIds(completed)| as real / total as real
  }

  /** A scenario recorded as not correct does not count towards mastery. */
  lemma MasteryIgnoresFalse(completed: map<int, bool>, id: int, total: nat)
    requires total > 0 && id !in completed
    ensures MasteryLevel(completed[id := false], total) == MasteryLevel(completed, total)
  {
    assert CorrectIds(completed[id := false]) == CorrectIds(completed);
  }

  /** Recording a correct answer raises mastery by one scenario, or keeps it if already counted. */
  lemma MasteryMarkCorrect(completed: map<int, bool>, id: int, total: nat)
    requires total > 0
    ensures MasteryLevel(completed[id := true], total) ==
            if id in completed && completed[id] then MasteryLevel(completed, total)
            else MasteryLevel(completed, total) + 1.0 / total as real
  {
    var before := CorrectIds(completed);
    var after := CorrectIds(completed[id := true]);
    assert after == before + {id};
    if !(id in completed && completed[id]) {
      assert id !in before;
      assert |after| == |before| + 1;
    }
  }

  /** Mastery is never negative and never above the share of the recorded scenarios. */
  lemma MasteryBounds(completed: map<int, bool>, total: nat)
    requires total > 0
    ensures 0.0 <= MasteryLevel(completed, total) <= |completed| as real / total as real
  {
    assert CorrectIds(completed) <= completed.Keys;
    SubsetCardinality(CorrectIds(completed), completed.Keys);
  }

  /** When only catalog scenarios are recorded, mastery is a fraction between 0 and 1. */
  lemma MasteryWithinCatalog(completed: map<int, bool>, catalog: seq<Scenario>)
    requires |catalog| > 0 && completed.Keys <= Ids(catalog)
    ensures 0.0 <= MasteryLevel(completed, |catalog|) <= 1.0
  {
    IdsCardinality(catalog);
    SubsetCardinality(CorrectIds(completed), completed.Keys);
    SubsetCardinality(completed.Keys, Ids(catalog));
  }

  lemma SubsetCardinality(a: set<int>, b: set<int>)
    requires a <= b
    ensures |a| <= |b|
  {
    assert b == a + (b - a);
  }

  /** `Object.keys(completedScenarios).length`: every recorded scenario counts, correct or not. */
  function CompletedCount(completed: map<int, bool>): nat
  {
    |completed.Keys|
  }

  /** `progressPercentage` */
  function ProgressPercentage(completed: map<int, bool>, total: nat): int
    requires total > 0
  {
    Round(CompletedCount(completed) as real / total as real * 100.0)
  }

  /** The ids of a catalog. */
  function Ids(catalog: seq<Scenario>): set<int>
  {
    set s | s in catalog :: s.id
  }

  lemma {:induction false} IdsCardinality(catalog: seq<Scenario>)
    ensures |Ids(catalog)| <= |catalog|
  {
    if catalog != [] {
      var rest := catalog[1..];
      IdsCardinality(rest);
      assert forall s :: s in catalog <==> s == catalog[0] || s in rest;
      assert Ids(catalog) == Ids(rest) + {catalog[0].id};
    }
  }

  /** When only catalog scenarios are recorded, progress is between 0 and 100 percent. */
  lemma ProgressPercentageBounds(completed: map<int, bool>, catalog: seq<Scenario>)
    requires |catalog| > 0 && completed.Keys <= Ids(catalog)
    ensures 0 <= ProgressPercentage(completed, |catalog|) <= 100
  {
    IdsCardinality(catalog);
    SubsetCardinality(completed.Keys, Ids(catalog));
    var share := CompletedCount(completed) as real / |catalog| as real;
    assert 0.0 <= share <= 1.0;
  }

  /** Recording another scenario never lowers the count or the percentage. */
  lemma ProgressMonotone(completed: map<int, bool>, id: int, correct: bool, total: nat)
    requires total > 0
    ensures CompletedCount(completed[id := correct]) >= CompletedCount(completed)
    ensures ProgressPercentage(completed[id := correct], total) >= ProgressPercentage(completed, total)
  {
    assert completed[id := correct].Keys == completed.Keys + {id};
    SubsetCardinality(completed.Keys, completed[id := correct].Keys);
    var before := CompletedCount(completed) as real / total as real;
    var after := CompletedCount(completed[id := correct]) as real / total as real;
    assert before <= after;
  }

  // ---------------------------------------------------------------------------
  // The application state

  const Congratulations: string := "Congratulations! You have finished all the bond journal entries in this app!"
  const GreatJob: string := "Great job! You're making progress!"
  const KeepPracticing: string := "Keep practicing! You'll get better with each attempt."

  /** The saved progress as fetched; a field the data leaves out is `None`. */
  datatype SavedProgress = SavedProgress(completedScenarios: Option<map<int, bool>>, currentId: Option<int>)

  class App {
    const catalog: seq<Scenario>
    var currentId: int
    var completedScenarios: map<int, bool>
    var showSolution: bool
    /** `null` is `None`. */
    var isCorrect: Option<bool>
    var showFeedback: bool
    var feedbackMessage: string

    /** The catalog is non-empty and in strictly ascending id order. */
    ghost predicate Valid()
      reads this
    {
      |catalog| > 0 && StrictlyAscending(catalog)
    }

    /** The scenario on screen, if `currentId` names one. */
    function CurrentScenario(): Option<Scenario>
      reads this
    {
      FindById(catalog, currentId)
    }

    constructor(scenarios: seq<Scenario>)
      requires |scenarios| > 0 && DistinctIds(scenarios)
      ensures Valid() && catalog == SortById(scenarios)
      ensures currentId == 1 && completedScenarios == map[]
      ensures !showSolution && isCorrect == None && !showFeedback && feedbackMessage == ""
    {
      SortedCatalog(scenarios);
      catalog := SortById(scenarios);
      currentId := 1;
      completedScenarios := map[];
      showSolution := false;
      isCorrect := None;
      showFeedback := false;
      feedbackMessage := "";
    }

    /** Loading saved progress: a missing or falsy field falls back to `{}` and `1`. */
    method LoadProgress(data: SavedProgress)
      modifies this
      ensures completedScenarios == data.completedScenarios.GetOr(map[])
      ensures currentId == if data.currentId.None? || data.currentId.value == 0 then 1 else data.currentId.value
      ensures showSolution == old(showSolution) && isCorrect == old(isCorrect)
      ensures showFeedback == old(showFeedback) && feedbackMessage == old(feedbackMessage)
    {
      completedScenarios := data.completedScenarios.GetOr(map[]);
      currentId := if data.currentId.None? || data.currentId.value == 0 then 1 else data.currentId.value;
    }

    /**
     * `nextScenario`: move to the first scenario with a greater id and clear
     * the per-scenario flags, or, past the last one, stay and congratulate.
     */
    method NextScenario()
      requires Valid()
      modifies this
      ensures Valid()
      ensures completedScenarios == old(completedScenarios)
      ensures old(FindNext(catalog, currentId)).Some? ==>
                && currentId > old(currentId)
                && (exists s :: s in catalog && s.id == currentId)
                && (forall s :: s in catalog && s.id > old(currentId) ==> currentId <= s.id)
                && !showSolution && isCorrect == None && !showFeedback
                && feedbackMessage == old(feedbackMessage)
      ensures old(FindNext(catalog, currentId)).None? ==>
                && currentId == old(currentId)
                && feedbackMessage == Congratulations && showFeedback
                && showSolution == old(showSolution) && isCorrect == old(isCorrect)
    {
      var next := FindNext(catalog, currentId);
      if next.Some? {
        forall s | s in catalog && s.id > currentId
          ensures next.value.id <= s.id
        {
          FindNextSmallest(catalog, currentId, s);
        }
        currentId := next.value.id;
        showSolution := false;
        isCorrect := None;
        showFeedback := false;
      } else {
        feedbackMessage := Congratulations;
        showFeedback := true;
      }
    }

    /**
     * `markCompleted(isCorrect)`: record the answer for the current scenario
     * and show the matching feedback.
     */
    method MarkCompleted(correct: bool)
      requires CurrentScenario().Some?
      modifies this
      ensures completedScenarios == old(completedScenarios)[old(currentId) := correct]
      ensures currentId == old(currentId) && showFeedback
      ensures showSolution == old(showSolution) && isCorrect == old(isCorrect)
      ensures feedbackMessage ==
                if !correct then KeepPracticing
                else if FindNext(catalog, currentId).None? then Congratulations
                else GreatJob
    {
      var scenarioId := CurrentScenario().value.id;
      completedScenarios := completedScenarios[scenarioId := correct];
      if correct {
        var isLastScenario := FindNext(catalog, scenarioId).None?;
        feedbackMessage := if isLastScenario then Congratulations else GreatJob;
        showFeedback := true;
      } else {
        feedbackMessage := KeepPracticing;
        showFeedback := true;
      }
    }

    /** `toggleSolution` */
    method ToggleSolution()
      modifies this
      ensures showSolution == !old(showSolution)
      ensures currentId == old(currentId) && completedScenarios == old(completedScenarios)
      ensures isCorrect == old(isCorrect) && showFeedback == old(showFeedback)
      ensures feedbackMessage == old(feedbackMessage)
    {
      showSolution := !showSolution;
    }

    /** `resetProgress`, given the answer to the confirmation prompt. */
    method ResetProgress(confirmed: bool)
      modifies this
      ensures confirmed ==>
                && completedScenarios == map[] && currentId == 1
                && !showSolution && isCorrect == None && !showFeedback
                && feedbackMessage == old(feedbackMessage)
      ensures !confirmed ==>
                && completedScenarios == old(completedScenarios) && currentId == old(currentId)
                && showSolution == old(showSolution) && isCorrect == old(isCorrect)
                && showFeedback == old(showFeedback) && feedbackMessage == old(feedbackMessage)
    {
      if confirmed {
        completedScenarios := map[];
        currentId := 1;
        showSolution := false;
        isCorrect := None;
        showFeedback := false;
      }
    }

    /**
     * The form's `onCheck(result)`: remember the result, and record a correct
     * answer. A failed check never writes to the record, so what was recorded
     * correct stays correct and the count does not drop.
     */
    method OnCheck(result: Option<bool>)
      requires CurrentScenario().Some?
      modifies this
      ensures isCorrect == result && currentId == old(currentId)
      ensures result == Some(true) ==>
                && completedScenarios == old(completedScenarios)[currentId := true]
                && showFeedback
                && feedbackMessage == if FindNext(catalog, currentId).None? then Congratulations else GreatJob
      ensures result != Some(true) ==>
                && completedScenarios == old(completedScenarios)
                && showFeedback == old(showFeedback) && feedbackMessage == old(feedbackMessage)
      ensures forall k :: k in old(completedScenarios) && old(completedScenarios)[k] ==>
                k in completedScenarios && completedScenarios[k]
      ensures CompletedCount(completedScenarios) >= CompletedCount(old(completedScenarios))
      ensures showSolution == old(showSolution)
    {
      isCorrect := result;
      ProgressMonotone(completedScenarios, currentId, true, 1);
      if result == Some(true) {
        MarkCompleted(true);
      }
    }
  }
}
