/** Comparing two simulation reports, typically of one scenario before and after a change. */
module ReportDiff {
  import opened Options

  datatype StepResult = StepResult(stepIndex: int, success: bool, detail: string)

  datatype Report = Report(scenarioName: string, passedSteps: int, failedSteps: int, finalLedger: int,
                           stepResults: seq<StepResult>, budgetWarnings: nat, storageWarnings: nat)

  datatype Diff = Diff(scenarioMatches: bool, passedStepsDelta: int, failedStepsDelta: int, finalLedgerDelta: int,
                       newlyFailing: seq<StepResult>, newlyPassing: seq<StepResult>,
                       budgetWarningDelta: int, storageWarningDelta: int, identical: bool)

  /** The step with an index; of several, the last. */
  function StepAt(steps: seq<StepResult>, index: int): Option<StepResult> {
    if steps == [] then None
    else if steps[|steps| - 1].stepIndex == index then Some(steps[|steps| - 1])
    else StepAt(steps[..|steps| - 1], index)
  }

  /** The step went from the one outcome to the other. */
  predicate Turned(before: StepResult, after: Option<StepResult>, from: bool) {
    after.Some? && before.success == from && after.value.success != from
  }

  /** The later results of the steps that turned, in the order of the first report. */
  function TurnedSteps(before: seq<StepResult>, after: seq<StepResult>, from: bool): seq<StepResult> {
    if before == [] then []
    else
      var b := before[|before| - 1];
      var a := StepAt(after, b.stepIndex);
      TurnedSteps(before[..|before| - 1], after, from) + if Turned(b, a, from) then [a.value] else []
  }

  function Compared(r: Report, s: Report): Diff {
    var failing, passing := TurnedSteps(r.stepResults, s.stepResults, true), TurnedSteps(r.stepResults, s.stepResults, false);
    var matches := r.scenarioName == s.scenarioName;
    var passed, failed, last := s.passedSteps - r.passedSteps, s.failedSteps - r.failedSteps, s.finalLedger - r.finalLedger;
    Diff(matches, passed, failed, last, failing, passing,
         s.budgetWarnings - r.budgetWarnings, s.storageWarnings - r.storageWarnings,
         matches && passed == 0 && failed == 0 && last == 0 && failing == [] && passing == [])
  }

  // ---------------------------------------------------------------- the comparison

  /** The steps by index, as a map filled in order. */
  method ByIndex(steps: seq<StepResult>) returns (m: map<int, StepResult>)
    ensures forall i :: i in m <==> StepAt(steps, i).Some?
    ensures forall i :: i in m ==> StepAt(steps, i) == Some(m[i])
  {
    m := map[];
    for n := 0 to |steps|
      invariant forall i :: i in m <==> StepAt(steps[..n], i).Some?
      invariant forall i :: i in m ==> StepAt(steps[..n], i) == Some(m[i])
    {
      assert steps[..n + 1][..n] == steps[..n];
      m := m[steps[n].stepIndex := steps[n]];
    }
    assert steps[..|steps|] == steps;
  }

  /** Deltas are later minus earlier. A step is newly failing exactly if it fails in the second
      report, under an index under which the first one has a step that passed; newly passing
      the other way round. */
  method CompareReports(r: Report, s: Report) returns (diff: Diff)
    ensures diff == Compared(r, s)
    ensures diff.passedStepsDelta == s.passedSteps - r.passedSteps && diff.failedStepsDelta == s.failedSteps - r.failedSteps
    ensures diff.finalLedgerDelta == s.finalLedger - r.finalLedger
    ensures diff.budgetWarningDelta == s.budgetWarnings - r.budgetWarnings
    ensures diff.storageWarningDelta == s.storageWarnings - r.storageWarnings
    ensures diff.scenarioMatches <==> r.scenarioName == s.scenarioName
    ensures forall x :: x in diff.newlyFailing <==>
              !x.success && exists i :: 0 <= i < |r.stepResults| && r.stepResults[i].success
                                      && IsLastAt(s.stepResults, r.stepResults[i].stepIndex, x)
    ensures forall x :: x in diff.newlyPassing <==>
              x.success && exists i :: 0 <= i < |r.stepResults| && !r.stepResults[i].success
                                     && IsLastAt(s.stepResults, r.stepResults[i].stepIndex, x)
    ensures diff.identical <==>
              && diff.scenarioMatches && diff.passedStepsDelta == 0 && diff.failedStepsDelta == 0 && diff.finalLedgerDelta == 0
              && diff.newlyFailing == [] && diff.newlyPassing == []
  {
    ListsHold(r.stepResults, s.stepResults);
    var byIndex := ByIndex(s.stepResults);
    var steps := r.stepResults;
    var failing: seq<StepResult>, passing: seq<StepResult> := [], [];
    for n := 0 to |steps|
      invariant failing == TurnedSteps(steps[..n], s.stepResults, true)
      invariant passing == TurnedSteps(steps[..n], s.stepResults, false)
    {
      var before := steps[n];
      assert steps[..n + 1][..n] == steps[..n];
      if before.stepIndex !in byIndex { continue; }
      var after := byIndex[before.stepIndex];
      if before.success && !after.success { failing := failing + [after]; }
      if !before.success && after.success { passing := passing + [after]; }
    }
    assert steps[..|steps|] == steps;
    diff := Diff(r.scenarioName == s.scenarioName, s.passedSteps - r.passedSteps, s.failedSteps - r.failedSteps,
                 s.finalLedger - r.finalLedger, failing, passing,
                 s.budgetWarnings - r.budgetWarnings, s.storageWarnings - r.storageWarnings, false);
    diff := diff.(identical := diff.scenarioMatches && diff.passedStepsDelta == 0 && diff.failedStepsDelta == 0
                               && diff.finalLedgerDelta == 0 && |failing| == 0 && |passing| == 0);
  }

  /** x is the last of the steps with the index. */
  ghost predicate IsLastAt(steps: seq<StepResult>, index: int, x: StepResult) {
    exists k :: 0 <= k < |steps| && steps[k] == x && x.stepIndex == index
                && forall j :: k < j < |steps| ==> steps[j].stepIndex != index
  }

  lemma {:induction false} StepAtIsLast(steps: seq<StepResult>, index: int, x: StepResult)
    ensures StepAt(steps, index) == Some(x) <==> IsLastAt(steps, index, x)
  {
    if steps != [] {
      var n: int := |steps| - 1;
      var front := steps[..n];
      if steps[n].stepIndex != index {
        StepAtIsLast(front, index, x);
        if IsLastAt(front, index, x) {
          var k :| 0 <= k < |front| && front[k] == x && forall j :: k < j < |front| ==> front[j].stepIndex != index;
          assert steps[k] == x && forall j :: k < j < n ==> steps[j] == front[j];
        }
        if IsLastAt(steps, index, x) {
          var k :| 0 <= k < |steps| && steps[k] == x && forall j :: k < j < |steps| ==> steps[j].stepIndex != index;
          assert front[k] == x;
        }
      } else {
        assert steps[n] == steps[n];
      }
    }
  }

  /** The lists follow the order of the first report. */
  lemma {:induction false} TurnedInOrder(a: seq<StepResult>, b: seq<StepResult>, after: seq<StepResult>, from: bool)
    ensures TurnedSteps(a + b, after, from) == TurnedSteps(a, after, from) + TurnedSteps(b, after, from)
  {
    if b == [] {
      assert a + b == a;
    } else {
      assert (a + b)[..|a + b| - 1] == a + b[..|b| - 1];
      TurnedInOrder(a, b[..|b| - 1], after, from);
    }
  }

  lemma ListsHold(before: seq<StepResult>, after: seq<StepResult>)
    ensures forall x :: x in TurnedSteps(before, after, true) <==>
              !x.success && exists i :: 0 <= i < |before| && before[i].success && IsLastAt(after, before[i].stepIndex, x)
    ensures forall x :: x in TurnedSteps(before, after, false) <==>
              x.success && exists i :: 0 <= i < |before| && !before[i].success && IsLastAt(after, before[i].stepIndex, x)
  {
    hide TurnedSteps, IsLastAt, StepAt;
    forall x
      ensures x in TurnedSteps(before, after, true) <==>
                !x.success && exists i :: 0 <= i < |before| && before[i].success && IsLastAt(after, before[i].stepIndex, x)
      ensures x in TurnedSteps(before, after, false) <==>
                x.success && exists i :: 0 <= i < |before| && !before[i].success && IsLastAt(after, before[i].stepIndex, x)
    {
      forall i | 0 <= i < |before|
        ensures StepAt(after, before[i].stepIndex) == Some(x) <==> IsLastAt(after, before[i].stepIndex, x)
      {
        StepAtIsLast(after, before[i].stepIndex, x);
      }
      TurnedMembers(before, after, true, x);
      TurnedMembers(before, after, false, x);
    }
  }

  // ---------------------------------------------------------------- what the lists hold

  ghost predicate UniqueIndices(steps: seq<StepResult>) {
    forall i, j :: 0 <= i < j < |steps| ==> steps[i].stepIndex != steps[j].stepIndex
  }

  lemma {:induction false} StepAtFinds(steps: seq<StepResult>, index: int)
    ensures StepAt(steps, index).Some? ==> StepAt(steps, index).value in steps && StepAt(steps, index).value.stepIndex == index
    ensures StepAt(steps, index).None? ==> forall i :: 0 <= i < |steps| ==> steps[i].stepIndex != index
  {
    if steps != [] && steps[|steps| - 1].stepIndex != index {
      StepAtFinds(steps[..|steps| - 1], index);
    }
  }

  /** With unique indices the step with an index is the only one. */
  lemma StepAtIs(steps: seq<StepResult>, i: nat)
    requires UniqueIndices(steps) && i < |steps|
    ensures StepAt(steps, steps[i].stepIndex) == Some(steps[i])
  {
    StepAtFinds(steps, steps[i].stepIndex);
    var found := StepAt(steps, steps[i].stepIndex);
    assert steps[i].stepIndex == steps[i].stepIndex;
    var j :| 0 <= j < |steps| && steps[j] == found.value;
  }

  /** What a turned list holds. */
  lemma {:induction false} TurnedMembers(before: seq<StepResult>, after: seq<StepResult>, from: bool, x: StepResult)
    ensures x in TurnedSteps(before, after, from) <==>
              exists i :: 0 <= i < |before| && StepAt(after, before[i].stepIndex) == Some(x)
                          && Turned(before[i], Some(x), from)
  {
    if before != [] {
      var front, b := before[..|before| - 1], before[|before| - 1];
      TurnedMembers(front, after, from, x);
      if i :| 0 <= i < |before| && StepAt(after, before[i].stepIndex) == Some(x) && Turned(before[i], Some(x), from) {
        if i < |front| {
          assert front[i] == before[i];
        }
      }
      if i :| 0 <= i < |front| && StepAt(after, front[i].stepIndex) == Some(x) && Turned(front[i], Some(x), from) {
        assert before[i] == front[i];
      }
    }
  }

  ghost predicate HasIndex(steps: seq<StepResult>, index: int) {
    exists i :: 0 <= i < |steps| && steps[i].stepIndex == index
  }

  /** The step with this index turned between the reports. */
  ghost predicate TurnedAt(before: seq<StepResult>, after: seq<StepResult>, from: bool, index: int) {
    StepAt(before, index).Some? && Turned(StepAt(before, index).value, StepAt(after, index), from)
  }

  /** With unique indices, a turned list has exactly the indices at which the outcome turned. */
  lemma TurnedIndices(before: seq<StepResult>, after: seq<StepResult>, from: bool, index: int)
    requires UniqueIndices(before)
    ensures HasIndex(TurnedSteps(before, after, from), index) <==> TurnedAt(before, after, from, index)
  {
    var turned := TurnedSteps(before, after, from);
    if HasIndex(turned, index) {
      var k :| 0 <= k < |turned| && turned[k].stepIndex == index;
      TurnedMembers(before, after, from, turned[k]);
      var i :| 0 <= i < |before| && StepAt(after, before[i].stepIndex) == Some(turned[k]) && Turned(before[i], Some(turned[k]), from);
      StepAtFinds(after, before[i].stepIndex);
      StepAtIs(before, i);
    }
    if TurnedAt(before, after, from, index) {
      var b, a := StepAt(before, index).value, StepAt(after, index).value;
      StepAtFinds(before, index);
      StepAtFinds(after, index);
      var i :| 0 <= i < |before| && before[i] == b;
      TurnedMembers(before, after, from, a);
      var k :| 0 <= k < |turned| && turned[k] == a;
    }
  }

  /** Swapping the reports negates every delta and swaps newly failing with newly passing
      steps. */
  lemma SwapNegates(r: Report, s: Report)
    requires UniqueIndices(r.stepResults) && UniqueIndices(s.stepResults)
    ensures var d, e := Compared(r, s), Compared(s, r);
            && e.passedStepsDelta == -d.passedStepsDelta && e.failedStepsDelta == -d.failedStepsDelta
            && e.finalLedgerDelta == -d.finalLedgerDelta && e.budgetWarningDelta == -d.budgetWarningDelta
            && e.storageWarningDelta == -d.storageWarningDelta && e.scenarioMatches == d.scenarioMatches
            && (forall index :: HasIndex(e.newlyFailing, index) <==> HasIndex(d.newlyPassing, index))
            && (forall index :: HasIndex(e.newlyPassing, index) <==> HasIndex(d.newlyFailing, index))
            && e.identical == d.identical
  {
    var d, e := Compared(r, s), Compared(s, r);
    forall index
      ensures HasIndex(e.newlyFailing, index) <==> HasIndex(d.newlyPassing, index)
      ensures HasIndex(e.newlyPassing, index) <==> HasIndex(d.newlyFailing, index)
    {
      TurnedIndices(r.stepResults, s.stepResults, true, index);
      TurnedIndices(r.stepResults, s.stepResults, false, index);
      TurnedIndices(s.stepResults, r.stepResults, true, index);
      TurnedIndices(s.stepResults, r.stepResults, false, index);
    }
    EmptyIff(e.newlyFailing, d.newlyPassing);
    EmptyIff(e.newlyPassing, d.newlyFailing);
  }

  lemma EmptyIff(s: seq<StepResult>, t: seq<StepResult>)
    requires forall index :: HasIndex(s, index) <==> HasIndex(t, index)
    ensures s == [] <==> t == []
  {
    if s != [] {
      assert HasIndex(s, s[0].stepIndex);
    }
    if t != [] {
      assert HasIndex(t, t[0].stepIndex);
    }
  }

  // ---------------------------------------------------------------- when reports are identical

  /** Where both reports have a step, its outcome is the same. */
  ghost predicate SameOutcomes(a: seq<StepResult>, b: seq<StepResult>) {
    forall index :: StepAt(a, index).Some? && StepAt(b, index).Some? ==>
                      StepAt(a, index).value.success == StepAt(b, index).value.success
  }

  /** What `identical` says: same scenario, same counts and final ledger, and no step with a
      different outcome. It says nothing about warnings or about steps only one report has. */
  lemma IdenticalIff(r: Report, s: Report)
    requires UniqueIndices(r.stepResults)
    ensures Compared(r, s).identical <==>
              && r.scenarioName == s.scenarioName && r.passedSteps == s.passedSteps && r.failedSteps == s.failedSteps
              && r.finalLedger == s.finalLedger && SameOutcomes(r.stepResults, s.stepResults)
  {
    NoneTurnedIff(r.stepResults, s.stepResults, true);
    NoneTurnedIff(r.stepResults, s.stepResults, false);
    var a, b := r.stepResults, s.stepResults;
    if SameOutcomes(a, b) {
      assert forall index :: !TurnedAt(a, b, true, index) && !TurnedAt(a, b, false, index);
    } else {
      var index :| StepAt(a, index).Some? && StepAt(b, index).Some?
                   && StepAt(a, index).value.success != StepAt(b, index).value.success;
      assert TurnedAt(a, b, StepAt(a, index).value.success, index);
    }
  }

  lemma NoneTurnedIff(before: seq<StepResult>, after: seq<StepResult>, from: bool)
    requires UniqueIndices(before)
    ensures TurnedSteps(before, after, from) == [] <==> forall index :: !TurnedAt(before, after, from, index)
  {
    hide TurnedAt, TurnedSteps;
    var turned := TurnedSteps(before, after, from);
    forall index ensures HasIndex(turned, index) <==> TurnedAt(before, after, from, index) {
      TurnedIndices(before, after, from, index);
    }
    if turned != [] {
      assert HasIndex(turned, turned[0].stepIndex);
    }
  }

  /** A report is identical to itself exactly if steps that share an index share their outcome. */
  lemma ReflexiveIff(r: Report)
    ensures var steps := r.stepResults;
            Compared(r, r).identical <==>
              forall i :: 0 <= i < |steps| ==>
                exists last :: StepAt(steps, steps[i].stepIndex) == Some(last) && steps[i].success == last.success
  {
    var steps, d := r.stepResults, Compared(r, r);
    forall i | 0 <= i < |steps|
      ensures StepAt(steps, steps[i].stepIndex).Some?
    {
      StepAtFinds(steps, steps[i].stepIndex);
    }
    if i :| 0 <= i < |steps| && steps[i].success != StepAt(steps, steps[i].stepIndex).value.success {
      TurnedMembers(steps, steps, steps[i].success, StepAt(steps, steps[i].stepIndex).value);
    }
    if d.newlyFailing != [] {
      TurnedMembers(steps, steps, true, d.newlyFailing[0]);
    }
    if d.newlyPassing != [] {
      TurnedMembers(steps, steps, false, d.newlyPassing[0]);
    }
  }

  /** Identity carries over from the first report to the third if and only if the steps that these
      two share, and the middle one lacks, have the same outcome. */
  lemma IdenticalTransitiveIff(r: Report, s: Report, t: Report)
    requires UniqueIndices(r.stepResults) && UniqueIndices(s.stepResults) && UniqueIndices(t.stepResults)
    requires Compared(r, s).identical && Compared(s, t).identical
    ensures Compared(r, t).identical <==>
              forall index :: StepAt(r.stepResults, index).Some? && StepAt(t.stepResults, index).Some?
                              && !HasIndex(s.stepResults, index) ==>
                                StepAt(r.stepResults, index).value.success == StepAt(t.stepResults, index).value.success
  {
    hide HasIndex;
    IdenticalIff(r, s);
    IdenticalIff(s, t);
    IdenticalIff(r, t);
    forall index ensures HasIndex(s.stepResults, index) <==> StepAt(s.stepResults, index).Some? {
      HasIndexIff(s.stepResults, index);
    }
  }

  lemma HasIndexIff(steps: seq<StepResult>, index: int)
    ensures HasIndex(steps, index) <==> StepAt(steps, index).Some?
  {
    StepAtFinds(steps, index);
  }

  /** A step the middle report lacks can turn unnoticed. */
  lemma IdenticalNotTransitive() returns (r: Report, s: Report, t: Report)
    ensures UniqueIndices(r.stepResults) && UniqueIndices(s.stepResults) && UniqueIndices(t.stepResults)
    ensures Compared(r, s).identical && Compared(s, t).identical && !Compared(r, t).identical
  {
    var good, bad := StepResult(0, true, ""), StepResult(0, false, "");
    r, s, t := Report("", 1, 1, 5, [good], 0, 0), Report("", 1, 1, 5, [], 0, 0), Report("", 1, 1, 5, [bad], 0, 0);
    IdenticalIff(r, s);
    IdenticalIff(s, t);
    IdenticalIff(r, t);
    assert StepAt([good], 0) == Some(good) && StepAt([bad], 0) == Some(bad);
  }
}
