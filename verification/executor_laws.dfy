/** What every run of the executor keeps: who is dispatched when, what changes in the plan, what is reported. */
module ExecutorLaws {
  import opened Options
  import opened Sorting
  import opened TaskExecutor

  // ----- one turn on a plan with unique ids changes one step

  lemma UpdateAtIndex(plan: Plan, i: nat, status: StepStatus, result: Value, error: Option<string>)
    requires UniqueIds(plan) && i < |plan.steps|
    ensures UpdateStepStatus(plan, plan.steps[i].id, status, result, error)
         == plan.(steps := plan.steps[i := UpdateStep(plan.steps[i], status, result, error)])
    ensures UniqueIds(UpdateStepStatus(plan, plan.steps[i].id, status, result, error))
  {
    var after := UpdateStepStatus(plan, plan.steps[i].id, status, result, error);
    forall j | 0 <= j < |plan.steps| && j != i ensures plan.steps[j].id != plan.steps[i].id {
    }
    assert after.steps == plan.steps[i := UpdateStep(plan.steps[i], status, result, error)];
  }

  /** Step `i` is running, every dependency of it is completed, nothing else runs, and every other ready step
      comes later by (order, position). */
  ghost predicate GoodDispatch(plan: Plan, i: nat) {
    && i < |plan.steps| && plan.steps[i].status == Running && DependenciesMet(plan.steps, plan.steps[i])
    && forall j | 0 <= j < |plan.steps| && j != i ::
         && plan.steps[j].status != Running
         && (Ready(plan.steps)(plan.steps[j]) ==>
               plan.steps[i].order < plan.steps[j].order || (plan.steps[i].order == plan.steps[j].order && i < j))
  }

  ghost predicate GoodCall(call: ToolCall) {
    exists i: nat :: GoodDispatch(call.plan, i) && call.step == call.plan.steps[i]
  }

  ghost predicate NoneRunning(plan: Plan) { forall s | s in plan.steps :: s.status != Running }

  lemma CompletionUnaffected(plan: Plan, i: nat, after: Plan)
    requires i < |plan.steps| && plan.steps[i].status != Completed
    requires |after.steps| == |plan.steps| && after.steps[i].status != Completed
    requires forall j | 0 <= j < |plan.steps| && j != i :: after.steps[j] == plan.steps[j]
    ensures forall id :: IsCompleted(after.steps, id) <==> IsCompleted(plan.steps, id)
  {
    forall id ensures IsCompleted(after.steps, id) <==> IsCompleted(plan.steps, id) {
      if s :| s in plan.steps && s.id == id && s.status == Completed {
        var j :| 0 <= j < |plan.steps| && plan.steps[j] == s;
        assert after.steps[j] in after.steps;
      }
      if s :| s in after.steps && s.id == id && s.status == Completed {
        var j :| 0 <= j < |after.steps| && after.steps[j] == s;
        assert plan.steps[j] in plan.steps;
      }
    }
  }

  lemma MarkingRunningIsGood(plan: Plan, i: nat)
    requires UniqueIds(plan) && NoneRunning(plan) && LeastAt(OrderKey(), Ready(plan.steps), plan.steps, i)
    ensures var running := UpdateStepStatus(plan, plan.steps[i].id, Running, Undefined, None);
            && GoodDispatch(running, i)
            && Find((s: Step) => s.id == plan.steps[i].id, running.steps) == Some(running.steps[i])
  {
    var running := UpdateStepStatus(plan, plan.steps[i].id, Running, Undefined, None);
    UpdateAtIndex(plan, i, Running, Undefined, None);
    CompletionUnaffected(plan, i, running);
    forall j | 0 <= j < |running.steps| && j != i
      ensures running.steps[j].status != Running
      ensures Ready(running.steps)(running.steps[j]) ==>
                running.steps[i].order < running.steps[j].order
                    || (running.steps[i].order == running.steps[j].order && i < j)
    {
      assert running.steps[j] == plan.steps[j] && plan.steps[j] in plan.steps;
    }
    FindById(running, i);
  }

  lemma FindById(plan: Plan, i: nat)
    requires UniqueIds(plan) && i < |plan.steps|
    ensures Find((s: Step) => s.id == plan.steps[i].id, plan.steps) == Some(plan.steps[i])
  {
    var p := (s: Step) => s.id == plan.steps[i].id;
    var r := Find(p, plan.steps);
    assert plan.steps[i] in plan.steps && p(plan.steps[i]);
    var j :| 0 <= j < |plan.steps| && plan.steps[j] == r.value;
  }

  function CallBound(env: Env): nat { if env.retryLimit < 0 then 0 else env.retryLimit + 1 }

  /** The call runs `step`, and the plan it sees has the same completed steps as `plan`. */
  ghost predicate CalledIn(call: ToolCall, plan: Plan, step: Step) {
    call.step.id == step.id && forall id :: IsCompleted(call.plan.steps, id) <==> IsCompleted(plan.steps, id)
  }

  lemma {:induction false} AttemptsBound(env: Env, turn: nat, attempt: nat)
    ensures Attempts(env, turn, attempt).0.Success? ==> Attempts(env, turn, attempt).1 > 0
    ensures Attempts(env, turn, attempt).1 <= if attempt > env.retryLimit then 0 else env.retryLimit + 1 - attempt
    decreases env.retryLimit - attempt
  {
    if attempt <= env.retryLimit {
      AttemptsBound(env, turn, attempt + 1);
    }
  }

  /** What a turn leaves of its step, the results, the errors and the status of the plan. */
  ghost predicate TurnLeaves(run: Run, step: Step, execution: Execution, after: Run, i: nat)
    requires i < |after.plan.steps|
  {
    var done := after.plan.steps[i];
    && done.id == step.id && done.order == step.order && done.tool == step.tool && done.dependsOn == step.dependsOn
    && match execution
       case Success(value) =>
         && done.status == Completed && done.error == step.error
         && done.result == (if value == Undefined then step.result else Some(value))
         && after.results == run.results[step.id := value] && after.errors == run.errors
         && after.plan.status == run.plan.status
       case CancelledDuring(_) =>
         && done.status == Failed && done.error == Some("Execution cancelled") && done.result == step.result
         && after.results == run.results && after.errors == run.errors && after.plan.status == PlanCancelled
       case Failure(error) =>
         && done.status == Failed && done.error == Some(error) && done.result == step.result
         && after.results == run.results && after.plan.status == PlanFailed
         && after.errors == run.errors
              + [if |error| >= 19 && error[..19] == "Execution timed out" then TimedOut(error)
                 else StepError(step.order, step.tool, error)]
  }

  /** A turn makes as many calls as its attempts ask for and changes exactly the step it dispatches. */
  lemma TurnChanges(env: Env, run: Run, turn: nat, step: Step) returns (i: nat)
    requires UniqueIds(run.plan) && NextPendingStep(run.plan) == Some(step)
    ensures LeastAt(OrderKey(), Ready(run.plan.steps), run.plan.steps, i)
    ensures i < |run.plan.steps| && run.plan.steps[i] == step && step.status == Pending
            && DependenciesMet(run.plan.steps, step)
    ensures var (execution, dispatched) := Dispatch(env, run, turn, step);
            var after := Record(dispatched, step, execution);
            && after.plan.steps == run.plan.steps[i := Finished(step, execution)]
            && execution == Attempts(env, turn, 0).0
            && after.results == (if execution.Success? then run.results[step.id := execution.result] else run.results)
            && EndsAs(env, turn, execution, |after.calls| - |run.calls|)
            && (forall j | 0 <= j < |run.plan.steps| && j != i :: after.plan.steps[j] == run.plan.steps[j])
            && TurnLeaves(run, step, execution, after, i)
  {
    hide Attempts, NextPendingStep, Ready, Find, LeastAt, IsCompleted, EndsAs;
    AttemptsEnd(env, turn);
    i := NextIsReady(run.plan, step);
    assert i < |run.plan.steps| by { LeastIsIndex(run.plan, i); }
    var running := UpdateStepStatus(run.plan, step.id, Running, Undefined, None);
    UpdateAtIndex(run.plan, i, Running, Undefined, None);
    var (execution, dispatched) := Dispatch(env, run, turn, step);
    match execution
    case Success(value) => UpdateAtIndex(running, i, Completed, value, None);
    case CancelledDuring(error) => UpdateAtIndex(running, i, Failed, Undefined, Some(CANCELLED_ERROR));
    case Failure(error) => UpdateAtIndex(running, i, Failed, Undefined, Some(error));
  }

  /** A turn also calls the tool a bounded number of times, and every call is a good one. */
  lemma TurnEffect(env: Env, run: Run, turn: nat, step: Step) returns (i: nat)
    requires UniqueIds(run.plan) && NoneRunning(run.plan) && NextPendingStep(run.plan) == Some(step)
    ensures i < |run.plan.steps| && run.plan.steps[i] == step && step.status == Pending
    ensures var (execution, dispatched) := Dispatch(env, run, turn, step);
            var after := Record(dispatched, step, execution);
            && after.plan.steps == run.plan.steps[i := Finished(step, execution)]
            && after.results == (if execution.Success? then run.results[step.id := execution.result] else run.results)
            && run.calls <= after.calls && |after.calls| <= |run.calls| + CallBound(env)
            && (execution.Success? ==> |run.calls| < |after.calls|)
            && forall k | |run.calls| <= k < |after.calls| ::
                 GoodCall(after.calls[k]) && CalledIn(after.calls[k], run.plan, step)
  {
    hide Attempts, NextPendingStep, Ready, Find, GoodDispatch, LeastAt, IsCompleted, EndsAs, TurnLeaves;
    i := TurnChanges(env, run, turn, step);
    MarkingRunningIsGood(run.plan, i);
    var running := UpdateStepStatus(run.plan, step.id, Running, Undefined, None);
    UpdateAtIndex(run.plan, i, Running, Undefined, None);
    CompletionUnaffected(run.plan, i, running);
    AttemptsBound(env, turn, 0);
    assert GoodCall(ToolCall(running.steps[i], running));
  }

  lemma LeastIsIndex(plan: Plan, i: nat)
    requires LeastAt(OrderKey(), Ready(plan.steps), plan.steps, i)
    ensures i < |plan.steps|
  {
  }

  /** The dispatched step once its turn is over. */
  function Finished(step: Step, execution: Execution): Step {
    match execution
    case Success(value) => UpdateStep(step, Completed, value, None)
    case CancelledDuring(error) => UpdateStep(step, Failed, Undefined, Some(CANCELLED_ERROR))
    case Failure(error) => UpdateStep(step, Failed, Undefined, Some(error))
  }

  // ----- accounting over whole runs

  ghost predicate SameIdentity(a: Step, b: Step) {
    a.id == b.id && a.order == b.order && a.tool == b.tool && a.dependsOn == b.dependsOn
  }

  /** Position `i` was pending in `before` and is completed in `after`. */
  ghost predicate NewlyCompleted(before: Plan, after: Plan, i: nat) {
    i < |before.steps| == |after.steps| && before.steps[i].status == Pending && after.steps[i].status == Completed
  }

  /** Ids, order, tools and dependencies are as before; a step that was not pending is untouched; and the
      results are exactly those of the newly completed steps. */
  ghost predicate Accounts(before: Plan, run: Run) {
    && |run.plan.steps| == |before.steps|
    && (forall i | 0 <= i < |before.steps| ::
          && SameIdentity(before.steps[i], run.plan.steps[i])
          && (before.steps[i].status != Pending ==> run.plan.steps[i] == before.steps[i])
          && run.plan.steps[i].status in [before.steps[i].status, Completed, Failed])
    && ResultsMatch(before, run)
  }

  /** The state at the head of a turn: nothing has failed. */
  ghost predicate Underway(before: Plan, run: Run) {
    && Accounts(before, run) && UniqueIds(before) && UniqueIds(run.plan)
    && run.errors == []
    && forall i | 0 <= i < |before.steps| ::
         run.plan.steps[i] == before.steps[i] || NewlyCompleted(before, run.plan, i)
  }

  /** The results map is exact for the plan. */
  ghost predicate ResultsMatch(before: Plan, run: Run)
    requires |run.plan.steps| == |before.steps|
  {
    && (forall id :: id in run.results <==>
         exists i: nat :: NewlyCompleted(before, run.plan, i) && before.steps[i].id == id)
    && (forall i: nat | NewlyCompleted(before, run.plan, i) && before.steps[i].id in run.results ::
          run.plan.steps[i] == UpdateStep(before.steps[i], Completed, run.results[before.steps[i].id], None))
  }

  lemma ResultsStayExact(before: Plan, run: Run, i: nat, execution: Execution, after: Run)
    requires UniqueIds(before) && |run.plan.steps| == |before.steps| && i < |before.steps| && ResultsMatch(before, run)
    requires run.plan.steps[i] == before.steps[i] && before.steps[i].status == Pending
    requires after.plan.steps == run.plan.steps[i := Finished(before.steps[i], execution)]
    requires after.results == if execution.Success? then run.results[before.steps[i].id := execution.result]
        else run.results
    ensures ResultsMatch(before, after)
  {
    var step := before.steps[i];
    assert !NewlyCompleted(before, run.plan, i);
    forall j: nat | j != i ensures NewlyCompleted(before, after.plan, j) <==> NewlyCompleted(before, run.plan, j) {
    }
    assert NewlyCompleted(before, after.plan, i) <==> execution.Success?;
    forall id
      ensures id in after.results <==>
          exists j: nat :: NewlyCompleted(before, after.plan, j) && before.steps[j].id == id
    {
      if execution.Success? && id == step.id {
        assert NewlyCompleted(before, after.plan, i);
      } else if id in run.results {
        var j: nat :| NewlyCompleted(before, run.plan, j) && before.steps[j].id == id;
        assert NewlyCompleted(before, after.plan, j);
      }
    }
    forall j: nat | NewlyCompleted(before, after.plan, j) && before.steps[j].id in after.results
      ensures after.plan.steps[j] == UpdateStep(before.steps[j], Completed, after.results[before.steps[j].id], None)
    {
      if j != i {
        assert NewlyCompleted(before, run.plan, j);
        assert before.steps[j].id != step.id;
      }
    }
  }

  lemma FinishedStep(step: Step, execution: Execution)
    ensures SameIdentity(step, Finished(step, execution))
    ensures Finished(step, execution).status == (if execution.Success? then Completed else Failed)
  {
  }

  lemma OneStepKeepsIds(plan: Plan, after: Plan, i: nat)
    requires UniqueIds(plan) && i < |plan.steps| && |after.steps| == |plan.steps|
             && after.steps[i].id == plan.steps[i].id
    requires forall j | 0 <= j < |plan.steps| && j != i :: after.steps[j] == plan.steps[j]
    ensures UniqueIds(after)
  {
    assert forall j | 0 <= j < |plan.steps| :: after.steps[j].id == plan.steps[j].id;
  }

  lemma {:induction false} TurnAccounts(before: Plan, run: Run, i: nat, execution: Execution, after: Run)
    requires Underway(before, run) && i < |run.plan.steps| && run.plan.steps[i].status == Pending
    requires after.plan.steps == run.plan.steps[i := Finished(run.plan.steps[i], execution)]
    requires after.results == if execution.Success? then run.results[run.plan.steps[i].id := execution.result]
        else run.results
    ensures Accounts(before, after)
    ensures execution.Success? && after.errors == [] ==> Underway(before, after)
  {
    assert !NewlyCompleted(before, run.plan, i);
    ResultsStayExact(before, run, i, execution, after);
    FinishedStep(run.plan.steps[i], execution);
    OneStepKeepsIds(run.plan, after.plan, i);
    hide ResultsMatch, Finished, UniqueIds;
  }

  /** At most one error; success means no error and every step completed or skipped; otherwise something failed,
      was cancelled, or was left behind. */
  ghost predicate Reports(run: Run) {
    && |run.errors| <= 1
    && run.plan.status in [PlanCompleted, PlanFailed, PlanCancelled]
    && (run.plan.status == PlanCompleted ==> run.errors == [] && AllSettled(run.plan))
    && (run.plan.status == PlanFailed && run.errors == [] ==> NextPendingStep(run.plan).None? && !AllSettled(run.plan))
    && (run.plan.status == PlanCancelled ==> run.errors == [])
  }

  /** From `run` to `final` only good calls were added, at most the bound for each pending step. */
  ghost predicate Continues(env: Env, run: Run, final: Run) {
    && run.calls <= final.calls
    && (forall k | |run.calls| <= k < |final.calls| :: GoodCall(final.calls[k]))
    && |final.calls| <= |run.calls| + CallBound(env) * PendingCount(run.plan.steps)
  }

  lemma {:induction false} ContinuesThrough(env: Env, run: Run, after: Run, final: Run)
    requires run.calls <= after.calls && |after.calls| <= |run.calls| + CallBound(env)
    requires forall k | |run.calls| <= k < |after.calls| :: GoodCall(after.calls[k])
    requires PendingCount(after.plan.steps) < PendingCount(run.plan.steps)
    requires Continues(env, after, final)
    ensures Continues(env, run, final)
  {
    hide PendingCount, GoodCall, CallBound;
    OneLess(CallBound(env), PendingCount(after.plan.steps), PendingCount(run.plan.steps));
    forall k | |run.calls| <= k < |final.calls| ensures GoodCall(final.calls[k]) {
      if k < |after.calls| {
        assert final.calls[k] == after.calls[k];
      }
    }
  }

  lemma ContinuesSelf(env: Env, run: Run, final: Run)
    requires final.calls == run.calls
    ensures Continues(env, run, final)
  {
    NonNegative(CallBound(env), PendingCount(run.plan.steps));
  }

  lemma NextBySteps(a: Plan, b: Plan)
    requires a.steps == b.steps
    ensures NextPendingStep(a) == NextPendingStep(b) && (AllSettled(a) <==> AllSettled(b))
  {
  }

  lemma {:induction false} LoopAccounts(before: Plan, env: Env, run: Run, turn: nat)
    requires Underway(before, run) && NoneRunning(run.plan)
    ensures var final := Loop(env, run, turn);
            Accounts(before, final) && Reports(final) && NoneRunning(final.plan) && Continues(env, run, final)
    decreases PendingCount(run.plan.steps)
  {
    hide Attempts, NextPendingStep, PendingCount, GoodCall, Accounts, Dispatch, Record, CallBound, UniqueIds, Continues;
    if !env.cancelled(turn) && !env.late(turn) && NextPendingStep(run.plan).Some? {
      var step := NextPendingStep(run.plan).value;
      var (execution, dispatched) := Dispatch(env, run, turn, step);
      var after := Record(dispatched, step, execution);
      var i := TurnEffect(env, run, turn, step);
      TurnUsesAPendingStep(env, run, turn, step);
      TurnReports(env, run, turn, step);
      TurnAccounts(before, run, i, execution, after);
      assert NoneRunning(after.plan);
      if execution.Success? {
        LoopAccounts(before, env, after, turn + 1);
      } else {
        ContinuesSelf(env, after, after);
      }
      ContinuesThrough(env, run, after, Loop(env, run, turn));
    } else {
      StatusOnly(before, run, Loop(env, run, turn));
      NextBySteps(run.plan, Loop(env, run, turn).plan);
      ContinuesSelf(env, run, Loop(env, run, turn));
    }
  }

  lemma {:induction false} NonNegative(a: nat, b: nat)
    ensures 0 <= a * b
  {
    if b > 0 {
      NonNegative(a, b - 1);
      assert a * b == a * (b - 1) + a;
    }
  }

  lemma {:induction false} OneLess(bound: nat, less: nat, more: nat)
    requires less < more
    ensures bound * less + bound <= bound * more
  {
    var rest := more - less - 1;
    NonNegative(bound, rest);
    calc {
      bound * more;
      bound * (less + 1 + rest);
      bound * less + bound + bound * rest;
    }
  }

  lemma StatusOnly(before: Plan, run: Run, final: Run)
    requires Accounts(before, run) && final.plan.steps == run.plan.steps && final.results == run.results
    ensures Accounts(before, final)
  {
    assert forall i: nat :: NewlyCompleted(before, run.plan, i) <==> NewlyCompleted(before, final.plan, i);
  }

  lemma TurnReports(env: Env, run: Run, turn: nat, step: Step)
    requires run.errors == []
    ensures var (execution, dispatched) := Dispatch(env, run, turn, step);
            var after := Record(dispatched, step, execution);
            && (execution.Success? ==> after.errors == [])
            && (!execution.Success? ==> Reports(after))
  {
    hide Attempts, NextPendingStep;
  }

  /** How a run ends at the head of a turn: cancelled, out of time with the message that says so, or with nothing left
      that is ready. Steps, results and calls stay as they are. */
  lemma RunEnds(env: Env, run: Run, turn: nat)
    requires env.cancelled(turn) || env.late(turn) || NextPendingStep(run.plan).None?
    ensures var final := Loop(env, run, turn);
            && final.plan.steps == run.plan.steps && final.results == run.results && final.calls == run.calls
            && (env.cancelled(turn) ==> final.plan.status == PlanCancelled && final.errors == run.errors)
            && (!env.cancelled(turn) && env.late(turn) ==>
                  && final.plan.status == PlanFailed
                  && final.errors == run.errors
                       + [TimedOut("Execution timed out after " + env.timeoutSeconds + " seconds")])
            && (!env.cancelled(turn) && !env.late(turn) ==>
                  && final.errors == run.errors
                  && (final.plan.status == PlanCompleted <==>
                        forall i | 0 <= i < |run.plan.steps| :: run.plan.steps[i].status in [Completed, Skipped])
                  && final.plan.status in [PlanCompleted, PlanFailed])
  {
    hide Dispatch, AllSettled, NextPendingStep, Record;
    SettledSteps(run.plan);
    assert "Execution timed out" + " after " == "Execution timed out after ";
  }

  lemma SettledSteps(plan: Plan)
    ensures AllSettled(plan) <==> forall i | 0 <= i < |plan.steps| :: plan.steps[i].status in [Completed, Skipped]
  {
    assert forall i | 0 <= i < |plan.steps| :: plan.steps[i] in plan.steps;
  }

  // ----- the dispatch sequence

  ghost predicate CalledBefore(calls: seq<ToolCall>, l: nat, id: string) {
    exists k :: 0 <= k < l && k < |calls| && calls[k].step.id == id
  }

  /** The plan passed to call `l` has completed exactly what was completed at the start and what was called
      earlier, other than the step of the call itself. */
  ghost predicate SeesEarlierCalls(before: Plan, calls: seq<ToolCall>, l: nat)
    requires l < |calls|
  {
    forall id :: IsCompleted(calls[l].plan.steps, id) <==>
                   IsCompleted(before.steps, id) || (id != calls[l].step.id && CalledBefore(calls, l, id))
  }

  ghost predicate CompletedMatchesCalls(before: Plan, run: Run) {
    forall id :: IsCompleted(run.plan.steps, id) <==>
        IsCompleted(before.steps, id) || CalledBefore(run.calls, |run.calls|, id)
  }

  lemma PendingIsNotCompleted(plan: Plan, i: nat)
    requires UniqueIds(plan) && i < |plan.steps| && plan.steps[i].status != Completed
    ensures !IsCompleted(plan.steps, plan.steps[i].id)
  {
  }

  lemma CompletingAStep(plan: Plan, i: nat, after: seq<Step>)
    requires UniqueIds(plan) && i < |plan.steps| && plan.steps[i].status != Completed
    requires |after| == |plan.steps| && after[i].status == Completed && after[i].id == plan.steps[i].id
    requires forall j | 0 <= j < |after| && j != i :: after[j] == plan.steps[j]
    ensures forall id :: IsCompleted(after, id) <==> IsCompleted(plan.steps, id) || id == plan.steps[i].id
  {
    forall id ensures IsCompleted(after, id) <==> IsCompleted(plan.steps, id) || id == plan.steps[i].id {
      assert after[i] in after;
      if IsCompleted(plan.steps, id) {
        var s :| s in plan.steps && s.id == id && s.status == Completed;
        var j :| 0 <= j < |plan.steps| && plan.steps[j] == s;
        assert after[j] in after;
      }
      if IsCompleted(after, id) {
        var s :| s in after && s.id == id && s.status == Completed;
        var j :| 0 <= j < |after| && after[j] == s;
        assert j != i ==> plan.steps[j] in plan.steps;
      }
    }
  }

  lemma NewCallsSeeEarlier(before: Plan, run: Run, step: Step, calls: seq<ToolCall>, l: nat)
    requires CompletedMatchesCalls(before, run) && run.calls <= calls && |run.calls| <= l < |calls|
    requires forall k | |run.calls| <= k < |calls| :: CalledIn(calls[k], run.plan, step)
    requires !IsCompleted(run.plan.steps, step.id)
    ensures SeesEarlierCalls(before, calls, l)
  {
    hide IsCompleted;
    assert CalledIn(calls[l], run.plan, step);
    assert forall k | |run.calls| <= k < |calls| :: CalledIn(calls[k], run.plan, step) && calls[k].step.id == step.id;
    forall id
      ensures id != step.id && CalledBefore(calls, l, id) <==> id != step.id && CalledBefore(run.calls, |run.calls|, id)
    {
      if id != step.id && CalledBefore(calls, l, id) {
        var k :| 0 <= k < l && k < |calls| && calls[k].step.id == id;
        assert run.calls[k] == calls[k];
      }
      if CalledBefore(run.calls, |run.calls|, id) {
        var k :| 0 <= k < |run.calls| && run.calls[k].step.id == id;
        assert calls[k] == run.calls[k];
      }
    }
  }

  lemma CallsMatchAfter(before: Plan, run: Run, step: Step, after: Run)
    requires CompletedMatchesCalls(before, run) && run.calls < after.calls
    requires forall k | |run.calls| <= k < |after.calls| :: CalledIn(after.calls[k], run.plan, step)
    requires forall id :: IsCompleted(after.plan.steps, id) <==> IsCompleted(run.plan.steps, id) || id == step.id
    ensures CompletedMatchesCalls(before, after)
  {
    hide IsCompleted;
    forall id
      ensures CalledBefore(after.calls, |after.calls|, id) <==>
          CalledBefore(run.calls, |run.calls|, id) || id == step.id
    {
      assert CalledIn(after.calls[|run.calls|], run.plan, step);
      if CalledBefore(after.calls, |after.calls|, id) {
        var k :| 0 <= k < |after.calls| && after.calls[k].step.id == id;
        if k >= |run.calls| {
          assert CalledIn(after.calls[k], run.plan, step);
        } else {
          assert run.calls[k] == after.calls[k];
        }
      }
      if CalledBefore(run.calls, |run.calls|, id) {
        var k :| 0 <= k < |run.calls| && run.calls[k].step.id == id;
        assert after.calls[k] == run.calls[k];
      }
    }
  }

  lemma {:induction false} LoopDispatches(before: Plan, env: Env, run: Run, turn: nat)
    requires UniqueIds(run.plan) && NoneRunning(run.plan) && CompletedMatchesCalls(before, run)
    ensures run.calls <= Loop(env, run, turn).calls
    ensures forall l | |run.calls| <= l < |Loop(env, run, turn).calls| ::
        SeesEarlierCalls(before, Loop(env, run, turn).calls, l)
    decreases PendingCount(run.plan.steps)
  {
    hide Attempts, NextPendingStep, PendingCount, GoodCall, Dispatch, Record, CallBound, CompletedMatchesCalls,
        SeesEarlierCalls, CalledIn, IsCompleted;
    if !env.cancelled(turn) && !env.late(turn) && NextPendingStep(run.plan).Some? {
      var step := NextPendingStep(run.plan).value;
      var (execution, dispatched) := Dispatch(env, run, turn, step);
      var after := Record(dispatched, step, execution);
      var i := TurnEffect(env, run, turn, step);
      TurnUsesAPendingStep(env, run, turn, step);
      PendingIsNotCompleted(run.plan, i);
      var final := Loop(env, run, turn);
      if execution.Success? {
        CompletingAStep(run.plan, i, after.plan.steps);
        CallsMatchAfter(before, run, step, after);
        LoopDispatches(before, env, after, turn + 1);
      }
      forall l | |run.calls| <= l < |final.calls| ensures SeesEarlierCalls(before, final.calls, l) {
        if l < |after.calls| {
          NewCallsSeeEarlier(before, run, step, after.calls, l);
          EarlierCallsOfPrefix(before, after.calls, final.calls, l);
        }
      }
    }
  }

  lemma EarlierCallsOfPrefix(before: Plan, calls: seq<ToolCall>, more: seq<ToolCall>, l: nat)
    requires calls <= more && l < |calls| && SeesEarlierCalls(before, calls, l)
    ensures SeesEarlierCalls(before, more, l)
  {
    hide IsCompleted;
    forall id ensures CalledBefore(calls, l, id) <==> CalledBefore(more, l, id) {
      if CalledBefore(more, l, id) {
        var k :| 0 <= k < l && more[k].step.id == id;
        assert calls[k] == more[k];
      }
      if CalledBefore(calls, l, id) {
        var k :| 0 <= k < l && calls[k].step.id == id;
        assert calls[k] == more[k];
      }
    }
  }

  /** The dispatch sequence is the greedy linear extension of the dependencies: every call is for the step that is
      least by (order, position) among those whose dependencies are completed, and what counts as completed is
      exactly what was so initially or was called earlier. */
  lemma {:induction false} DispatchSequence(plan: Plan, env: Env)
    requires NoneRunning(plan)
    ensures var calls := Execute(plan, env).1;
            forall l | 0 <= l < |calls| :: GoodCall(calls[l]) && SeesEarlierCalls(plan, calls, l)
  {
    hide Attempts, NextPendingStep, PendingCount, GoodCall, Loop, CallBound, CountCompleted, SeesEarlierCalls;
    ExecutorAccounting(plan, env);
    if ValidatePlan(plan).None? {
      assert forall id :: !CalledBefore(Start(plan).calls, 0, id);
      LoopDispatches(plan, env, Start(plan), 0);
    }
  }

  /** Every tool call sees a plan in which its step is the only one running, has all its dependencies completed,
      and precedes every other ready step; there are at most retryLimit + 1 calls per pending step; settled steps,
      ids and dependencies never change; results are exactly those of the newly completed steps; no step is left
      running; and success is reported only for a finished plan without errors. */
  lemma {:induction false} ExecutorAccounting(plan: Plan, env: Env)
    requires NoneRunning(plan)
    ensures var (r, calls) := Execute(plan, env);
            && Accounts(plan, Run(r.plan, r.results, r.errors, calls)) && NoneRunning(r.plan)
            && (forall call | call in calls :: GoodCall(call))
            && |calls| <= CallBound(env) * PendingCount(plan.steps)
            && |r.errors| <= 1
            && (r.success <==> r.plan.status == PlanCompleted)
            && (r.success ==> r.errors == [] && AllSettled(r.plan))
            && (r.plan.status == PlanFailed && r.errors == [] ==> NextPendingStep(r.plan).None? && !AllSettled(r.plan))
            && (calls != [] ==> UniqueIds(plan) && KnownDependencies(plan))
  {
    hide Attempts, NextPendingStep, PendingCount, GoodCall, Loop, CallBound, CountCompleted;
    NonNegative(CallBound(env), PendingCount(plan.steps));
    if ValidatePlan(plan).None? {
      var start := Start(plan);
      assert forall i: nat :: !NewlyCompleted(plan, start.plan, i);
      LoopAccounts(plan, env, start, 0);
    } else {
      assert forall i: nat :: !NewlyCompleted(plan, plan.(status := PlanFailed), i);
    }
  }

  // ----- dependencies on steps that are neither pending nor completed

  /** Step `i` depends on step `j`, which is settled otherwise than by completion. */
  ghost predicate IsBlocked(steps: seq<Step>, i: nat, j: nat)
    requires i < |steps| && j < |steps|
  {
    steps[j].id in steps[i].dependsOn && steps[j].status != Pending && steps[j].status != Completed
  }

  lemma BlockedIsNotReady(plan: Plan, i: nat, j: nat)
    requires UniqueIds(plan) && i < |plan.steps| && j < |plan.steps| && IsBlocked(plan.steps, i, j)
    ensures !DependenciesMet(plan.steps, plan.steps[i])
  {
    PendingIsNotCompleted(plan, j);
  }

  /** The dispatched step is not blocked, and a turn blocks no less. */
  lemma TurnKeepsBlocked(env: Env, run: Run, turn: nat, step: Step, i: nat, j: nat)
    requires UniqueIds(run.plan) && NoneRunning(run.plan) && NextPendingStep(run.plan) == Some(step)
    requires i < |run.plan.steps| && j < |run.plan.steps| && IsBlocked(run.plan.steps, i, j)
    ensures step.id != run.plan.steps[i].id
    ensures var (execution, dispatched) := Dispatch(env, run, turn, step);
            var after := Record(dispatched, step, execution);
            && |after.plan.steps| == |run.plan.steps| && UniqueIds(after.plan)
            && IsBlocked(after.plan.steps, i, j) && after.plan.steps[i].id == run.plan.steps[i].id
            && (execution.Success? ==> NoneRunning(after.plan))
  {
    hide Attempts, NextPendingStep, Dispatch, Record, Ready;
    BlockedIsNotReady(run.plan, i, j);
    var x := TurnChanges(env, run, turn, step);
  }

  lemma {:induction false} LoopNeverCalls(env: Env, run: Run, turn: nat, i: nat, j: nat)
    requires UniqueIds(run.plan) && NoneRunning(run.plan)
    requires i < |run.plan.steps| && j < |run.plan.steps| && IsBlocked(run.plan.steps, i, j)
    ensures run.calls <= Loop(env, run, turn).calls
    ensures forall l | |run.calls| <= l < |Loop(env, run, turn).calls| ::
              Loop(env, run, turn).calls[l].step.id != run.plan.steps[i].id
    decreases PendingCount(run.plan.steps)
  {
    hide Attempts, NextPendingStep, PendingCount, GoodCall, Dispatch, Record, CallBound, IsCompleted, UniqueIds,
        NoneRunning, IsBlocked;
    if !env.cancelled(turn) && !env.late(turn) && NextPendingStep(run.plan).Some? {
      var step := NextPendingStep(run.plan).value;
      var (execution, dispatched) := Dispatch(env, run, turn, step);
      var after := Record(dispatched, step, execution);
      var x := TurnEffect(env, run, turn, step);
      TurnUsesAPendingStep(env, run, turn, step);
      TurnKeepsBlocked(env, run, turn, step, i, j);
      if execution.Success? {
        LoopNeverCalls(env, after, turn + 1, i, j);
      }
      var final := Loop(env, run, turn);
      forall l | |run.calls| <= l < |final.calls| ensures final.calls[l].step.id != run.plan.steps[i].id {
        if l < |after.calls| {
          assert final.calls[l] == after.calls[l];
        }
      }
    }
  }

  /** A dependency on a skipped or failed step is never met: no tool is ever called for a step with one. */
  lemma {:induction false} BlockedStepsAreNeverCalled(plan: Plan, env: Env, i: nat, j: nat)
    requires NoneRunning(plan) && i < |plan.steps| && j < |plan.steps| && IsBlocked(plan.steps, i, j)
    ensures forall call | call in Execute(plan, env).1 :: call.step.id != plan.steps[i].id
  {
    hide Attempts, NextPendingStep, PendingCount, Loop, CountCompleted;
    if ValidatePlan(plan).None? {
      LoopNeverCalls(env, Start(plan), 0, i, j);
    }
  }
}
