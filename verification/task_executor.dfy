/** The sequential task-plan executor: pick the next ready step, run its tool with retries, record the outcome.
    Tools, clock and cancellation are an environment that answers every question the executor asks. */
module TaskExecutor {
  import opened Options
  import opened Sorting

  datatype PlanStatus = PlanPending | Executing | PlanCompleted | PlanFailed | PlanCancelled
  datatype StepStatus = Pending | Running | Completed | Failed | Skipped

  /** A tool result; JavaScript's `undefined` is a possible one. */
  datatype Value = Undefined | Json(text: string)

  datatype Step = Step(id: string, order: real, tool: string, dependsOn: seq<string>, status: StepStatus,
                       result: Option<Value>, error: Option<string>)
  datatype Plan = Plan(status: PlanStatus, steps: seq<Step>)

  datatype ErrorEntry =
    | DuplicateStepIds
    | UnknownDependency(step: string, dependency: string)
    | TimedOut(message: string)
    | StepError(order: real, tool: string, message: string)

  /** What one call of the tool under the execution guards ends in. A timeout or a cancellation is a rejection
      with the guard's own message. */
  datatype Outcome = Returned(value: Value) | Threw(message: string)

  /** `cancelled` and `late` answer at the head of each turn, `attempt` for each call in a turn. */
  datatype Env = Env(cancelled: nat -> bool, late: nat -> bool, attempt: (nat, nat) -> Outcome,
                     timeoutSeconds: string, retryLimit: int)

  const CANCELLED_ERROR := "Execution cancelled"
  const TIMEOUT_PREFIX := "Execution timed out"

  function FormatTimeoutError(seconds: string): string { TIMEOUT_PREFIX + " after " + seconds + " seconds" }
  predicate IsTimeoutError(error: string) { TIMEOUT_PREFIX <= error }
  predicate IsCancellationError(error: string) { error == CANCELLED_ERROR }

  // ----- plans

  function UpdateStep(step: Step, status: StepStatus, result: Value, error: Option<string>): Step {
    step.(status := status,
          result := if result.Undefined? then step.result else Some(result),
          error := if error.None? then step.error else error)
  }

  function UpdateStepStatus(plan: Plan, id: string, status: StepStatus, result: Value, error: Option<string>): (r: Plan)
    ensures r.status == plan.status && |r.steps| == |plan.steps|
    ensures forall i | 0 <= i < |r.steps| ::
              r.steps[i] == if plan.steps[i].id == id then UpdateStep(plan.steps[i], status, result, error)
                  else plan.steps[i]
  {
    plan.(steps := seq(|plan.steps|, i requires 0 <= i < |plan.steps| =>
      if plan.steps[i].id == id then UpdateStep(plan.steps[i], status, result, error) else plan.steps[i]))
  }

  predicate IsCompleted(steps: seq<Step>, id: string) { exists s :: s in steps && s.id == id && s.status == Completed }

  predicate DependenciesMet(steps: seq<Step>, step: Step) { forall d | d in step.dependsOn :: IsCompleted(steps, d) }

  function Ready(steps: seq<Step>): Step -> bool {
    (step: Step) => step.status == Pending && DependenciesMet(steps, step)
  }

  function OrderKey(): Step -> real { (step: Step) => step.order }

  function NextPendingStep(plan: Plan): Option<Step> { Find(Ready(plan.steps), StableSort(OrderKey(), plan.steps)) }

  predicate UniqueIds(plan: Plan) { forall i, j | 0 <= i < j < |plan.steps| :: plan.steps[i].id != plan.steps[j].id }

  predicate KnownId(plan: Plan, id: string) { exists s :: s in plan.steps && s.id == id }

  predicate KnownDependencies(plan: Plan) { forall s, d | s in plan.steps && d in s.dependsOn :: KnownId(plan, d) }

  /** The first dependency of the first step that no step has, in plan order. */
  function FirstUnknown(plan: Plan, steps: seq<Step>): (r: Option<ErrorEntry>)
    ensures r.None? <==> forall s, d | s in steps && d in s.dependsOn :: KnownId(plan, d)
    ensures r.Some? ==> r.value.UnknownDependency?
  {
    if steps == [] then None
    else
      match Find((d: string) => !KnownId(plan, d), steps[0].dependsOn)
      case Some(d) => Some(UnknownDependency(steps[0].id, d))
      case None => FirstUnknown(plan, steps[1..])
  }

  function ValidatePlan(plan: Plan): (r: Option<ErrorEntry>)
    ensures r.None? <==> UniqueIds(plan) && KnownDependencies(plan)
  {
    if !UniqueIds(plan) then Some(DuplicateStepIds) else FirstUnknown(plan, plan.steps)
  }

  // ----- one step with retries

  datatype Execution = Success(result: Value) | Failure(error: string) | CancelledDuring(error: string)

  /** The outcome of the attempts from `attempt` on, and how many of them there are. */
  function Attempts(env: Env, turn: nat, attempt: nat): (Execution, nat)
    decreases env.retryLimit - attempt
  {
    if attempt > env.retryLimit then (Failure("Unknown error"), 0)
    else
      match env.attempt(turn, attempt)
      case Returned(value) => (Success(value), 1)
      case Threw(message) =>
        if IsCancellationError(message) then (CancelledDuring(message), 1)
        else if attempt >= env.retryLimit || IsTimeoutError(message) then (Failure(message), 1)
        else var (execution, calls) := Attempts(env, turn, attempt + 1); (execution, calls + 1)
  }

  // ----- what the attempts amount to

  /** Attempt `k` is the last one whatever the limit: the tool returned, or the run was cancelled or timed out. */
  ghost predicate EndsStep(env: Env, turn: nat, k: nat) {
    match env.attempt(turn, k)
    case Returned(_) => true
    case Threw(message) =>
      message == "Execution cancelled" || (|message| >= 19 && message[..19] == "Execution timed out")
  }

  ghost predicate EndsFirstAt(env: Env, turn: nat, k: nat) {
    EndsStep(env, turn, k) && forall j: nat | j < k :: !EndsStep(env, turn, j)
  }

  /** The execution is what this last attempt says. */
  ghost predicate IsOutcome(outcome: Outcome, execution: Execution) {
    match outcome
    case Returned(value) => execution == Success(value)
    case Threw(message) =>
      execution == if message == "Execution cancelled" then CancelledDuring(message) else Failure(message)
  }

  /** The first attempt that ends the step is the last one; without one there are a first attempt and `retryLimit`
      retries, and the last one counts. A negative limit allows no attempt. */
  ghost predicate EndsAs(env: Env, turn: nat, execution: Execution, calls: int) {
    && (forall k: nat | k <= env.retryLimit && EndsFirstAt(env, turn, k) ::
          calls == k + 1 && IsOutcome(env.attempt(turn, k), execution))
    && (env.retryLimit >= 0 && (forall k: nat | k <= env.retryLimit :: !EndsStep(env, turn, k)) ==>
          calls == env.retryLimit + 1 && IsOutcome(env.attempt(turn, env.retryLimit), execution))
    && (env.retryLimit < 0 ==> calls == 0 && execution == Failure("Unknown error"))
  }

  lemma {:induction false} AttemptsFrom(env: Env, turn: nat, attempt: nat)
    requires attempt <= env.retryLimit && forall j: nat | j < attempt :: !EndsStep(env, turn, j)
    ensures EndsAs(env, turn, Attempts(env, turn, attempt).0, attempt + Attempts(env, turn, attempt).1)
    decreases env.retryLimit - attempt
  {
    if !EndsStep(env, turn, attempt) && attempt < env.retryLimit {
      AttemptsFrom(env, turn, attempt + 1);
    }
  }

  lemma AttemptsEnd(env: Env, turn: nat)
    ensures EndsAs(env, turn, Attempts(env, turn, 0).0, Attempts(env, turn, 0).1)
  {
    if env.retryLimit >= 0 {
      AttemptsFrom(env, turn, 0);
    }
  }

  /** What the tool is called with. */
  datatype ToolCall = ToolCall(step: Step, plan: Plan)

  method ExecuteStepWithRetry(env: Env, turn: nat, step: Step, plan: Plan) returns (execution: Execution,
        calls: seq<ToolCall>)
    ensures execution == Attempts(env, turn, 0).0
    ensures calls == seq(Attempts(env, turn, 0).1, _ => ToolCall(step, plan))
    ensures EndsAs(env, turn, execution, |calls|)
  {
    hide EndsAs;
    AttemptsEnd(env, turn);
    calls := [];
    var attempt := 0;
    while attempt <= env.retryLimit
      invariant 0 <= attempt && |calls| == attempt && (attempt > 0 ==> attempt <= env.retryLimit)
      invariant forall i | 0 <= i < |calls| :: calls[i] == ToolCall(step, plan)
      invariant Attempts(env, turn, 0) == (Attempts(env, turn, attempt).0, attempt + Attempts(env, turn, attempt).1)
      decreases env.retryLimit - attempt
    {
      calls := calls + [ToolCall(step, plan)];
      match env.attempt(turn, attempt)
      case Returned(value) =>
        return Success(value), calls;
      case Threw(message) =>
        if IsCancellationError(message) {
          return CancelledDuring(message), calls;
        }
        if attempt >= env.retryLimit || IsTimeoutError(message) {
          return Failure(message), calls;
        }
        attempt := attempt + 1;
    }
    execution := Failure("Unknown error");
  }

  // ----- the executor

  datatype Run = Run(plan: Plan, results: map<string, Value>, errors: seq<ErrorEntry>, calls: seq<ToolCall>)

  datatype ExecutionResult = ExecutionResult(success: bool, completedSteps: nat, totalSteps: nat,
                                             results: map<string, Value>, errors: seq<ErrorEntry>, plan: Plan)

  predicate Settled(step: Step) { step.status == Completed || step.status == Skipped }

  predicate AllSettled(plan: Plan) { forall s | s in plan.steps :: Settled(s) }

  /** The step runs: its tool is called with the plan in which it is marked running. */
  function Dispatch(env: Env, run: Run, turn: nat, step: Step): (Execution, Run) {
    var running := UpdateStepStatus(run.plan, step.id, Running, Undefined, None);
    var runningStep := match Find((s: Step) => s.id == step.id, running.steps)
                       case Some(s) => s
                       case None => step.(status := Running);
    var (execution, calls) := Attempts(env, turn, 0);
    (execution, run.(plan := running, calls := run.calls + seq(calls, _ => ToolCall(runningStep, running))))
  }

  /** How a turn ends that ran `step`. */
  function Record(run: Run, step: Step, execution: Execution): Run {
    match execution
    case Success(value) =>
      run.(results := run.results[step.id := value],
           plan := UpdateStepStatus(run.plan, step.id, Completed, value, None))
    case CancelledDuring(error) =>
      run.(plan := UpdateStepStatus(run.plan, step.id, Failed, Undefined,
          Some(CANCELLED_ERROR)).(status := PlanCancelled))
    case Failure(error) =>
      run.(errors := run.errors
          + [if IsTimeoutError(error) then TimedOut(error) else StepError(step.order, step.tool, error)],
           plan := UpdateStepStatus(run.plan, step.id, Failed, Undefined, Some(error)).(status := PlanFailed))
  }

  function PendingCount(steps: seq<Step>): nat {
    if steps == [] then 0 else (if steps[0].status == Pending then 1 else 0) + PendingCount(steps[1..])
  }

  function Loop(env: Env, run: Run, turn: nat): Run
    decreases PendingCount(run.plan.steps)
  {
    if env.cancelled(turn) then run.(plan := run.plan.(status := PlanCancelled))
    else if env.late(turn) then
      run.(errors := run.errors + [TimedOut(FormatTimeoutError(env.timeoutSeconds))],
          plan := run.plan.(status := PlanFailed))
    else
      match NextPendingStep(run.plan)
      case None => run.(plan := run.plan.(status := if AllSettled(run.plan) then PlanCompleted else PlanFailed))
      case Some(step) =>
        var (execution, dispatched) := Dispatch(env, run, turn, step);
        TurnUsesAPendingStep(env, run, turn, step);
        if execution.Success? then Loop(env, Record(dispatched, step, execution), turn + 1)
        else Record(dispatched, step, execution)
  }

  function Start(plan: Plan): Run { Run(plan.(status := Executing), map[], [], []) }

  function CountCompleted(steps: seq<Step>): nat {
    if steps == [] then 0 else (if steps[0].status == Completed then 1 else 0) + CountCompleted(steps[1..])
  }

  function Execute(plan: Plan, env: Env): (ExecutionResult, seq<ToolCall>) {
    match ValidatePlan(plan)
    case Some(error) => (ExecutionResult(false, 0, |plan.steps|, map[], [error], plan.(status := PlanFailed)), [])
    case None =>
      var final := Loop(env, Start(plan), 0);
      (ExecutionResult(final.plan.status == PlanCompleted, CountCompleted(final.plan.steps), |final.plan.steps|,
                       final.results, final.errors, final.plan), final.calls)
  }

  // ----- progress

  lemma {:induction false} PendingCountDrops(before: seq<Step>, after: seq<Step>)
    requires |before| == |after|
    requires forall i | 0 <= i < |before| && after[i].status == Pending :: before[i].status == Pending
    ensures PendingCount(after) <= PendingCount(before)
    ensures (exists i :: 0 <= i < |before| && before[i].status == Pending && after[i].status != Pending) ==>
              PendingCount(after) < PendingCount(before)
  {
    if before != [] {
      assert forall i | 0 <= i < |before| - 1 :: before[1..][i] == before[i + 1] && after[1..][i] == after[i + 1];
      PendingCountDrops(before[1..], after[1..]);
      if i :| 0 <= i < |before| && before[i].status == Pending && after[i].status != Pending {
        if i > 0 {
          assert before[1..][i - 1].status == Pending && after[1..][i - 1].status != Pending;
        }
      }
    }
  }

  lemma NextIsReady(plan: Plan, step: Step) returns (i: nat)
    requires NextPendingStep(plan) == Some(step)
    ensures LeastAt(OrderKey(), Ready(plan.steps), plan.steps, i) && plan.steps[i] == step
    ensures step.status == Pending && DependenciesMet(plan.steps, step)
  {
    i := FindOfSorted(OrderKey(), Ready(plan.steps), plan.steps);
  }

  /** Running a step leaves fewer pending steps. */
  lemma TurnUsesAPendingStep(env: Env, run: Run, turn: nat, step: Step)
    requires NextPendingStep(run.plan) == Some(step)
    ensures var (execution, dispatched) := Dispatch(env, run, turn, step);
            PendingCount(Record(dispatched, step, execution).plan.steps) < PendingCount(run.plan.steps)
  {
    hide Attempts, NextPendingStep, Ready, Find;
    var i := NextIsReady(run.plan, step);
    var (execution, dispatched) := Dispatch(env, run, turn, step);
    var after := Record(dispatched, step, execution).plan.steps;
    assert after[i].status != Pending;
    PendingCountDrops(run.plan.steps, after);
  }

  /** The executor's own loop, reassigning the current plan, the results and the errors. */
  method ExecuteTaskPlan(plan: Plan, env: Env) returns (r: ExecutionResult, calls: seq<ToolCall>)
    ensures (r, calls) == Execute(plan, env)
  {
    hide Attempts, PendingCount, CountCompleted, NextPendingStep;
    var invalid := ValidatePlan(plan);
    if invalid.Some? {
      return ExecutionResult(false, 0, |plan.steps|, map[], [invalid.value], plan.(status := PlanFailed)), [];
    }
    var currentPlan := plan.(status := Executing);
    var results: map<string, Value> := map[];
    var errors: seq<ErrorEntry> := [];
    var turn := 0;
    calls := [];
    ghost var final := Loop(env, Start(plan), 0);
    while true
      invariant Loop(env, Run(currentPlan, results, errors, calls), turn) == final
      decreases PendingCount(currentPlan.steps)
    {
      ghost var run := Run(currentPlan, results, errors, calls);
      if env.cancelled(turn) {
        currentPlan := currentPlan.(status := PlanCancelled);
        break;
      }
      if env.late(turn) {
        errors := errors + [TimedOut(FormatTimeoutError(env.timeoutSeconds))];
        currentPlan := currentPlan.(status := PlanFailed);
        break;
      }
      var nextStep := NextPendingStep(currentPlan);
      if nextStep.None? {
        currentPlan := currentPlan.(status := if AllSettled(currentPlan) then PlanCompleted else PlanFailed);
        break;
      }
      var step := nextStep.value;
      TurnUsesAPendingStep(env, run, turn, step);
      currentPlan := UpdateStepStatus(currentPlan, step.id, Running, Undefined, None);
      var found := Find((s: Step) => s.id == step.id, currentPlan.steps);
      var runningStep := if found.Some? then found.value else step.(status := Running);
      var execution, made := ExecuteStepWithRetry(env, turn, runningStep, currentPlan);
      calls := calls + made;
      ghost var dispatched := Run(currentPlan, results, errors, calls);
      assert Dispatch(env, run, turn, step) == (execution, dispatched);
      if execution.Success? {
        results := results[step.id := execution.result];
        currentPlan := UpdateStepStatus(currentPlan, step.id, Completed, execution.result, None);
      } else if execution.CancelledDuring? {
        currentPlan := UpdateStepStatus(currentPlan, step.id, Failed, Undefined, Some(CANCELLED_ERROR));
        currentPlan := currentPlan.(status := PlanCancelled);
        assert Run(currentPlan, results, errors, calls) == final;
        break;
      } else {
        errors := errors + [if IsTimeoutError(execution.error) then TimedOut(execution.error)
                            else StepError(step.order, step.tool, execution.error)];
        currentPlan := UpdateStepStatus(currentPlan, step.id, Failed, Undefined, Some(execution.error));
        currentPlan := currentPlan.(status := PlanFailed);
        assert Run(currentPlan, results, errors, calls) == final;
        break;
      }
      assert Run(currentPlan, results, errors, calls) == Record(dispatched, step, execution);
      turn := turn + 1;
    }
    assert Run(currentPlan, results, errors, calls) == final;
    r := ExecutionResult(currentPlan.status == PlanCompleted, CountCompleted(currentPlan.steps), |currentPlan.steps|,
                         results, errors, currentPlan);
  }
}
