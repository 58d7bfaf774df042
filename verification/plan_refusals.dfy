/** Which plans the executor refuses and with what error, and how many steps and calls its answer counts. */
module PlanRefusals {
  import opened Options
  import opened Sorting
  import opened TaskExecutor
  import opened ExecutorLaws

  /** Two steps have the same id. */
  ghost predicate HasDuplicate(plan: Plan) {
    exists i, j :: 0 <= i < j < |plan.steps| && plan.steps[i].id == plan.steps[j].id
  }

  /** Dependency `n` of step `i` is the first, in plan order, that is no step's id. */
  ghost predicate FirstUnknownAt(plan: Plan, i: nat, n: nat)
    requires i < |plan.steps| && n < |plan.steps[i].dependsOn|
  {
    && IsUnknown(plan, plan.steps[i].dependsOn[n])
    && (forall m | 0 <= m < n :: !IsUnknown(plan, plan.steps[i].dependsOn[m]))
    && (forall j, m | 0 <= j < i && 0 <= m < |plan.steps[j].dependsOn| :: !IsUnknown(plan, plan.steps[j].dependsOn[m]))
  }

  ghost predicate IsUnknown(plan: Plan, id: string) { forall i | 0 <= i < |plan.steps| :: plan.steps[i].id != id }

  lemma UnknownIs(plan: Plan, id: string)
    ensures KnownId(plan, id) <==> !IsUnknown(plan, id)
  {
    if !IsUnknown(plan, id) {
      var i :| 0 <= i < |plan.steps| && plan.steps[i].id == id;
      assert plan.steps[i] in plan.steps;
    }
  }

  lemma {:induction false} FirstUnknownIs(plan: Plan, i: nat)
    requires i <= |plan.steps|
    requires forall j, m | 0 <= j < i && 0 <= m < |plan.steps[j].dependsOn| ::
               !IsUnknown(plan, plan.steps[j].dependsOn[m])
    ensures var r := FirstUnknown(plan, plan.steps[i..]);
            r.Some? ==> exists k: nat, n: nat ::
              k < |plan.steps| && n < |plan.steps[k].dependsOn| && FirstUnknownAt(plan, k, n)
              && r.value == UnknownDependency(plan.steps[k].id, plan.steps[k].dependsOn[n])
    ensures FirstUnknown(plan, plan.steps[i..]).None? ==>
              forall k, n | 0 <= k < |plan.steps| && 0 <= n < |plan.steps[k].dependsOn| ::
                !IsUnknown(plan, plan.steps[k].dependsOn[n])
    decreases |plan.steps| - i
  {
    if i < |plan.steps| {
      var rest, step := plan.steps[i..], plan.steps[i];
      assert rest[0] == step && rest[1..] == plan.steps[i + 1..];
      forall id ensures KnownId(plan, id) <==> !IsUnknown(plan, id) {
        UnknownIs(plan, id);
      }
      hide IsUnknown, KnownId;
      var n := FirstMissing(plan, step.dependsOn);
      if n < |step.dependsOn| {
        assert FirstUnknownAt(plan, i, n);
      } else {
        FirstUnknownIs(plan, i + 1);
      }
    }
  }

  lemma {:induction false} FirstMissing(plan: Plan, ids: seq<string>) returns (n: nat)
    ensures n <= |ids| && forall m | 0 <= m < n :: KnownId(plan, ids[m])
    ensures Find((d: string) => !KnownId(plan, d), ids) == if n == |ids| then None else Some(ids[n])
    ensures n < |ids| ==> !KnownId(plan, ids[n])
  {
    hide KnownId;
    n := 0;
    if ids != [] && KnownId(plan, ids[0]) {
      n := FirstMissing(plan, ids[1..]);
      n := n + 1;
      assert forall m | 1 <= m < n :: ids[m] == ids[1..][m - 1];
    }
  }

  /** A plan is refused exactly when two steps share an id or a dependency is no step's id; then nothing is called and
      the only error names the duplicate, or else the first such dependency in plan order. */
  lemma RefusedExactlyWhen(plan: Plan, env: Env)
    ensures ValidatePlan(plan).Some? <==>
              HasDuplicate(plan) || exists i: nat, n: nat ::
                i < |plan.steps| && n < |plan.steps[i].dependsOn| && FirstUnknownAt(plan, i, n)
    ensures ValidatePlan(plan).Some? ==>
              && var error := ValidatePlan(plan).value;
                 && (error == DuplicateStepIds <==> HasDuplicate(plan))
                 && (error == DuplicateStepIds || exists i: nat, n: nat ::
                      i < |plan.steps| && n < |plan.steps[i].dependsOn| && FirstUnknownAt(plan, i, n)
                      && error == UnknownDependency(plan.steps[i].id, plan.steps[i].dependsOn[n]))
                 && Execute(plan, env).1 == []
                 && var r := Execute(plan, env).0;
                    && !r.success && r.completedSteps == 0 && r.totalSteps == |plan.steps| && r.results == map[]
                    && r.errors == [error] && r.plan.steps == plan.steps && r.plan.status == PlanFailed
  {
    hide FirstUnknown, Loop, CountCompleted, IsUnknown, KnownDependencies;
    assert plan.steps[0..] == plan.steps;
    FirstUnknownIs(plan, 0);
    if i: nat, n: nat :| i < |plan.steps| && n < |plan.steps[i].dependsOn| && FirstUnknownAt(plan, i, n) {
      assert IsUnknown(plan, plan.steps[i].dependsOn[n]);
    }
  }

  // ----- counts

  /** The positions from `k` on of the steps with this status. */
  ghost function WithStatus(steps: seq<Step>, status: StepStatus, k: nat): set<int> {
    set i | k <= i < |steps| && steps[i].status == status
  }

  lemma {:induction false} CountsFrom(steps: seq<Step>, k: nat)
    requires k <= |steps|
    ensures CountCompleted(steps[k..]) == |WithStatus(steps, Completed, k)|
    ensures PendingCount(steps[k..]) == |WithStatus(steps, Pending, k)|
    decreases |steps| - k
  {
    if k < |steps| {
      CountsFrom(steps, k + 1);
      assert steps[k..][1..] == steps[k + 1..] && steps[k..][0] == steps[k];
      OneMore(steps, Completed, k);
      OneMore(steps, Pending, k);
    }
  }

  lemma OneMore(steps: seq<Step>, status: StepStatus, k: nat)
    requires k < |steps|
    ensures |WithStatus(steps, status, k)| ==
              (if steps[k].status == status then 1 else 0) + |WithStatus(steps, status, k + 1)|
  {
    assert WithStatus(steps, status, k) ==
        (if steps[k].status == status then {k as int} else {}) + WithStatus(steps, status, k + 1);
  }

  /** The answer counts all steps and, of an accepted plan, those completed in the end; and there are at most
      retryLimit + 1 calls for each step that was pending. */
  lemma ExecutorCounts(plan: Plan, env: Env)
    requires NoneRunning(plan)
    ensures var (r, calls) := Execute(plan, env);
            && r.totalSteps == |plan.steps|
            && (ValidatePlan(plan).None? ==> r.completedSteps == |WithStatus(r.plan.steps, Completed, 0)|)
            && |calls| <= (if env.retryLimit < 0 then 0 else env.retryLimit + 1) * |WithStatus(plan.steps, Pending, 0)|
  {
    hide Loop, CountCompleted, PendingCount, WithStatus, Accounts, GoodCall;
    var r := Execute(plan, env).0;
    ExecutorAccounting(plan, env);
    CountsFrom(plan.steps, 0);
    CountsFrom(r.plan.steps, 0);
    assert plan.steps[0..] == plan.steps && r.plan.steps[0..] == r.plan.steps;
    SameCount(plan, env);
  }

  lemma SameCount(plan: Plan, env: Env)
    requires NoneRunning(plan)
    ensures |Execute(plan, env).0.plan.steps| == |plan.steps|
  {
    ExecutorAccounting(plan, env);
  }
}
