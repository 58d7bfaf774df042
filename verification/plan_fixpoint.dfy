/** What a run completes when nothing cuts it short: the least set of steps closed under the dependencies, and
    for a fresh plan everything that is neither on nor behind a dependency cycle. */
module PlanFixpoint {
  import opened Sorting
  import opened TaskExecutor
  import opened ExecutorLaws

  function CompletedSet(steps: seq<Step>): set<string> { set s | s in steps && s.status == Completed :: s.id }

  /** Every pending step with all dependencies in `t` is in `t`. */
  ghost predicate Closed(steps: seq<Step>, t: set<string>) {
    forall s | s in steps && s.status == Pending && (forall d | d in s.dependsOn :: d in t) :: s.id in t
  }

  /** `t` is the least set that contains what is completed and is closed. */
  ghost predicate LeastClosed(steps: seq<Step>, t: set<string>) {
    && CompletedSet(steps) <= t && Closed(steps, t)
    && forall u: set<string> | CompletedSet(steps) <= u && Closed(steps, u) :: t <= u
  }

  /** Nothing failed, timed out or was cancelled in this run. */
  ghost predicate NotCutShort(errors: seq<ErrorEntry>, plan: Plan) { errors == [] && plan.status != PlanCancelled }

  /** Some pending steps became completed; nothing else changed. */
  ghost predicate OnlyCompletes(before: seq<Step>, after: seq<Step>) {
    && |after| == |before|
    && forall i | 0 <= i < |before| ::
         after[i] == before[i] || (before[i].status == Pending && after[i].status == Completed
             && SameIdentity(before[i], after[i]))
  }

  lemma CompletedMember(steps: seq<Step>, id: string)
    ensures id in CompletedSet(steps) <==> IsCompleted(steps, id)
  {
  }

  lemma StopsClosed(plan: Plan)
    requires NextPendingStep(plan).None?
    ensures LeastClosed(plan.steps, CompletedSet(plan.steps))
  {
    var i := FindOfSorted(OrderKey(), Ready(plan.steps), plan.steps);
    forall s | s in plan.steps && s.status == Pending
      ensures exists d :: d in s.dependsOn && d !in CompletedSet(plan.steps)
    {
      assert !Ready(plan.steps)(s);
      var d :| d in s.dependsOn && !IsCompleted(plan.steps, d);
      CompletedMember(plan.steps, d);
    }
  }

  lemma TurnKeepsLeast(steps: seq<Step>, i: nat, done: Step, t: set<string>)
    requires i < |steps| && steps[i].status == Pending && DependenciesMet(steps, steps[i])
    requires done.status == Completed && SameIdentity(steps[i], done)
    requires LeastClosed(steps[i := done], t)
    ensures LeastClosed(steps, t)
  {
    var after := steps[i := done];
    forall s | s in steps && s != steps[i] ensures s in after {
      var j :| 0 <= j < |steps| && steps[j] == s;
      assert after[j] == s;
    }
    assert after[i] in after && steps[i] in steps;
    forall s | s in after && s != done ensures s in steps {
      var j :| 0 <= j < |after| && after[j] == s;
      assert steps[j] == s;
    }
    forall d | d in steps[i].dependsOn ensures d in CompletedSet(steps) {
      CompletedMember(steps, d);
    }
    assert done.id in CompletedSet(after);
  }

  lemma {:induction false} LoopReachesFixpoint(env: Env, run: Run, turn: nat)
    requires UniqueIds(run.plan) && NotCutShort(Loop(env, run, turn).errors, Loop(env, run, turn).plan)
    ensures var final := Loop(env, run, turn).plan;
            && LeastClosed(run.plan.steps, CompletedSet(final.steps)) && OnlyCompletes(run.plan.steps, final.steps)
            && NextPendingStep(final).None?
            && final.status == (if AllSettled(final) then PlanCompleted else PlanFailed)
    decreases PendingCount(run.plan.steps)
  {
    hide Attempts, NextPendingStep, PendingCount, Dispatch, LeastClosed, CompletedSet, DependenciesMet;
    if NextPendingStep(run.plan).Some? {
      var step := NextPendingStep(run.plan).value;
      var (execution, dispatched) := Dispatch(env, run, turn, step);
      var after := Record(dispatched, step, execution);
      var i := TurnChanges(env, run, turn, step);
      TurnUsesAPendingStep(env, run, turn, step);
      LoopReachesFixpoint(env, after, turn + 1);
      TurnKeepsLeast(run.plan.steps, i, Finished(step, execution), CompletedSet(Loop(env, run, turn).plan.steps));
    } else {
      StopsClosed(run.plan);
      NextBySteps(run.plan, Loop(env, run, turn).plan);
    }
  }

  /** The completion theorem: a valid run that nothing cuts short completes exactly the least set of steps that
      contains the initially completed ones and every pending step all of whose dependencies it contains. */
  lemma {:induction false} CompletesTheLeastFixpoint(plan: Plan, env: Env)
    requires ValidatePlan(plan).None?
    ensures var r := Execute(plan, env).0;
            NotCutShort(r.errors, r.plan) ==>
              && LeastClosed(plan.steps, CompletedSet(r.plan.steps))
              && OnlyCompletes(plan.steps, r.plan.steps)
              && (r.success <==> AllSettled(r.plan))
  {
    hide Loop, LeastClosed, CountCompleted, OnlyCompletes, NotCutShort;
    if NotCutShort(Loop(env, Start(plan), 0).errors, Loop(env, Start(plan), 0).plan) {
      LoopReachesFixpoint(env, Start(plan), 0);
    }
  }

  /** Some attempt up to the limit returns, and none before it is cancelled or times out. */
  ghost predicate Succeeds(env: Env, turn: nat) {
    exists k: nat :: k <= env.retryLimit && env.attempt(turn, k).Returned?
      && forall j: nat | j < k && env.attempt(turn, j).Threw? ::
           var message := env.attempt(turn, j).message;
           message != "Execution cancelled" && !(|message| >= 19 && message[..19] == "Execution timed out")
  }

  /** No cancellation, no timeout, and every tool succeeds within its retries. */
  ghost predicate Favourable(env: Env) {
    forall turn: nat :: !env.cancelled(turn) && !env.late(turn) && Succeeds(env, turn)
  }

  lemma {:induction false} FirstReturn(env: Env, turn: nat, k: nat) returns (first: nat)
    requires env.attempt(turn, k).Returned?
    requires forall j: nat | j < k && env.attempt(turn, j).Threw? :: !EndsStep(env, turn, j)
    ensures first <= k && env.attempt(turn, first).Returned? && EndsFirstAt(env, turn, first)
  {
    first := k;
    if exists j: nat :: j < k && env.attempt(turn, j).Returned? {
      var j: nat :| j < k && env.attempt(turn, j).Returned?;
      first := FirstReturn(env, turn, j);
    }
  }

  /** The attempts of a turn succeed exactly then. */
  lemma AttemptsSucceedExactlyWhen(env: Env, turn: nat)
    ensures Attempts(env, turn, 0).0.Success? <==> Succeeds(env, turn)
  {
    hide Attempts;
    AttemptsEnd(env, turn);
    if Succeeds(env, turn) {
      var k: nat :| k <= env.retryLimit && env.attempt(turn, k).Returned?
        && forall j: nat | j < k && env.attempt(turn, j).Threw? :: !EndsStep(env, turn, j);
      var first := FirstReturn(env, turn, k);
    }
    if Attempts(env, turn, 0).0.Success? && env.retryLimit >= 0 {
      if forall k: nat | k <= env.retryLimit :: !EndsStep(env, turn, k) {
        assert false;
      } else {
        var k: nat :| k <= env.retryLimit && EndsStep(env, turn, k);
        var first := FirstEnd(env, turn, k);
      }
    }
  }

  lemma {:induction false} FirstEnd(env: Env, turn: nat, k: nat) returns (first: nat)
    requires EndsStep(env, turn, k)
    ensures first <= k && EndsFirstAt(env, turn, first)
  {
    first := k;
    if exists j: nat :: j < k && EndsStep(env, turn, j) {
      var j: nat :| j < k && EndsStep(env, turn, j);
      first := FirstEnd(env, turn, j);
    }
  }

  lemma {:induction false} FavourableLoop(env: Env, run: Run, turn: nat)
    requires Favourable(env) && run.errors == [] && run.plan.status == Executing
    ensures NotCutShort(Loop(env, run, turn).errors, Loop(env, run, turn).plan)
    decreases PendingCount(run.plan.steps)
  {
    hide Attempts, NextPendingStep, PendingCount, Succeeds;
    if NextPendingStep(run.plan).Some? {
      var step := NextPendingStep(run.plan).value;
      var (execution, dispatched) := Dispatch(env, run, turn, step);
      AttemptsSucceedExactlyWhen(env, turn);
      TurnUsesAPendingStep(env, run, turn, step);
      FavourableLoop(env, Record(dispatched, step, execution), turn + 1);
    }
  }

  lemma FavourableRunsToTheEnd(plan: Plan, env: Env)
    requires Favourable(env) && ValidatePlan(plan).None?
    ensures NotCutShort(Execute(plan, env).0.errors, Execute(plan, env).0.plan)
  {
    hide Loop, CountCompleted;
    FavourableLoop(env, Start(plan), 0);
  }

  // ----- dependency cycles

  /** Some step named `a` depends on `b`. */
  ghost predicate DependsOn(steps: seq<Step>, a: string, b: string) {
    exists s :: s in steps && s.id == a && b in s.dependsOn
  }

  ghost predicate IsWalk(steps: seq<Step>, walk: seq<string>) {
    walk != [] && forall k | 0 <= k < |walk| - 1 :: DependsOn(steps, walk[k], walk[k + 1])
  }

  ghost predicate Repeats(walk: seq<string>) { exists i, j :: 0 <= i < j < |walk| && walk[i] == walk[j] }

  /** On or behind a cycle: a walk along dependencies from here visits some step twice. */
  ghost predicate ReachesCycle(steps: seq<Step>, id: string) {
    exists walk :: IsWalk(steps, walk) && walk[0] == id && Repeats(walk)
  }

  ghost predicate IsCycle(steps: seq<Step>, walk: seq<string>) {
    IsWalk(steps, walk) && |walk| >= 2 && walk[0] == walk[|walk| - 1]
  }

  ghost predicate Acyclic(steps: seq<Step>) { forall walk :: !IsCycle(steps, walk) }

  lemma WalkStep(steps: seq<Step>, walk: seq<string>, k: nat)
    requires IsWalk(steps, walk) && k < |walk| - 1
    ensures DependsOn(steps, walk[k], walk[k + 1])
  {
  }

  lemma SubWalk(steps: seq<Step>, walk: seq<string>, i: nat, j: nat)
    requires IsWalk(steps, walk) && i < j <= |walk|
    ensures IsWalk(steps, walk[i..j])
  {
    forall k | 0 <= k < j - i - 1 ensures DependsOn(steps, walk[i..j][k], walk[i..j][k + 1]) {
      WalkStep(steps, walk, i + k);
    }
  }

  /** Whoever reaches a cycle has a dependency that does. */
  lemma CycleBehindADependency(steps: seq<Step>, id: string) returns (d: string)
    requires ReachesCycle(steps, id)
    ensures DependsOn(steps, id, d) && ReachesCycle(steps, d)
  {
    var walk :| IsWalk(steps, walk) && walk[0] == id && Repeats(walk);
    var i, j :| 0 <= i < j < |walk| && walk[i] == walk[j];
    d := walk[1];
    WalkStep(steps, walk, 0);
    if i > 0 {
      SubWalk(steps, walk, 1, |walk|);
      assert walk[1..|walk|][i - 1] == walk[1..|walk|][j - 1];
    } else {
      var round := walk[1..j + 1] + [walk[1]];
      SubWalk(steps, walk, 1, j + 1);
      forall k | 0 <= k < |round| - 1 ensures DependsOn(steps, round[k], round[k + 1]) {
        if k < j - 1 {
          WalkStep(steps, walk[1..j + 1], k);
        }
      }
      assert round[0] == round[j];
    }
  }

  /** Every member of `stuck` depends on a member of `stuck`. */
  ghost predicate Stuck(steps: seq<Step>, stuck: set<string>) {
    forall u | u in stuck :: HasStuckDependency(steps, stuck, u)
  }

  ghost predicate HasStuckDependency(steps: seq<Step>, stuck: set<string>, u: string) {
    exists d :: DependsOn(steps, u, d) && d in stuck
  }

  /** Within a stuck set one can walk as far as one likes. */
  lemma {:induction false} LongWalk(steps: seq<Step>, stuck: set<string>, id: string,
        n: nat) returns (walk: seq<string>)
    requires id in stuck && Stuck(steps, stuck)
    decreases n
    ensures |walk| == n + 1 && walk[0] == id && IsWalk(steps, walk)
    ensures forall u | u in walk :: u in stuck
  {
    if n == 0 {
      walk := [id];
    } else {
      assert HasStuckDependency(steps, stuck, id);
      var d :| DependsOn(steps, id, d) && d in stuck;
      var rest := LongWalk(steps, stuck, d, n - 1);
      walk := [id] + rest;
      forall k | 0 <= k < |walk| - 1 ensures DependsOn(steps, walk[k], walk[k + 1]) {
        if k > 0 {
          WalkStep(steps, rest, k - 1);
        }
      }
    }
  }

  lemma {:induction false} Pigeonhole(walk: seq<string>, holes: set<string>)
    requires |walk| > |holes| && forall u | u in walk :: u in holes
    ensures Repeats(walk)
  {
    var u := walk[0];
    assert u in holes;
    if u in walk[1..] {
      var j :| 0 <= j < |walk| - 1 && walk[1..][j] == u;
      assert walk[0] == walk[j + 1];
    } else {
      Pigeonhole(walk[1..], holes - {u});
      var i, j :| 0 <= i < j < |walk[1..]| && walk[1..][i] == walk[1..][j];
      assert walk[i + 1] == walk[j + 1];
    }
  }

  lemma StuckReachesCycle(steps: seq<Step>, stuck: set<string>, id: string)
    requires id in stuck && Stuck(steps, stuck)
    ensures ReachesCycle(steps, id)
  {
    hide Stuck, IsWalk, Repeats;
    var walk := LongWalk(steps, stuck, id, |stuck|);
    Pigeonhole(walk, stuck);
  }

  function Ids(steps: seq<Step>): set<string> { set s | s in steps :: s.id }

  ghost predicate AllPending(plan: Plan) { forall s | s in plan.steps :: s.status == Pending }

  lemma StepOfId(plan: Plan, s: Step, t: Step)
    requires UniqueIds(plan) && s in plan.steps && t in plan.steps && s.id == t.id
    ensures s == t
  {
  }

  /** For a fresh valid plan the least closed set is everything that does not reach a cycle. */
  lemma LeastClosedAvoidsCycles(plan: Plan, t: set<string>)
    requires AllPending(plan) && ValidatePlan(plan).None? && LeastClosed(plan.steps, t)
    ensures forall id :: id in t <==> id in Ids(plan.steps) && !ReachesCycle(plan.steps, id)
  {
    hide ReachesCycle;
    var steps := plan.steps;
    var free := set id | id in Ids(steps) && !ReachesCycle(steps, id);
    assert Closed(steps, free) by {
      forall s | s in steps && (forall d | d in s.dependsOn :: d in free) ensures s.id in free {
        if ReachesCycle(steps, s.id) {
          var d := CycleBehindADependency(steps, s.id);
          var u :| u in steps && u.id == s.id && d in u.dependsOn;
          StepOfId(plan, u, s);
        }
      }
    }
    assert CompletedSet(steps) == {};
    assert t <= free;
    var stuck := Ids(steps) - t;
    forall u | u in stuck ensures HasStuckDependency(steps, stuck, u) {
      var s :| s in steps && s.id == u;
      var d :| d in s.dependsOn && d !in t;
      assert KnownId(plan, d);
      assert DependsOn(steps, u, d);
    }
    forall id | id in stuck ensures ReachesCycle(steps, id) {
      StuckReachesCycle(steps, stuck, id);
    }
  }

  lemma AcyclicMeansNobodyReachesACycle(plan: Plan)
    ensures Acyclic(plan.steps) <==> forall id | id in Ids(plan.steps) :: !ReachesCycle(plan.steps, id)
  {
    var steps := plan.steps;
    if id :| id in Ids(steps) && ReachesCycle(steps, id) {
      var walk :| IsWalk(steps, walk) && walk[0] == id && Repeats(walk);
      var i, j :| 0 <= i < j < |walk| && walk[i] == walk[j];
      SubWalk(steps, walk, i, j + 1);
      assert IsCycle(steps, walk[i..j + 1]);
    }
    if walk :| IsCycle(steps, walk) {
      WalkStep(steps, walk, 0);
      assert Repeats(walk);
      assert walk[0] in Ids(steps);
    }
  }

  /** A fresh valid plan that nothing cuts short completes exactly the steps neither on nor behind a dependency
      cycle. It succeeds if and only if its dependencies are acyclic, and fails otherwise. */
  lemma {:induction false} FreshPlanCompletesUnlessCyclic(plan: Plan, env: Env)
    requires AllPending(plan) && ValidatePlan(plan).None?
    ensures var r := Execute(plan, env).0;
            NotCutShort(r.errors, r.plan) ==>
              && (forall id :: id in CompletedSet(r.plan.steps) <==>
                   id in Ids(plan.steps) && !ReachesCycle(plan.steps, id))
              && (r.success <==> Acyclic(plan.steps))
              && r.plan.status == (if Acyclic(plan.steps) then PlanCompleted else PlanFailed)
  {
    hide Loop, LeastClosed, ReachesCycle, Acyclic, CountCompleted, NotCutShort;
    var r := Execute(plan, env).0;
    CompletesTheLeastFixpoint(plan, env);
    if NotCutShort(r.errors, r.plan) {
      LeastClosedAvoidsCycles(plan, CompletedSet(r.plan.steps));
      AcyclicMeansNobodyReachesACycle(plan);
      LoopReachesFixpoint(env, Start(plan), 0);
      SettledWhenAllComplete(plan, r.plan);
    }
  }

  lemma SettledMeansCompleted(before: Plan, after: Plan, id: string)
    requires AllPending(before) && OnlyCompletes(before.steps, after.steps) && AllSettled(after)
             && id in Ids(before.steps)
    ensures id in CompletedSet(after.steps)
  {
    var i :| 0 <= i < |before.steps| && before.steps[i].id == id;
    assert before.steps[i] in before.steps && after.steps[i] in after.steps;
  }

  lemma CompletedMeansSettled(before: Plan, after: Plan, i: nat)
    requires UniqueIds(before) && OnlyCompletes(before.steps, after.steps) && i < |after.steps|
    requires before.steps[i].id in CompletedSet(after.steps)
    ensures Settled(after.steps[i])
  {
    hide Ids;
    var t :| t in after.steps && t.status == Completed && t.id == before.steps[i].id;
    var j :| 0 <= j < |after.steps| && after.steps[j] == t;
    assert before.steps[j].id == before.steps[i].id;
    assert i == j;
  }

  lemma SettledWhenAllComplete(before: Plan, after: Plan)
    requires AllPending(before) && UniqueIds(before) && OnlyCompletes(before.steps, after.steps)
    ensures AllSettled(after) <==> forall id | id in Ids(before.steps) :: id in CompletedSet(after.steps)
  {
    hide CompletedSet, UniqueIds, AllPending;
    if AllSettled(after) {
      forall id | id in Ids(before.steps) ensures id in CompletedSet(after.steps) {
        SettledMeansCompleted(before, after, id);
      }
    }
    if forall id | id in Ids(before.steps) :: id in CompletedSet(after.steps) {
      forall i: nat | i < |after.steps| ensures Settled(after.steps[i]) {
        assert before.steps[i].id in Ids(before.steps);
        CompletedMeansSettled(before, after, i);
      }
    }
  }
}
