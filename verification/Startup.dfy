/** A cold start as compose carries it out: what state each service is in, which steps are open,
    and which states a run can reach. */
module Startup {
  import opened Wrappers
  import opened Compose

  datatype Phase = NotStarted | Running | Healthy | Done

  type State = map<string, Phase>

  function ColdStart(plan: Services): State {
    map name | name in plan :: NotStarted
  }

  /** Whether a dependency lets its dependant start. A condition that is neither health nor
      completion asks only that the target's container has started. */
  predicate Met(st: State, target: string, dependency: Dependency) {
    && target in st
    && match dependency
       case Waits(Some(condition)) =>
         if condition == WHEN_COMPLETED then st[target] == Done
         else if condition == WHEN_HEALTHY then st[target] == Healthy
         else st[target] != NotStarted
       case _ => st[target] != NotStarted
  }

  predicate AllMet(plan: Services, st: State, name: string)
    requires name in plan
  {
    forall target | target in plan[name].dependsOn :: Met(st, target, plan[name].dependsOn[target])
  }

  /** Only a service with no healthcheck that is not restarted for ever finishes. */
  predicate CanFinish(service: Service) {
    !service.healthcheck && !NeverDone(service)
  }

  predicate Enabled(plan: Services, st: State, name: string, to: Phase)
    requires plan.Keys == st.Keys
  {
    && name in plan
    && match to
       case NotStarted => false
       case Running => st[name] == NotStarted && AllMet(plan, st, name)
       case Healthy => st[name] == Running && plan[name].healthcheck
       case Done => st[name] == Running && CanFinish(plan[name])
  }

  ghost predicate Next(plan: Services, st: State, after: State)
    requires plan.Keys == st.Keys
  {
    exists name, to :: Enabled(plan, st, name, to) && after == st[name := to]
  }

  ghost predicate IsRun(plan: Services, run: seq<State>) {
    && run != []
    && run[0] == ColdStart(plan)
    && (forall i | 0 <= i < |run| :: run[i].Keys == plan.Keys)
    && forall i | 0 < i < |run| :: Next(plan, run[i - 1], run[i])
  }

  function Last(run: seq<State>): State
    requires run != []
  {
    run[|run| - 1]
  }

  ghost predicate Reachable(plan: Services, st: State) {
    exists run :: IsRun(plan, run) && Last(run) == st
  }

  ghost predicate Stuck(plan: Services, st: State)
    requires plan.Keys == st.Keys
  {
    forall name, to :: !Enabled(plan, st, name, to)
  }

  function Resident(st: State): set<string> {
    set name | name in st && (st[name] == Running || st[name] == Healthy)
  }

  function Finished(st: State): set<string> {
    set name | name in st && st[name] == Done
  }

  /** What every reachable state keeps: whatever has started still has the dependencies it started
      on, and a service is in a terminal phase only if it is of the kind that gets there. */
  ghost predicate Coherent(plan: Services, st: State) {
    && st.Keys == plan.Keys
    && (forall name | name in plan && st[name] != NotStarted :: AllMet(plan, st, name))
    && (forall name | name in plan && st[name] == Healthy :: plan[name].healthcheck)
    && (forall name | name in plan && st[name] == Done :: CanFinish(plan[name]))
  }

  lemma MetPersists(plan: Services, st: State, name: string, to: Phase, target: string, dependency: Dependency)
    requires plan.Keys == st.Keys && Enabled(plan, st, name, to)
    requires Met(st, target, dependency)
    ensures Met(st[name := to], target, dependency)
  {
  }

  lemma CoherentStep(plan: Services, st: State, name: string, to: Phase)
    requires Coherent(plan, st) && Enabled(plan, st, name, to)
    ensures Coherent(plan, st[name := to])
  {
    var after := st[name := to];
    forall other | other in plan && after[other] != NotStarted ensures AllMet(plan, after, other) {
      forall target | target in plan[other].dependsOn
        ensures Met(after, target, plan[other].dependsOn[target])
      {
        MetPersists(plan, st, name, to, target, plan[other].dependsOn[target]);
      }
    }
  }

  lemma {:induction false} RunsStayCoherent(plan: Services, run: seq<State>)
    requires IsRun(plan, run)
    ensures Coherent(plan, Last(run))
    decreases |run|
  {
    if |run| > 1 {
      var shorter := run[..|run| - 1];
      assert IsRun(plan, shorter);
      RunsStayCoherent(plan, shorter);
      assert Next(plan, Last(shorter), Last(run));
      var name, to :| Enabled(plan, Last(shorter), name, to) && Last(run) == Last(shorter)[name := to];
      CoherentStep(plan, Last(shorter), name, to);
    }
  }

  lemma ReachableIsCoherent(plan: Services, st: State)
    requires Reachable(plan, st)
    ensures Coherent(plan, st)
  {
    var run :| IsRun(plan, run) && Last(run) == st;
    RunsStayCoherent(plan, run);
  }

  /** Whatever has started, in whatever state a run is in: what it waited for to complete is done, what it
      waited for to be healthy is, and all else it depends on has started. */
  lemma StartedOnWhatItWaitedFor(plan: Services, st: State, name: string, target: string)
    requires Reachable(plan, st) && name in plan && target in plan[name].dependsOn
    ensures st.Keys == plan.Keys && (st[name] != NotStarted ==> target in st && st[target] != NotStarted)
    ensures st[name] != NotStarted && plan[name].dependsOn[target] == Waits(Some("service_completed_successfully")) ==>
              st[target] == Done && !plan[target].healthcheck
    ensures st[name] != NotStarted && plan[name].dependsOn[target] == Waits(Some("service_healthy")) ==>
              st[target] == Healthy && plan[target].healthcheck
  {
    ReachableIsCoherent(plan, st);
    assert st[name] != NotStarted ==> Met(st, target, plan[name].dependsOn[target]);
  }

  /** A service whose dependencies are where it waits for them to be can start. */
  lemma MetDependenciesLetItStart(plan: Services, st: State, name: string)
    requires Reachable(plan, st) && name in plan && name in st && st[name] == NotStarted
    requires forall target | target in plan[name].dependsOn :: target in st && st[target] != NotStarted
    requires forall target | target in plan[name].dependsOn && st[target] != Done ::
               plan[name].dependsOn[target] != Waits(Some("service_completed_successfully"))
    requires forall target | target in plan[name].dependsOn && st[target] != Healthy ::
               plan[name].dependsOn[target] != Waits(Some("service_healthy"))
    ensures Reachable(plan, st[name := Running])
  {
    ReachableIsCoherent(plan, st);
    StepReachable(plan, st, name, Running);
  }

  lemma ColdStartReachable(plan: Services)
    ensures Reachable(plan, ColdStart(plan))
  {
    assert IsRun(plan, [ColdStart(plan)]);
  }

  lemma StepReachable(plan: Services, st: State, name: string, to: Phase)
    requires Reachable(plan, st) && plan.Keys == st.Keys && Enabled(plan, st, name, to)
    ensures Reachable(plan, st[name := to])
  {
    var run :| IsRun(plan, run) && Last(run) == st;
    var longer := run + [st[name := to]];
    assert Next(plan, st, st[name := to]);
    forall i | 0 < i < |longer| ensures Next(plan, longer[i - 1], longer[i]) {
    }
    assert Last(longer) == st[name := to];
  }

  /** A ranking of the plan along which every dependency points down: no cycle, and no dependency
      on a service outside the plan. */
  ghost predicate Ranks(plan: Services, rank: map<string, nat>) {
    && plan.Keys <= rank.Keys
    && forall name, target | name in plan && target in plan[name].dependsOn ::
         target in plan && rank[target] < rank[name]
  }

  ghost predicate Acyclic(plan: Services) {
    exists rank :: Ranks(plan, rank)
  }
}
