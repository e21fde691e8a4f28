/** When `up --wait` is certain to return: exactly the files from which every run settles. */
module HungStart {
  import opened Wrappers
  import opened Sums
  import opened Compose
  import opened Startup
  import opened Envelope

  /** What `up --wait` waits for: every service answering or finished. */
  ghost predicate Settled(plan: Services, st: State)
    requires plan.Keys == st.Keys
  {
    forall name | name in plan :: st[name] == Healthy || st[name] == Done
  }

  ghost predicate Maximal(plan: Services, run: seq<State>) {
    IsRun(plan, run) && Stuck(plan, Last(run))
  }

  /** Nothing in the file can hang a start: each service can answer or finish, each target can
      give what is waited for, and the dependencies have no cycle. */
  ghost predicate Startable(plan: Services) {
    && (forall name | name in plan :: plan[name].healthcheck || CanFinish(plan[name]))
    && (forall name, target | name in plan && target in plan && WaitsForCompletion(plan[name], target) ::
          CanFinish(plan[target]))
    && (forall name, target | name in plan && target in plan && WaitsForHealth(plan[name], target) ::
          plan[target].healthcheck)
    && Acyclic(plan)
  }

  // ---------------------------------------------------------------- every step is progress

  function Owed(phase: Phase): nat {
    match phase case NotStarted => 2 case Running => 1 case _ => 0
  }

  ghost function Remaining(st: State): nat {
    Sum(st.Keys, map name | name in st :: Owed(st[name]))
  }

  lemma StepsDecrease(plan: Services, st: State, name: string, to: Phase)
    requires plan.Keys == st.Keys && Enabled(plan, st, name, to)
    ensures Remaining(st[name := to]) < Remaining(st)
  {
    var before: map<string, nat> := map other | other in st :: Owed(st[other]);
    var stepped := st[name := to];
    var after: map<string, nat> := map other | other in stepped :: Owed(stepped[other]);
    SumTake(st.Keys, before, name);
    assert stepped.Keys == st.Keys;
    SumTake(st.Keys, after, name);
    SumPointwise(st.Keys - {name}, after, before);
  }

  /** A run of a plan of n services takes at most 2n steps. */
  lemma {:induction false} RunsAreShort(plan: Services, run: seq<State>)
    requires IsRun(plan, run)
    ensures |run| - 1 + Remaining(Last(run)) <= 2 * |plan.Keys|
    decreases |run|
  {
    if |run| == 1 {
      var owed: map<string, nat> := map name | name in plan :: 2;
      assert owed == map name | name in run[0] :: Owed(run[0][name]);
      SumOfTwos(plan.Keys, owed);
    } else {
      var shorter := run[..|run| - 1];
      assert IsRun(plan, shorter);
      RunsAreShort(plan, shorter);
      assert Next(plan, Last(shorter), Last(run));
      var name, to :| Enabled(plan, Last(shorter), name, to) && Last(run) == Last(shorter)[name := to];
      StepsDecrease(plan, Last(shorter), name, to);
    }
  }

  lemma {:induction false} SumOfTwos(names: set<string>, twos: map<string, nat>)
    requires names <= twos.Keys && forall name | name in names :: twos[name] == 2
    ensures Sum(names, twos) == 2 * |names|
  {
    if names != {} {
      var name :| name in names;
      SumTake(names, twos, name);
      SumOfTwos(names - {name}, twos);
    }
  }

  /** So every run extends to one that can go no further. */
  lemma {:induction false} RunsExtend(plan: Services, run: seq<State>) returns (whole: seq<State>)
    requires IsRun(plan, run)
    ensures Maximal(plan, whole)
    decreases Remaining(Last(run))
  {
    if name, to :| Enabled(plan, Last(run), name, to) {
      var after := Last(run)[name := to];
      StepsDecrease(plan, Last(run), name, to);
      assert Next(plan, Last(run), after);
      whole := RunsExtend(plan, run + [after]);
    } else {
      whole := run;
    }
  }

  // ---------------------------------------------------------------- startable files never hang

  /** Follow an unsettled service down its unsettled dependencies: some step is open. */
  lemma {:induction false} SomeStepIsOpen(plan: Services, rank: map<string, nat>, st: State, name: string)
    returns (who: string, to: Phase)
    requires Startable(plan) && Ranks(plan, rank) && Coherent(plan, st)
    requires name in plan && st[name] != Healthy && st[name] != Done
    ensures Enabled(plan, st, who, to)
    decreases rank[name]
  {
    if st[name] == Running {
      who, to := name, if plan[name].healthcheck then Healthy else Done;
    } else if target :| target in plan[name].dependsOn && st[target] != Healthy && st[target] != Done {
      who, to := SomeStepIsOpen(plan, rank, st, target);
    } else {
      forall target | target in plan[name].dependsOn ensures Met(st, target, plan[name].dependsOn[target]) {
        SettledTargetIsMet(plan, st, name, target);
      }
      who, to := name, Running;
    }
  }

  lemma SettledTargetIsMet(plan: Services, st: State, name: string, target: string)
    requires Startable(plan) && Coherent(plan, st)
    requires name in plan && target in plan && target in plan[name].dependsOn
    requires st[target] == Healthy || st[target] == Done
    ensures Met(st, target, plan[name].dependsOn[target])
  {
    assert WaitsForCompletion(plan[name], target) ==> CanFinish(plan[target]);
    assert WaitsForHealth(plan[name], target) ==> plan[target].healthcheck;
  }

  /** Progress: a reachable state of a startable file that is not settled has an open step. */
  lemma UnsettledIsNotStuck(plan: Services, st: State)
    requires Startable(plan) && Reachable(plan, st) && plan.Keys == st.Keys
    ensures Settled(plan, st) || !Stuck(plan, st)
  {
    ReachableIsCoherent(plan, st);
    var rank :| Ranks(plan, rank);
    if name :| name in plan && st[name] != Healthy && st[name] != Done {
      var _, _ := SomeStepIsOpen(plan, rank, st, name);
    }
  }

  // ---------------------------------------------------------------- and only they do not

  /** Services numbered in the order a run starts them: whatever has started depends only on what
      started before it. */
  ghost predicate StartOrder(plan: Services, st: State, order: map<string, nat>, top: nat) {
    && (forall name :: name in order <==> name in st && st[name] != NotStarted)
    && (forall name | name in order :: order[name] < top)
    && forall name, target | name in order && name in plan && target in plan[name].dependsOn ::
         target in order && order[target] < order[name]
  }

  lemma {:induction false} RunGivesOrder(plan: Services, run: seq<State>) returns (order: map<string, nat>)
    requires IsRun(plan, run)
    ensures StartOrder(plan, Last(run), order, |run|)
    decreases |run|
  {
    if |run| == 1 {
      order := map[];
    } else {
      var shorter := run[..|run| - 1];
      assert IsRun(plan, shorter);
      order := RunGivesOrder(plan, shorter);
      var st := Last(shorter);
      assert Next(plan, st, Last(run));
      var name, to :| Enabled(plan, st, name, to) && Last(run) == st[name := to];
      order := OrderOfStep(plan, st, name, to, order, |shorter|);
    }
  }

  lemma OrderOfStep(plan: Services, st: State, name: string, to: Phase, before: map<string, nat>, top: nat)
    returns (order: map<string, nat>)
    requires plan.Keys == st.Keys && Enabled(plan, st, name, to) && StartOrder(plan, st, before, top)
    ensures StartOrder(plan, st[name := to], order, top + 1)
  {
    order := before;
    if to == Running {
      forall target | target in plan[name].dependsOn ensures target in before {
        assert Met(st, target, plan[name].dependsOn[target]);
      }
      order := before[name := top];
    }
  }

  lemma SettledRunMeansStartable(plan: Services, run: seq<State>)
    requires IsRun(plan, run) && Settled(plan, Last(run))
    ensures Startable(plan)
  {
    var st := Last(run);
    RunsStayCoherent(plan, run);
    var order := RunGivesOrder(plan, run);
    assert Ranks(plan, order);
    forall name, target | name in plan && target in plan[name].dependsOn
      ensures Met(st, target, plan[name].dependsOn[target])
    {
      assert AllMet(plan, st, name);
    }
  }

  /** The exact condition: every run of the file ends settled if and only if it is startable, and
      one settled run is already enough to know it. */
  lemma NoHungStart(plan: Services)
    ensures (forall run | Maximal(plan, run) :: Settled(plan, Last(run))) <==> Startable(plan)
    ensures (exists run :: IsRun(plan, run) && Settled(plan, Last(run))) <==> Startable(plan)
  {
    var whole := RunsExtend(plan, [ColdStart(plan)]);
    if Startable(plan) {
      forall run | Maximal(plan, run) ensures Settled(plan, Last(run)) {
        UnsettledIsNotStuck(plan, Last(run));
      }
    }
    if run :| IsRun(plan, run) && Settled(plan, Last(run)) {
      SettledRunMeansStartable(plan, run);
    }
  }

  // ---------------------------------------------------------------- what the contract checks give

  /** `test_every_service_is_either_healthchecked_or_waited_for` */
  ghost predicate HealthcheckedOrWaitedFor(services: Services) {
    forall name | name in services :: services[name].healthcheck || OneShot(services, name)
  }

  /** `test_a_one_shot_service_does_not_restart` */
  ghost predicate OneShotsDoNotRestart(services: Services) {
    forall name | name in services && OneShot(services, name) :: !Restarts(services[name])
  }

  /** `test_dependencies_wait_for_health_not_start` */
  ghost predicate DependenciesAreConditions(services: Services) {
    forall name, target | name in services && target in services[name].dependsOn ::
      && (WaitsForHealth(services[name], target) || WaitsForCompletion(services[name], target))
      && (WaitsForCompletion(services[name], target) && target in services ==> !services[target].healthcheck)
  }

  /** `test_restart_policy_declared` */
  ghost predicate RestartPolicyDeclared(services: Services) {
    forall name | name in services && !OneShot(services, name) :: services[name].restart == Some("unless-stopped")
  }

  ghost predicate ContractChecks(services: Services) {
    && HealthcheckedOrWaitedFor(services)
    && OneShotsDoNotRestart(services)
    && DependenciesAreConditions(services)
    && RestartPolicyDeclared(services)
  }

  /** The two things the contract tests leave unchecked. */
  ghost predicate HealthGatesAreHealthchecked(services: Services) {
    forall name, target | name in services && target in services && WaitsForHealth(services[name], target) ::
      services[target].healthcheck
  }

  /** A file that passes the contract tests is startable exactly when it also passes the two. */
  lemma ContractsRuleOutHungStarts(services: Services)
    requires ContractChecks(services)
    ensures Startable(services) <==> Acyclic(services) && HealthGatesAreHealthchecked(services)
  {
    forall name, target | name in services && target in services && WaitsForCompletion(services[name], target)
      ensures CanFinish(services[target])
    {
      assert name in WaitersOf(services, target);
    }
  }

  function Answering(target: string): Service {
    Service(map[target := Waits(Some("service_healthy"))], true, Some("unless-stopped"), [], map[])
  }

  /** The contract tests alone do not rule a hung start out: two services waiting for each other's
      health pass all of them, and no run starts either. */
  lemma ContractsAllowACycle()
    ensures var services := map["a" := Answering("b"), "b" := Answering("a")];
            && ContractChecks(services)
            && forall run | IsRun(services, run) :: Last(run) == ColdStart(services)
  {
    var services := map["a" := Answering("b"), "b" := Answering("a")];
    forall name, target | name in services && target in services[name].dependsOn
      ensures WaitsForHealth(services[name], target) && !WaitsForCompletion(services[name], target)
    {
      assert target == (if name == "a" then "b" else "a");
    }
    forall run | IsRun(services, run) ensures Last(run) == ColdStart(services) {
      CycleStaysCold(services, run);
    }
  }

  lemma {:induction false} CycleStaysCold(services: Services, run: seq<State>)
    requires services == map["a" := Answering("b"), "b" := Answering("a")]
    requires IsRun(services, run)
    ensures Last(run) == ColdStart(services)
    decreases |run|
  {
    if |run| > 1 {
      var shorter := run[..|run| - 1];
      assert IsRun(services, shorter);
      CycleStaysCold(services, shorter);
      assert Next(services, Last(shorter), Last(run));
      var name, to :| Enabled(services, ColdStart(services), name, to);
      CycleIsStuck(services, name, to);
    }
  }

  lemma CycleIsStuck(services: Services, name: string, to: Phase)
    requires services == map["a" := Answering("b"), "b" := Answering("a")]
    ensures !Enabled(services, ColdStart(services), name, to)
  {
    if name in services {
      var other := if name == "a" then "b" else "a";
      assert !Met(ColdStart(services), other, services[name].dependsOn[other]);
    }
  }

  /** A completion target that is restarted for ever holds everything gated on it back, in every state. */
  lemma RestartingTargetHolds(plan: Services, st: State, shot: string, waiter: string)
    requires shot in plan && NeverDone(plan[shot]) && waiter in WaitersOf(plan, shot)
    requires Reachable(plan, st)
    ensures Coherent(plan, st) && st[waiter] == NotStarted
  {
    ReachableIsCoherent(plan, st);
    WaiterIsAbsent(plan, st, shot, waiter);
  }

  function RetriedProvisioner(): Services {
    map["a" := Service(map[], false, Some("on-failure"), [], map[]),
        "w" := Service(
            map["a" := Waits(Some("service_completed_successfully"))], true, Some("unless-stopped"), [], map[])]
  }

  /** The test refuses more than what hangs: a provisioner that is restarted on failure only starts. */
  lemma RetriedProvisionerStarts()
    ensures !OneShotsDoNotRestart(RetriedProvisioner()) && Startable(RetriedProvisioner())
  {
    RetriedProvisionerIsRefused();
    RetriedProvisionerDependencies();
    RetriedProvisionerRanks();
    hide RetriedProvisioner, Acyclic, OneShotsDoNotRestart;
  }

  lemma RetriedProvisionerIsRefused()
    ensures !OneShotsDoNotRestart(RetriedProvisioner())
  {
    var services := RetriedProvisioner();
    assert "w" in WaitersOf(services, "a");
    assert OneShot(services, "a") && Restarts(services["a"]);
  }

  lemma RetriedProvisionerDependencies()
    ensures var services := RetriedProvisioner();
            && (forall name | name in services :: services[name].healthcheck || CanFinish(services[name]))
            && (forall name, target | name in services && target in services ::
                  (WaitsForCompletion(services[name], target) ==> CanFinish(services[target]))
                  && !WaitsForHealth(services[name], target))
  {
  }

  lemma RetriedProvisionerRanks()
    ensures Acyclic(RetriedProvisioner())
  {
    assert Ranks(RetriedProvisioner(), map["a" := 0, "w" := 1]);
  }

  // ---------------------------------------------------------------- the peak is reached

  /** `test_a_provisioner_is_smaller_than_what_it_gates` */
  ghost predicate ProvisionersAreSmaller(plan: Services, sizes: map<string, nat>)
    requires plan.Keys == sizes.Keys
  {
    forall shot, waiter | shot in plan && waiter in WaitersOf(plan, shot) :: sizes[shot] <= sizes[waiter]
  }

  /** In a file that passes the contract tests, with provisioners no larger than what they gate,
      the peak is what the settled stack holds: the bound is attained, so it is the maximum. */
  lemma PeakIsAttained(plan: Services, sizes: map<string, nat>, st: State)
    requires plan.Keys == sizes.Keys && ContractChecks(plan) && ProvisionersAreSmaller(plan, sizes)
    requires Reachable(plan, st) && st.Keys == plan.Keys && Settled(plan, st)
    ensures Sum(Resident(st), sizes) == PeakTotal(plan, sizes)
  {
    ReachableIsCoherent(plan, st);
    var up, charges := Resident(st), Charges(plan, sizes);
    forall name | name in plan
      ensures charges[name] == if name in up then sizes[name] else 0
    {
      SettledCharge(plan, sizes, st, name);
    }
    assert charges.Keys == plan.Keys;
    SumOver(up, plan.Keys, sizes, charges);
  }

  lemma SumOver(some: set<string>, all: set<string>, sizes: map<string, nat>, charges: map<string, nat>)
    requires some <= all && all <= sizes.Keys && all <= charges.Keys
    requires forall name | name in all :: charges[name] == if name in some then sizes[name] else 0
    ensures Sum(all, charges) == Sum(some, sizes)
  {
    SumUnion(some, all - some, charges);
    assert some + (all - some) == all;
    SumZero(all - some, charges);
    SumPointwise(some, sizes, charges);
    SumPointwise(some, charges, sizes);
  }

  lemma SettledCharge(plan: Services, sizes: map<string, nat>, st: State, name: string)
    requires plan.Keys == sizes.Keys && ContractChecks(plan) && ProvisionersAreSmaller(plan, sizes)
    requires Coherent(plan, st) && Settled(plan, st) && name in plan
    ensures Charge(plan, sizes, name) == if name in Resident(st) then sizes[name] else 0
  {
    assert WaitersOf(plan, name) * sizes.Keys == WaitersOf(plan, name);
    if OneShot(plan, name) {
      var waiter :| waiter in WaitersOf(plan, name);
      assert WaitsForCompletion(plan[waiter], name);
    } else {
      assert plan[name].healthcheck;
    }
  }

  /** The counterexample to the envelope passes every test there is, the one on provisioner sizes too. */
  lemma SharedWaiterPassesTheTests()
    ensures ContractChecks(SharedWaiter()) && ProvisionersAreSmaller(SharedWaiter(), UnitSizes())
    ensures exists st :: Reachable(SharedWaiter(), st)
              && Sum(Resident(st), UnitSizes()) > PeakTotal(SharedWaiter(), UnitSizes())
  {
    SharedWaiters();
    SharedWaiterContracts();
    SharedWaiterSizes();
    SharedWaiterBreaksTheEnvelope();
    hide *;
  }

  lemma SharedWaiters()
    ensures forall target :: WaitersOf(SharedWaiter(), target) == if target == "a" || target == "b" then {"w"} else {}
  {
  }

  lemma SharedWaiterContracts()
    ensures ContractChecks(SharedWaiter())
  {
    SharedWaiters();
    hide WaitersOf;
    var services := SharedWaiter();
    assert OneShot(services, "a") && OneShot(services, "b") && !OneShot(services, "w");
    SharedWaiterDependencies(services);
    assert RestartPolicyDeclared(services);
  }

  lemma SharedWaiterDependencies(services: Services)
    requires services == SharedWaiter()
    ensures DependenciesAreConditions(services)
  {
    forall name, target | name in services && target in services[name].dependsOn
      ensures WaitsForCompletion(services[name], target)
    {
      assert name == "w" && (target == "a" || target == "b");
    }
    forall name, target | name in services && WaitsForCompletion(services[name], target)
      ensures target == "a" || target == "b"
    {
      assert name == "w";
    }
  }

  lemma SharedWaiterSizes()
    ensures UnitSizes().Keys == SharedWaiter().Keys && ProvisionersAreSmaller(SharedWaiter(), UnitSizes())
  {
    SharedWaiters();
    hide WaitersOf;
  }
}
