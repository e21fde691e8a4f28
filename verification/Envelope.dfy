/** Why charging a one-shot only what it needs over its cheapest waiter is enough, when it is. */
module Envelope {
  import opened Wrappers
  import opened Sums
  import opened Compose
  import opened Startup

  /** The waiters and charges of the plan are those of the whole file: services outside the plan
      have no size, so they never enter the arithmetic. */
  lemma PlanCharges(compose: Services, sizes: map<string, nat>)
    requires sizes.Keys == Plan(compose).Keys
    ensures Charges(Plan(compose), sizes) == Charges(compose, sizes)
  {
    hide WaitersOf, Plan;
    forall name | name in sizes ensures Charge(Plan(compose), sizes, name) == Charge(compose, sizes, name) {
      PlanWaiters(compose, name);
    }
  }

  lemma PlanWaiters(compose: Services, name: string)
    ensures WaitersOf(Plan(compose), name) * Plan(compose).Keys == WaitersOf(compose, name) * Plan(compose).Keys
  {
  }

  /** One cheapest waiter for each one-shot, no two one-shots sharing theirs. */
  ghost predicate CheapestChoice(plan: Services, sizes: map<string, nat>, choice: map<string, string>)
    requires sizes.Keys == plan.Keys
  {
    && (forall shot | shot in plan && OneShot(plan, shot) ::
          shot in choice && choice[shot] in WaitersOf(plan, shot)
          && sizes[choice[shot]] == Least(WaitersOf(plan, shot), sizes))
    && (forall a, b | a in plan && b in plan && OneShot(plan, a) && OneShot(plan, b) && choice[a] == choice[b] ::
          a == b)
  }

  /** What the charge of each service leaves out of its size. */
  ghost function Discounts(plan: Services, sizes: map<string, nat>): map<string, nat> {
    map name | name in sizes :: sizes[name] - Charge(plan, sizes, name)
  }

  lemma DiscountIsAtMostCheapest(plan: Services, sizes: map<string, nat>, name: string)
    requires sizes.Keys == plan.Keys && name in plan
    ensures Discounts(plan, sizes)[name] <= Least(WaitersOf(plan, name), sizes)
    ensures !OneShot(plan, name) ==> Discounts(plan, sizes)[name] == 0
  {
    assert WaitersOf(plan, name) * sizes.Keys == WaitersOf(plan, name);
  }

  /** Whatever waits on a one-shot that has not finished has not started. */
  lemma WaiterIsAbsent(plan: Services, st: State, shot: string, waiter: string)
    requires Coherent(plan, st)
    requires shot in plan && waiter in WaitersOf(plan, shot) && st[shot] != Done
    ensures st[waiter] == NotStarted
  {
    assert st[waiter] != NotStarted ==> AllMet(plan, st, waiter);
    assert AllMet(plan, st, waiter) ==> Met(st, shot, plan[waiter].dependsOn[shot]);
  }

  /** The envelope claim: with an unshared cheapest waiter for each one-shot, no reachable state
      holds more than the peak resident. One-shots may gate one another, to any depth. */
  lemma EnvelopeSound(plan: Services, sizes: map<string, nat>, choice: map<string, string>, st: State)
    requires sizes.Keys == plan.Keys && CheapestChoice(plan, sizes, choice)
    requires Reachable(plan, st)
    ensures Sum(Resident(st), sizes) <= PeakTotal(plan, sizes)
  {
    ReachableIsCoherent(plan, st);
    var absent := set name | name in plan && st[name] == NotStarted;
    var alive := Resident(st) + absent;
    SumAdd(alive, Charges(plan, sizes), Discounts(plan, sizes), sizes);
    SumUnion(Resident(st), absent, sizes);
    SumSubset(alive, plan.Keys, Charges(plan, sizes));
    DiscountsFitInTheAbsent(plan, sizes, choice, st, alive, absent);
    assert Charges(plan, sizes).Keys == plan.Keys;
  }

  /** Everything the peak leaves out of the sizes of unfinished services is made up for by services
      that have not started: each one-shot still to finish keeps its own cheapest waiter out. */
  lemma DiscountsFitInTheAbsent(
    plan: Services, sizes: map<string, nat>, choice: map<string, string>, st: State,
    alive: set<string>, absent: set<string>)
    requires sizes.Keys == plan.Keys && CheapestChoice(plan, sizes, choice) && Coherent(plan, st)
    requires absent == set name | name in plan && st[name] == NotStarted
    requires alive == Resident(st) + absent
    ensures Sum(alive, Discounts(plan, sizes)) <= Sum(absent, sizes)
  {
    var discounts := Discounts(plan, sizes);
    var shots := set name | name in alive && OneShot(plan, name);
    DiscountsAreOnShots(plan, sizes, alive, shots);
    forall shot | shot in shots
      ensures choice[shot] in absent && discounts[shot] <= sizes[choice[shot]]
    {
      WaiterIsAbsent(plan, st, shot, choice[shot]);
      DiscountIsAtMostCheapest(plan, sizes, shot);
    }
    SumInjection(shots, discounts, absent, sizes, choice);
  }

  lemma DiscountsAreOnShots(plan: Services, sizes: map<string, nat>, names: set<string>, shots: set<string>)
    requires sizes.Keys == plan.Keys && names <= plan.Keys
    requires shots == set name | name in names && OneShot(plan, name)
    ensures Sum(names, Discounts(plan, sizes)) == Sum(shots, Discounts(plan, sizes))
  {
    var discounts := Discounts(plan, sizes);
    SumUnion(shots, names - shots, discounts);
    assert shots + (names - shots) == names;
    var zero: map<string, nat> := map name | name in discounts :: 0;
    forall name | name in names - shots ensures discounts[name] <= 0 {
      DiscountIsAtMostCheapest(plan, sizes, name);
    }
    SumPointwise(names - shots, discounts, zero);
    SumZero(names - shots, zero);
  }

  lemma {:induction false} SumZero(names: set<string>, zero: map<string, nat>)
    requires names <= zero.Keys && forall name | name in names :: zero[name] == 0
    ensures Sum(names, zero) == 0
  {
    if names != {} {
      var name :| name in names;
      SumTake(names, zero, name);
      SumZero(names - {name}, zero);
    }
  }

  /** The same, about the figure `Peak` computes for the quickstart of a compose file. */
  lemma QuickstartEnvelopeSound(
    compose: Services, quickstart: Services, resource: string, choice: map<string, string>, st: State)
    requires Capped(compose, quickstart, resource)
    requires CheapestChoice(Plan(compose), Sizes(compose, quickstart, resource), choice)
    requires Reachable(Plan(compose), st)
    ensures Sum(Resident(st), Sizes(compose, quickstart, resource))
            <= PeakTotal(compose, Sizes(compose, quickstart, resource))
  {
    EnvelopeSound(Plan(compose), Sizes(compose, quickstart, resource), choice, st);
    PlanCharges(compose, Sizes(compose, quickstart, resource));
  }

  /** A file with a single one-shot always meets the side condition. */
  lemma OneOneShotIsSound(plan: Services, sizes: map<string, nat>, only: string, st: State)
    requires sizes.Keys == plan.Keys
    requires forall name | name in plan && OneShot(plan, name) :: name == only
    requires Reachable(plan, st)
    ensures Sum(Resident(st), sizes) <= PeakTotal(plan, sizes)
  {
    var choice := map[];
    if only in plan && OneShot(plan, only) {
      var waiter :| waiter in WaitersOf(plan, only) && sizes[waiter] == Least(WaitersOf(plan, only), sizes);
      choice := map[only := waiter];
    }
    EnvelopeSound(plan, sizes, choice, st);
  }

  // ---------------------------------------------------------------- exactly when it holds

  /** A dependency-closed pair of sets: `finished` could all be done while `up` is resident. It is
      read off the file; no run is mentioned. */
  ghost predicate Cut(plan: Services, finished: set<string>, up: set<string>) {
    && finished !! up
    && finished + up <= plan.Keys
    && (forall name | name in finished :: CanFinish(plan[name]))
    && (forall name | name in finished + up :: CutMeets(plan, finished, up, name))
  }

  ghost predicate CutMeets(plan: Services, finished: set<string>, up: set<string>, name: string)
    requires name in plan && finished + up <= plan.Keys
  {
    && (forall target | WaitsForCompletion(plan[name], target) :: target in finished)
    && (forall target | WaitsForHealth(plan[name], target) :: target in up && plan[target].healthcheck)
    && plan[name].dependsOn.Keys <= finished + up
  }

  /** The state in which exactly `finished` is done and `up` is as far along as it gets. */
  function CutState(plan: Services, finished: set<string>, up: set<string>): State {
    map name | name in plan ::
      if name in finished then Done
      else if name in up then if plan[name].healthcheck then Healthy else Running
      else NotStarted
  }

  lemma ReachableIsCut(plan: Services, st: State)
    requires Reachable(plan, st)
    ensures Cut(plan, Finished(st), Resident(st))
  {
    ReachableIsCoherent(plan, st);
    forall name | name in Finished(st) + Resident(st) ensures CutMeets(plan, Finished(st), Resident(st), name) {
      assert AllMet(plan, st, name);
      forall target | target in plan[name].dependsOn ensures Met(st, target, plan[name].dependsOn[target]) {
      }
    }
  }

  /** Any dependency-closed pair is reached by some run, when the dependencies have no cycle: take
      the highest-ranked service away, reach the rest, and start it last. */
  lemma {:induction false} CutIsReachable(
    plan: Services, rank: map<string, nat>, finished: set<string>, up: set<string>)
    requires Ranks(plan, rank) && Cut(plan, finished, up)
    ensures Reachable(plan, CutState(plan, finished, up))
    decreases |finished + up|
  {
    if finished + up == {} {
      ColdStartReachable(plan);
      assert CutState(plan, finished, up) == ColdStart(plan);
    } else {
      var name := Highest(finished + up, rank);
      assert finished + up - {name} == (finished - {name}) + (up - {name});
      CutWithout(plan, rank, finished, up, name);
      CutIsReachable(plan, rank, finished - {name}, up - {name});
      CutMeetsInState(plan, rank, finished, up, name);
      LastStart(plan, finished, up, name);
    }
  }

  lemma CutWithout(plan: Services, rank: map<string, nat>, finished: set<string>, up: set<string>, name: string)
    requires Ranks(plan, rank) && Cut(plan, finished, up) && name in finished + up
    requires forall other | other in finished + up :: rank[other] <= rank[name]
    ensures Cut(plan, finished - {name}, up - {name})
  {
    forall other | other in (finished - {name}) + (up - {name})
      ensures CutMeets(plan, finished - {name}, up - {name}, other)
    {
      assert CutMeets(plan, finished, up, other);
      assert name !in plan[other].dependsOn;
    }
  }

  lemma LastStart(plan: Services, finished: set<string>, up: set<string>, name: string)
    requires finished !! up && name in finished + up && name in plan
    requires name in finished ==> CanFinish(plan[name])
    requires AllMet(plan, CutState(plan, finished - {name}, up - {name}), name)
    requires Reachable(plan, CutState(plan, finished - {name}, up - {name}))
    ensures Reachable(plan, CutState(plan, finished, up))
  {
    var st := CutState(plan, finished - {name}, up - {name});
    hide AllMet, Reachable;
    StepReachable(plan, st, name, Running);
    var started := st[name := Running];
    var end := CutState(plan, finished, up);
    if name in finished {
      StepReachable(plan, started, name, Done);
      assert end == started[name := Done];
    } else if plan[name].healthcheck {
      StepReachable(plan, started, name, Healthy);
      assert end == started[name := Healthy];
    } else {
      assert end == started;
    }
  }

  lemma CutMeetsInState(
    plan: Services, rank: map<string, nat>, finished: set<string>, up: set<string>, name: string)
    requires Ranks(plan, rank) && Cut(plan, finished, up) && name in finished + up
    ensures AllMet(plan, CutState(plan, finished - {name}, up - {name}), name)
  {
    hide CutState;
    assert CutMeets(plan, finished, up, name);
    forall target | target in plan[name].dependsOn
      ensures Met(CutState(plan, finished - {name}, up - {name}), target, plan[name].dependsOn[target])
    {
      assert target in finished + up && target != name;
      TargetIsMet(plan, finished - {name}, up - {name}, name, target);
    }
  }

  lemma TargetIsMet(plan: Services, finished: set<string>, up: set<string>, name: string, target: string)
    requires name in plan && target in plan && target in plan[name].dependsOn && target in finished + up
    requires WaitsForCompletion(plan[name], target) ==> target in finished
    requires WaitsForHealth(plan[name], target) ==> target in up && target !in finished && plan[target].healthcheck
    ensures Met(CutState(plan, finished, up), target, plan[name].dependsOn[target])
  {
  }

  ghost function Highest(names: set<string>, rank: map<string, nat>): (top: string)
    requires names != {} && names <= rank.Keys
    ensures top in names && forall name | name in names :: rank[name] <= rank[top]
  {
    var name :| name in names;
    if names == {name} then name
    else
      var rest := Highest(names - {name}, rank);
      if rank[rest] <= rank[name] then name else rest
  }

  /** The exact condition. A figure bounds every reachable resident set of an acyclic plan if and
      only if it bounds what every dependency-closed pair keeps up. */
  lemma EnvelopeExact(plan: Services, sizes: map<string, nat>, figure: nat)
    requires sizes.Keys == plan.Keys && Acyclic(plan)
    ensures (forall st | Reachable(plan, st) && Resident(st) <= plan.Keys :: Sum(Resident(st), sizes) <= figure)
       <==> (forall finished, up | Cut(plan, finished, up) :: Sum(up, sizes) <= figure)
  {
    var rank :| Ranks(plan, rank);
    if forall st | Reachable(plan, st) && Resident(st) <= plan.Keys :: Sum(Resident(st), sizes) <= figure {
      forall finished, up | Cut(plan, finished, up) ensures Sum(up, sizes) <= figure {
        CutIsReachable(plan, rank, finished, up);
        CutStateHolds(plan, finished, up);
      }
    }
    if forall finished, up | Cut(plan, finished, up) :: Sum(up, sizes) <= figure {
      forall st | Reachable(plan, st) && Resident(st) <= plan.Keys ensures Sum(Resident(st), sizes) <= figure {
        hide Cut, Reachable;
        ReachableIsCut(plan, st);
      }
    }
  }

  /** The same of the figure `Peak` computes, for a quickstart whose dependencies have no cycle. */
  lemma QuickstartEnvelopeExact(compose: Services, quickstart: Services, resource: string)
    requires Capped(compose, quickstart, resource) && Acyclic(Plan(compose))
    ensures var plan, sizes := Plan(compose), Sizes(compose, quickstart, resource);
            ((forall st | Reachable(plan, st) && Resident(st) <= plan.Keys ::
                Sum(Resident(st), sizes) <= PeakTotal(compose, sizes))
             <==> (forall finished, up | Cut(plan, finished, up) :: Sum(up, sizes) <= PeakTotal(compose, sizes)))
  {
    hide Acyclic, Reachable, Cut, PeakTotal;
    var sizes := Sizes(compose, quickstart, resource);
    EnvelopeExact(Plan(compose), sizes, PeakTotal(compose, sizes));
  }

  lemma CutStateHolds(plan: Services, finished: set<string>, up: set<string>)
    requires Cut(plan, finished, up)
    ensures Resident(CutState(plan, finished, up)) == up && up <= plan.Keys
    ensures Finished(CutState(plan, finished, up)) == finished
  {
  }

  // ---------------------------------------------------------------- when it does not

  function Provisioner(): Service {
    Service(map[], false, None, [], map[])
  }

  function GatedOnTwo(): Service {
    var finished := Waits(Some(WHEN_COMPLETED));
    Service(map["a" := finished, "b" := finished], true, Some("unless-stopped"), [], map[])
  }

  /** Two provisioners in front of one waiter. */
  function SharedWaiter(): Services {
    map["a" := Provisioner(), "b" := Provisioner(), "w" := GatedOnTwo()]
  }

  function UnitSizes(): map<string, nat> {
    map["a" := 1, "b" := 1, "w" := 1]
  }

  /** Each of size one, both provisioners are resident together, at two, while the peak says one. */
  lemma SharedWaiterBreaksTheEnvelope()
    ensures PeakTotal(SharedWaiter(), UnitSizes()) == 1
    ensures exists st :: Reachable(SharedWaiter(), st) && Resident(st) == {"a", "b"}
                         && Sum(Resident(st), UnitSizes()) == 2
  {
    var plan := SharedWaiter();
    var rank := map["a" := 0, "b" := 0, "w" := 1];
    assert Cut(plan, {}, {"a", "b"}) && Ranks(plan, rank);
    hide *;
    CutIsReachable(plan, rank, {}, {"a", "b"});
    CutStateHolds(plan, {}, {"a", "b"});
    SharedWaiterPeak();
    SumOfTwo("a", "b", UnitSizes());
    UnitSizesAreOne();
  }

  lemma UnitSizesAreOne()
    ensures UnitSizes().Keys == {"a", "b", "w"} && UnitSizes()["a"] == UnitSizes()["b"] == 1
  {
  }

  lemma SharedWaiterPeak()
    ensures PeakTotal(SharedWaiter(), UnitSizes()) == 1
  {
    SharedWaiterCharge("a");
    SharedWaiterCharge("b");
    SharedWaiterCharge("w");
    var charges := Charges(SharedWaiter(), UnitSizes());
    UnitNames();
    hide SharedWaiter, Charge, UnitSizes;
    SumUnion({"a", "b"}, {"w"}, charges);
    SumOfTwo("a", "b", charges);
    SumTake({"w"}, charges, "w");
  }

  lemma UnitNames()
    ensures UnitSizes().Keys == {"a", "b"} + {"w"} && {"a", "b"} !! {"w"} && "a" != "b"
  {
    assert "w"[0] != "a"[0] && "w"[0] != "b"[0] && "a"[0] != "b"[0];
  }

  lemma SharedWaiterCharge(target: string)
    requires target in UnitSizes() && target in SharedWaiter()
    ensures Charge(SharedWaiter(), UnitSizes(), target) == if target == "w" then 1 else 0
  {
    SharedWaiters(target);
    hide WaitersOf, SharedWaiter;
    if target == "w" {
      assert {} * UnitSizes().Keys == {};
    } else {
      assert {"w"} * UnitSizes().Keys == {"w"};
      assert Least({"w"}, UnitSizes()) == UnitSizes()["w"];
    }
  }

  lemma SharedWaiters(target: string)
    requires target in SharedWaiter()
    ensures WaitersOf(SharedWaiter(), target) == if target == "w" then {} else {"w"}
  {
    var plan := SharedWaiter();
    assert forall name | name in plan :: name == "w" || plan[name].dependsOn == map[];
  }

  lemma SumOfTwo(a: string, b: string, size: map<string, nat>)
    requires a != b && a in size && b in size
    ensures Sum({a, b}, size) == size[a] + size[b]
  {
    SumTake({a, b}, size, a);
    assert {a, b} - {a} == {b};
    SumTake({b}, size, b);
  }
}
