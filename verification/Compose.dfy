/** The compose file as the start-up and envelope contracts read it. */
module Compose {
  import opened Wrappers
  import opened Sums

  const FULL_PROFILE := "full"
  const WHEN_HEALTHY := "service_healthy"
  const WHEN_COMPLETED := "service_completed_successfully"
  const KEEPS_ALIVE := {"always", "unless-stopped", "on-failure"}
  const NEVER_DONE := {"always", "unless-stopped"}

  /** One entry of `depends_on`: a mapping with an optional condition, or anything else. */
  datatype Dependency = Unstructured | Waits(condition: Option<string>)

  datatype Service = Service(
    dependsOn: map<string, Dependency>,
    healthcheck: bool,
    restart: Option<string>,
    profiles: seq<string>,
    limits: map<string, nat>)  // in KiB and thousandths of a CPU

  type Services = map<string, Service>

  predicate WaitsForCompletion(service: Service, target: string) {
    target in service.dependsOn && service.dependsOn[target] == Waits(Some(WHEN_COMPLETED))
  }

  predicate WaitsForHealth(service: Service, target: string) {
    target in service.dependsOn && service.dependsOn[target] == Waits(Some(WHEN_HEALTHY))
  }

  /** `str(service.get("restart", "no")) in keeps_alive` */
  predicate Restarts(service: Service) {
    service.restart.Some? && service.restart.value in KEEPS_ALIVE
  }

  /** Restarted even after it succeeds; one restarted on failure only is done when it succeeds. */
  predicate NeverDone(service: Service) {
    service.restart.Some? && service.restart.value in NEVER_DONE
  }

  /** The services gated on `target` finishing. */
  function WaitersOf(services: Services, target: string): set<string> {
    set name | name in services && WaitsForCompletion(services[name], target)
  }

  predicate OneShot(services: Services, name: string) {
    WaitersOf(services, name) != {}
  }

  // ---------------------------------------------------------------- completion_waiters

  function Entry(waiters: map<string, set<string>>, target: string): set<string> {
    if target in waiters then waiters[target] else {}
  }

  /** The dict holds, under each target, exactly its waiters, and no empty entry. */
  ghost predicate Tabulates(waiters: map<string, set<string>>, services: Services) {
    && (forall target :: Entry(waiters, target) == WaitersOf(services, target))
    && (forall target | target in waiters :: waiters[target] != {})
  }

  /** As the file writes it. */
  predicate IsWaiting(service: Service, target: string) {
    target in service.dependsOn && service.dependsOn[target] == Waits(Some("service_completed_successfully"))
  }

  method CompletionWaiters(services: Services) returns (waiters: map<string, set<string>>)
    ensures Tabulates(waiters, services)
    ensures forall target, name | target in waiters && name in waiters[target] ::
              name in services && IsWaiting(services[name], target)
    ensures forall target, name | name in services && IsWaiting(services[name], target) ::
              target in waiters && name in waiters[target]
    ensures forall target | target in waiters :: waiters[target] != {}
  {
    waiters := map[];
    var pending := services.Keys;
    ghost var seen: Services := map[];
    while pending != {}
      invariant pending <= services.Keys
      invariant seen == services - pending
      invariant Tabulates(waiters, seen)
    {
      var name :| name in pending;
      ghost var before := waiters;
      waiters := RecordWaits(waiters, name, services[name]);
      pending := pending - {name};
      ghost var more := services - pending;
      forall target ensures Entry(waiters, target) == WaitersOf(more, target) {
        assert Entry(before, target) == WaitersOf(seen, target);
        assert forall other :: other in more <==> other in seen || other == name;
      }
      seen := more;
    }
    assert seen == services;
    TableMeans(waiters, services);
  }

  lemma TableMeans(waiters: map<string, set<string>>, services: Services)
    requires Tabulates(waiters, services)
    ensures forall target, name | target in waiters && name in waiters[target] ::
              name in services && IsWaiting(services[name], target)
    ensures forall target, name | name in services && IsWaiting(services[name], target) ::
              target in waiters && name in waiters[target]
    ensures forall target | target in waiters :: waiters[target] != {}
  {
    assert forall target :: Entry(waiters, target) == WaitersOf(services, target);
    assert forall target | target in waiters :: waiters[target] == WaitersOf(services, target);
    forall target, name | name in services && IsWaiting(services[name], target)
      ensures target in waiters && name in waiters[target]
    {
      assert name in WaitersOf(services, target);
    }
  }

  method RecordWaits(waiters: map<string, set<string>>, name: string, service: Service)
    returns (after: map<string, set<string>>)
    requires forall target | target in waiters :: waiters[target] != {}
    ensures forall target :: Entry(after, target) ==
                             Entry(waiters, target) + (if WaitsForCompletion(service, target) then {name} else {})
    ensures forall target | target in after :: after[target] != {}
  {
    after := waiters;
    var pending := service.dependsOn.Keys;
    while pending != {}
      invariant pending <= service.dependsOn.Keys
      invariant forall target | target in after :: after[target] != {}
      invariant forall target :: Entry(after, target) == Entry(waiters, target) +
                                 (if WaitsForCompletion(service, target) && target !in pending then {name} else {})
    {
      var target :| target in pending;
      var spec := service.dependsOn[target];
      if spec != Unstructured && spec.condition == Some(WHEN_COMPLETED) {
        after := after[target := Entry(after, target) + {name}];
      }
      pending := pending - {target};
    }
  }

  // ---------------------------------------------------------------- the quickstart

  /** The services a quickstart starts: those not behind the full profile. */
  function Plan(compose: Services): Services {
    map name | name in compose && FULL_PROFILE !in compose[name].profiles :: compose[name]
  }

  function OverrideOf(quickstart: Services, name: string): map<string, nat> {
    if name in quickstart then quickstart[name].limits else map[]
  }

  /** A service's limits, with the quickstart's values replacing the base file's. */
  function Limits(compose: Services, quickstart: Services, name: string): map<string, nat>
    requires name in compose
  {
    compose[name].limits + OverrideOf(quickstart, name)
  }

  predicate Capped(compose: Services, quickstart: Services, resource: string) {
    forall name | name in Plan(compose) :: resource in Limits(compose, quickstart, name)
  }

  function Sizes(compose: Services, quickstart: Services, resource: string): map<string, nat>
    requires Capped(compose, quickstart, resource)
  {
    map name | name in Plan(compose) :: Limits(compose, quickstart, name)[resource]
  }

  /** A service the quickstart starts has a size when one of the two files declares one. */
  lemma CappedMeans(compose: Services, quickstart: Services, resource: string)
    ensures Capped(compose, quickstart, resource) <==>
            forall name | name in compose && "full" !in compose[name].profiles ::
              resource in compose[name].limits || (name in quickstart && resource in quickstart[name].limits)
  {
    assert Plan(compose).Keys == set name | name in compose && "full" !in compose[name].profiles;
    forall name | name in Plan(compose)
      ensures resource in Limits(compose, quickstart, name) <==>
              resource in compose[name].limits || (name in quickstart && resource in quickstart[name].limits)
    {
    }
  }

  /** And it is the quickstart's if the quickstart declares it, or else the base file's. */
  lemma SizesMean(compose: Services, quickstart: Services, resource: string)
    requires Capped(compose, quickstart, resource)
    ensures forall name :: name in Sizes(compose, quickstart, resource) <==>
                           name in compose && "full" !in compose[name].profiles
    ensures forall name | name in Sizes(compose, quickstart, resource) ::
              if name in quickstart && resource in quickstart[name].limits
              then Sizes(compose, quickstart, resource)[name] == quickstart[name].limits[resource]
              else resource in compose[name].limits
                   && Sizes(compose, quickstart, resource)[name] == compose[name].limits[resource]
  {
    var sizes := Sizes(compose, quickstart, resource);
    forall name ensures name in sizes <==> name in compose && "full" !in compose[name].profiles {
    }
    forall name | name in sizes
      ensures if name in quickstart && resource in quickstart[name].limits
              then sizes[name] == quickstart[name].limits[resource]
              else resource in compose[name].limits && sizes[name] == compose[name].limits[resource]
    {
      assert name in Plan(compose);
    }
  }

  /** The services not behind the full profile, each with what either file declares for it: the
      quickstart's value if it declares one. */
  ghost predicate Overridden(compose: Services, quickstart: Services, merged: map<string, map<string, nat>>) {
    && (forall name :: name in merged <==> name in compose && "full" !in compose[name].profiles)
    && (forall name, resource | name in merged ::
          resource in merged[name] <==>
          resource in compose[name].limits || (name in quickstart && resource in quickstart[name].limits))
    && (forall name, resource | name in merged && resource in merged[name] ::
          merged[name][resource] ==
          if name in quickstart && resource in quickstart[name].limits then quickstart[name].limits[resource]
          else compose[name].limits[resource])
  }

  lemma LimitsAreOverridden(compose: Services, quickstart: Services, merged: map<string, map<string, nat>>)
    requires merged.Keys == Plan(compose).Keys
    requires forall name | name in merged :: merged[name] == Limits(compose, quickstart, name)
    ensures Overridden(compose, quickstart, merged)
  {
  }

  method QuickstartServices(compose: Services, quickstart: Services) returns (merged: map<string, map<string, nat>>)
    ensures merged.Keys == Plan(compose).Keys
    ensures forall name | name in merged :: merged[name] == Limits(compose, quickstart, name)
    ensures Overridden(compose, quickstart, merged)
  {
    hide Overridden;
    merged := map[];
    var pending := compose.Keys;
    while pending != {}
      invariant pending <= compose.Keys
      invariant merged.Keys == Plan(compose).Keys - pending
      invariant forall name | name in merged :: merged[name] == Limits(compose, quickstart, name)
    {
      var name :| name in pending;
      pending := pending - {name};
      if FULL_PROFILE in compose[name].profiles {
        continue;
      }
      var limits := compose[name].limits;
      if name in quickstart {
        limits := limits + quickstart[name].limits;
      }
      merged := merged[name := limits];
    }
    LimitsAreOverridden(compose, quickstart, merged);
  }

  // ---------------------------------------------------------------- peak

  /** What one service is charged: its own size, less the smallest size waiting on it. */
  ghost function Charge(services: Services, sizes: map<string, nat>, name: string): nat
    requires name in sizes
  {
    var cheapest := Least(WaitersOf(services, name) * sizes.Keys, sizes);
    if sizes[name] <= cheapest then 0 else sizes[name] - cheapest
  }

  /** A service nothing with a size waits for to complete is charged its own size; another, what it has
      over the cheapest that does, and nothing if that is more. */
  lemma ChargeMeans(services: Services, sizes: map<string, nat>, name: string)
    requires name in sizes
    ensures (forall waiter | waiter in services && waiter in sizes :: !IsWaiting(services[waiter], name)) ==>
              Charge(services, sizes, name) == sizes[name]
    ensures forall cheapest | cheapest in services && cheapest in sizes && IsWaiting(services[cheapest], name)
                && (forall other | other in services && other in sizes && IsWaiting(services[other], name) ::
                      sizes[cheapest] <= sizes[other]) ::
              Charge(services, sizes, name)
              == if sizes[cheapest] < sizes[name] then sizes[name] - sizes[cheapest] else 0
  {
    var waiters := WaitersOf(services, name) * sizes.Keys;
    assert forall waiter :: waiter in waiters <==>
        waiter in services && waiter in sizes && IsWaiting(services[waiter], name);
  }

  ghost function Charges(services: Services, sizes: map<string, nat>): map<string, nat> {
    map name | name in sizes :: Charge(services, sizes, name)
  }

  ghost function PeakTotal(services: Services, sizes: map<string, nat>): nat {
    Sum(sizes.Keys, Charges(services, sizes))
  }

  datatype Envelope = Envelope(total: nat, charged: map<string, nat>)

  method Cheapest(names: set<string>, sizes: map<string, nat>) returns (least: nat)
    requires names <= sizes.Keys
    ensures least == Least(names, sizes)
  {
    var pending, some := names, false;
    least := 0;
    while pending != {}
      invariant pending <= names
      invariant some <==> pending != names
      invariant !some ==> least == 0
      invariant forall x | x in names - pending :: least <= sizes[x]
      invariant some ==> exists x :: x in names - pending && sizes[x] == least
    {
      var x :| x in pending;
      if !some || sizes[x] < least {
        least := sizes[x];
      }
      some, pending := true, pending - {x};
      assert x in names - pending;
    }
  }

  /** The envelope arithmetic. A service that declares no limit for the resource is a KeyError,
      reported by name. */
  method Peak(compose: Services, quickstart: Services, resource: string) returns (r: Result<Envelope, string>)
    ensures r.Ok? <==> Capped(compose, quickstart, resource)
    ensures r.Ok? ==> forall name :: name in r.value.charged <==> name in compose && "full" !in compose[name].profiles
    ensures r.Err? ==> r.error in compose && "full" !in compose[r.error].profiles
                       && resource !in compose[r.error].limits
                       && (r.error in quickstart ==> resource !in quickstart[r.error].limits)
    ensures r.Ok? ==>
              var sizes := Sizes(compose, quickstart, resource);
              r.value == Envelope(PeakTotal(compose, sizes), Charges(compose, sizes))
    ensures r.Err? ==> r.error in Plan(compose) && resource !in Limits(compose, quickstart, r.error)
  {
    var sizes := QuickstartSizes(compose, quickstart, resource);
    if sizes.Err? {
      return Err(sizes.error);
    }
    var waiters := CompletionWaiters(compose);
    var charged := ChargeAll(sizes.value, waiters);
    ChargesFromTable(compose, sizes.value, waiters);
    assert charged.Keys == sizes.value.Keys;
    var total := TotalOf(charged);
    r := Ok(Envelope(total, charged));
  }

  method QuickstartSizes(compose: Services, quickstart: Services, resource: string)
    returns (r: Result<map<string, nat>, string>)
    ensures r.Ok? <==> Capped(compose, quickstart, resource)
    ensures r.Ok? ==> r.value == Sizes(compose, quickstart, resource)
    ensures r.Err? ==> r.error in Plan(compose) && resource !in Limits(compose, quickstart, r.error)
  {
    hide Limits, OverrideOf, Plan, Overridden;
    var limits := QuickstartServices(compose, quickstart);
    if name :| name in limits && resource !in limits[name] {
      r := Err(name);
    } else {
      r := Ok(map name | name in limits :: limits[name][resource]);
    }
  }

  method ChargeAll(sizes: map<string, nat>, waiters: map<string, set<string>>)
    returns (charged: map<string, nat>)
    ensures charged == map name | name in sizes :: Charged(waiters, sizes, name)
  {
    charged := map name | name in sizes && name !in waiters :: sizes[name];
    var pending := waiters.Keys * sizes.Keys;
    while pending != {}
      invariant pending <= waiters.Keys && pending <= sizes.Keys
      invariant charged.Keys == sizes.Keys - pending
      invariant forall name | name in charged :: charged[name] == Charged(waiters, sizes, name)
    {
      hide Least;
      var name :| name in pending;
      var cheapest := Cheapest(waiters[name] * sizes.Keys, sizes);
      charged := charged[name := if sizes[name] <= cheapest then 0 else sizes[name] - cheapest];
      pending := pending - {name};
    }
  }

  /** The charge, from the table of waiters rather than from the file. */
  ghost function Charged(waiters: map<string, set<string>>, sizes: map<string, nat>, name: string): nat
    requires name in sizes
  {
    if name !in waiters then sizes[name]
    else
      var cheapest := Least(waiters[name] * sizes.Keys, sizes);
      if sizes[name] <= cheapest then 0 else sizes[name] - cheapest
  }

  lemma ChargesFromTable(compose: Services, sizes: map<string, nat>, waiters: map<string, set<string>>)
    requires Tabulates(waiters, compose)
    ensures Charges(compose, sizes) == map name | name in sizes :: Charged(waiters, sizes, name)
  {
    forall name | name in sizes ensures Charge(compose, sizes, name) == Charged(waiters, sizes, name) {
      ChargeFromTable(compose, sizes, waiters, name);
    }
  }

  lemma ChargeFromTable(compose: Services, sizes: map<string, nat>, waiters: map<string, set<string>>, name: string)
    requires Tabulates(waiters, compose) && name in sizes
    ensures Charge(compose, sizes, name) == Charged(waiters, sizes, name)
  {
    hide WaitersOf;
    assert Entry(waiters, name) == WaitersOf(compose, name);
    if name !in waiters {
      assert WaitersOf(compose, name) * sizes.Keys == {};
    }
  }

  method TotalOf(charged: map<string, nat>) returns (total: nat)
    ensures total == Sum(charged.Keys, charged)
  {
    total := 0;
    var pending := charged.Keys;
    while pending != {}
      invariant pending <= charged.Keys
      invariant total + Sum(pending, charged) == Sum(charged.Keys, charged)
    {
      var name :| name in pending;
      SumTake(pending, charged, name);
      total := total + charged[name];
      pending := pending - {name};
    }
  }
}
