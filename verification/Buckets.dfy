/** The bucket provisioner: create each named bucket or find it there, in any interleaving. */
module Buckets {
  import opened Wrappers

  const OWNED := "BucketAlreadyOwnedByYou"
  const EXISTS := "BucketAlreadyExists"
  const ALREADY_PRESENT := {OWNED, EXISTS}

  datatype Outcome = Created | AlreadyPresent

  /** A reason not to create a bucket other than its being there. */
  type Refusal = code: string | code !in ALREADY_PRESENT witness "InvalidBucketName"

  /** What a store answers that does not depend on what has been created: the names it refuses, with
      the error code it gives, and the names of buckets that belong to someone else. */
  datatype Policy = Policy(refusals: map<string, Refusal>, foreign: set<string>)

  /** An object store, with the buckets that are one's own. */
  class Store {
    const policy: Policy
    var buckets: set<string>

    constructor (buckets: set<string>, policy: Policy)
      ensures this.buckets == buckets && this.policy == policy
    {
      this.buckets := buckets;
      this.policy := policy;
    }

    /** Every bucket that is there, whoever owns it. */
    function Present(): set<string>
      reads this
    {
      buckets + policy.foreign
    }

    method CreateBucket(bucket: string) returns (error: Option<string>)
      modifies this
      ensures error == if bucket in policy.refusals then Some(policy.refusals[bucket])
                       else if bucket in policy.foreign then Some("BucketAlreadyExists")
                       else if bucket in old(buckets) then Some("BucketAlreadyOwnedByYou")
                       else None
      ensures buckets == if error.None? then old(buckets) + {bucket} else old(buckets)
    {
      if bucket in policy.refusals {
        return Some(policy.refusals[bucket]);
      }
      if bucket in policy.foreign {
        return Some("BucketAlreadyExists");
      }
      error := if bucket in buckets then Some("BucketAlreadyOwnedByYou") else None;
      buckets := buckets + {bucket};
    }
  }

  /** Create one bucket if it is absent; every refusal but the two codes is raised. A bucket that passes is
      there, and it is one's own if and only if it is not someone else's: both codes pass for present. */
  method Ensure(store: Store, bucket: string) returns (r: Result<Outcome, string>)
    modifies store
    ensures r.Err? <==> bucket in store.policy.refusals
    ensures r.Err? ==> r.error == store.policy.refusals[bucket]
    ensures r == Ok(Created) <==> r.Ok? && bucket !in old(store.Present())
    ensures store.buckets == old(store.buckets) + if r == Ok(Created) then {bucket} else {}
    ensures r.Ok? ==> store.Present() == old(store.Present()) + {bucket}
    ensures old(store.buckets) !! store.policy.foreign ==>
              && store.buckets !! store.policy.foreign
              && (r.Ok? ==> (bucket in store.buckets <==> bucket !in store.policy.foreign))
  {
    var error := store.CreateBucket(bucket);
    if error.None? {
      return Ok(Created);
    }
    if error.value !in ALREADY_PRESENT {
      return Err(error.value);
    }
    r := Ok(AlreadyPresent);
  }

  /** How many of the names are handled before one raises. */
  function Reach(policy: Policy, names: seq<string>): (n: nat)
    ensures n <= |names| && (forall i | 0 <= i < n :: names[i] !in policy.refusals)
    ensures n < |names| ==> names[n] in policy.refusals
  {
    if names == [] || names[0] in policy.refusals then 0 else 1 + Reach(policy, names[1..])
  }

  datatype Exit = Status(code: int) | Raised(error: string)

  /** The provisioner. Without names or an endpoint it refuses; otherwise it goes down the list, and
      what is there afterwards is what was there and every name up to the first that raises. */
  method Provision(store: Store, names: seq<string>, endpoint: Option<string>) returns (exit: Exit)
    modifies store
    ensures names == [] || endpoint.None? || endpoint.value == "" ==>
              exit == Status(2) && store.buckets == old(store.buckets)
    ensures names != [] && endpoint.Some? && endpoint.value != "" ==>
              var n := Reach(store.policy, names);
              && exit == (if n == |names| then Status(0) else Raised(store.policy.refusals[names[n]]))
              && store.Present() == old(store.Present()) + set name | name in names[..n]
  {
    if names == [] || endpoint.None? || endpoint.value == "" {
      return Status(2);
    }
    for i := 0 to |names|
      invariant forall k | 0 <= k < i :: names[k] !in store.policy.refusals
      invariant store.Present() == old(store.Present()) + set name | name in names[..i]
    {
      assert names[..i + 1] == names[..i] + [names[i]];
      var r := Ensure(store, names[i]);
      if r.Err? {
        return Raised(r.error);
      }
    }
    assert names[..|names|] == names;
    exit := Status(0);
  }

  // ---------------------------------------------------------------- any number at once

  /** Any number of provisioners at work: one's own buckets, and how many names each has got through. */
  datatype State = State(buckets: set<string>, done: map<nat, nat>)

  type Lists = map<nat, seq<string>>

  predicate CanStep(lists: Lists, policy: Policy, s: State, client: nat) {
    && client in lists && client in s.done && s.done[client] < |lists[client]|
    && lists[client][s.done[client]] !in policy.refusals
  }

  function Step(lists: Lists, policy: Policy, s: State, client: nat): State
    requires CanStep(lists, policy, s, client)
  {
    var name := lists[client][s.done[client]];
    State(if name in policy.foreign then s.buckets else s.buckets + {name}, s.done[client := s.done[client] + 1])
  }

  /** A schedule: which provisioner takes each step. One that cannot step loses its turn, and one that
      crashes has none from then on. */
  function Play(lists: Lists, policy: Policy, s: State, schedule: seq<nat>): State {
    if schedule == [] then s
    else
      var before := Play(lists, policy, s, schedule[..|schedule| - 1]);
      var client := schedule[|schedule| - 1];
      if CanStep(lists, policy, before, client) then Step(lists, policy, before, client) else before
  }

  /** Every provisioner has ended: at its last name, or at one that raised. */
  predicate Ended(lists: Lists, policy: Policy, s: State) {
    forall client | client in lists :: !CanStep(lists, policy, s, client)
  }

  /** No provisioner gets past a name that raises. */
  predicate Within(lists: Lists, policy: Policy, s: State) {
    s.done.Keys == lists.Keys && forall client | client in lists :: s.done[client] <= Reach(policy, lists[client])
  }

  /** What the provisioners have made between them, read off how far each has got. */
  function MadeBy(lists: Lists, policy: Policy, done: map<nat, nat>): set<string> {
    set client, i | client in lists && client in done && 0 <= i < done[client] && i < |lists[client]|
      && lists[client][i] !in policy.foreign :: lists[client][i]
  }

  function Beginning(lists: Lists, buckets: set<string>): State {
    State(buckets, map client | client in lists :: 0)
  }

  /** Whatever the interleaving, the store holds what it held and what has been got through: nothing
      is lost, and the order of the steps leaves no trace. */
  lemma {:induction false} SchedulesOnlyAdd(lists: Lists, policy: Policy, buckets: set<string>, schedule: seq<nat>)
    ensures var s := Play(lists, policy, Beginning(lists, buckets), schedule);
            Within(lists, policy, s) && s.buckets == buckets + MadeBy(lists, policy, s.done)
  {
    if schedule == [] {
      assert MadeBy(lists, policy, Beginning(lists, buckets).done) == {};
    } else {
      var shorter, client := schedule[..|schedule| - 1], schedule[|schedule| - 1];
      SchedulesOnlyAdd(lists, policy, buckets, shorter);
      var before := Play(lists, policy, Beginning(lists, buckets), shorter);
      if CanStep(lists, policy, before, client) {
        StepAdds(lists, policy, before, client);
      }
    }
  }

  lemma StepAdds(lists: Lists, policy: Policy, s: State, client: nat)
    requires Within(lists, policy, s) && CanStep(lists, policy, s, client)
    ensures Within(lists, policy, Step(lists, policy, s, client))
    ensures var name := lists[client][s.done[client]];
            MadeBy(lists, policy, Step(lists, policy, s, client).done) ==
            MadeBy(lists, policy, s.done) + if name in policy.foreign then {} else {name}
  {
    var at := s.done[client];
    var after := Step(lists, policy, s, client).done;
    forall name | name in MadeBy(lists, policy, s.done) ensures name in MadeBy(lists, policy, after) {
      var c, i :| c in lists && c in s.done && 0 <= i < s.done[c] && i < |lists[c]|
        && lists[c][i] !in policy.foreign && lists[c][i] == name;
      assert i < after[c];
    }
    if lists[client][at] !in policy.foreign {
      assert at < after[client];
    }
  }

  /** Whatever the interleaving, a name that a provisioner has got through is one's own if and only if it is
      not someone else's. */
  lemma OwnedExactly(lists: Lists, policy: Policy, buckets: set<string>, schedule: seq<nat>, client: nat, i: nat)
    requires buckets !! policy.foreign
    requires var s := Play(lists, policy, Beginning(lists, buckets), schedule);
             client in lists && client in s.done && i < s.done[client]
    ensures var s := Play(lists, policy, Beginning(lists, buckets), schedule);
            && s.buckets !! policy.foreign && i < |lists[client]|
            && (lists[client][i] in s.buckets <==> lists[client][i] !in policy.foreign)
  {
    hide Play;
    SchedulesOnlyAdd(lists, policy, buckets, schedule);
  }

  /** A provisioner that has ended has got exactly as far as it can. */
  lemma EndedExactly(lists: Lists, policy: Policy, s: State)
    requires Within(lists, policy, s)
    ensures Ended(lists, policy, s) <==>
            forall client | client in lists :: s.done[client] == Reach(policy, lists[client])
  {
    forall client | client in lists
      ensures CanStep(lists, policy, s, client) <==> s.done[client] < Reach(policy, lists[client])
    {
    }
  }

  /** Any two interleavings in which every provisioner ends, at its last name or at one that raises,
      leave the same store and have got equally far. */
  lemma InterleavingsAgree(lists: Lists, policy: Policy, buckets: set<string>, one: seq<nat>, other: seq<nat>)
    requires Ended(lists, policy, Play(lists, policy, Beginning(lists, buckets), one))
    requires Ended(lists, policy, Play(lists, policy, Beginning(lists, buckets), other))
    ensures Play(lists, policy, Beginning(lists, buckets), one) == Play(lists, policy, Beginning(lists, buckets), other)
  {
    hide MadeBy, Play;
    SchedulesOnlyAdd(lists, policy, buckets, one);
    SchedulesOnlyAdd(lists, policy, buckets, other);
    var a := Play(lists, policy, Beginning(lists, buckets), one);
    var b := Play(lists, policy, Beginning(lists, buckets), other);
    EndedExactly(lists, policy, a);
    EndedExactly(lists, policy, b);
    assert a.done == b.done;
  }

  /** Recovery: whatever a first round left, stopped or crashed anywhere, a second round that ends leaves
      the store that one undisturbed round leaves. */
  lemma RerunsRecover(
    lists: Lists, policy: Policy, buckets: set<string>, first: seq<nat>, again: seq<nat>, undisturbed: seq<nat>)
    requires Ended(lists, policy, Play(lists, policy, Beginning(lists, buckets), undisturbed))
    requires var left := Play(lists, policy, Beginning(lists, buckets), first).buckets;
             Ended(lists, policy, Play(lists, policy, Beginning(lists, left), again))
    ensures var left := Play(lists, policy, Beginning(lists, buckets), first).buckets;
            Play(lists, policy, Beginning(lists, left), again).buckets
            == Play(lists, policy, Beginning(lists, buckets), undisturbed).buckets
  {
    hide Play, MadeBy;
    var begun := Play(lists, policy, Beginning(lists, buckets), first);
    var rerun := Play(lists, policy, Beginning(lists, begun.buckets), again);
    var whole := Play(lists, policy, Beginning(lists, buckets), undisturbed);
    SchedulesOnlyAdd(lists, policy, buckets, first);
    SchedulesOnlyAdd(lists, policy, begun.buckets, again);
    SchedulesOnlyAdd(lists, policy, buckets, undisturbed);
    EndedExactly(lists, policy, rerun);
    EndedExactly(lists, policy, whole);
    assert rerun.done == whole.done;
    FurtherMakesMore(lists, policy, begun.done, whole.done);
  }

  /** And over a store that a round has ended on, no schedule changes anything. */
  lemma AgainChangesNothing(lists: Lists, policy: Policy, buckets: set<string>, first: seq<nat>, again: seq<nat>)
    requires Ended(lists, policy, Play(lists, policy, Beginning(lists, buckets), first))
    ensures var after := Play(lists, policy, Beginning(lists, buckets), first).buckets;
            Play(lists, policy, Beginning(lists, after), again).buckets == after
  {
    hide Play, MadeBy;
    var whole := Play(lists, policy, Beginning(lists, buckets), first);
    SchedulesOnlyAdd(lists, policy, buckets, first);
    EndedExactly(lists, policy, whole);
    SchedulesOnlyAdd(lists, policy, whole.buckets, again);
    var s := Play(lists, policy, Beginning(lists, whole.buckets), again);
    FurtherMakesMore(lists, policy, s.done, whole.done);
  }

  lemma FurtherMakesMore(lists: Lists, policy: Policy, some: map<nat, nat>, more: map<nat, nat>)
    requires some.Keys == more.Keys == lists.Keys
    requires forall client | client in lists :: some[client] <= more[client]
    ensures MadeBy(lists, policy, some) <= MadeBy(lists, policy, more)
  {
    forall name | name in MadeBy(lists, policy, some) ensures name in MadeBy(lists, policy, more) {
      var c, i :| c in lists && c in some && 0 <= i < some[c] && i < |lists[c]|
        && lists[c][i] !in policy.foreign && lists[c][i] == name;
      assert i < more[c];
    }
  }

  /** A bucket of someone else's passes for present: the provisioner gets through its list and owns none
      of it. */
  lemma ForeignBucketPasses()
    ensures var lists, policy := map[0 := ["b"]], Policy(map[], {"b"});
            var s := Play(lists, policy, Beginning(lists, {}), [0]);
            Ended(lists, policy, s) && s.done[0] == 1 && s.buckets == {}
  {
    var lists, policy := map[0 := ["b"]], Policy(map[], {"b"});
    var start := Beginning(lists, {});
    assert [0][..0] == [] && Play(lists, policy, start, []) == start;
    assert Play(lists, policy, start, [0]) == Step(lists, policy, start, 0);
  }
}
