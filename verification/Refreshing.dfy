/** The data refresher: polls the storage and executes the refreshes it claimed. */
module Refreshing {
  import opened Wrappers
  import opened Policies
  import opened Polling
  import opened Heap
  import Lease = RefreshLease

  /** The outcome of a refresh request: no response, or a status and a body that may be unreadable. */
  datatype Response = NoResponse | Response(status: int, body: Option<string>)

  const STATUS_OK := 200

  /** The store after one execution, whose clock showed t. */
  function Refreshed(env: Lease.RefreshEnv, store: map<string, Policy>, p: Policy, t: Time): map<string, Policy> {
    WithNextTime(store, p.Id(), Lease.NextTime(env, p.dataConfig, t))
  }

  /** Every policy handed out is stored under its key, with the configuration its claim was taken with. */
  ghost predicate HandedOut(env: Lease.RefreshEnv, s: Lease.State, first: nat, claims: seq<Lease.Step>,
                            policies: seq<Policy>, store: map<string, Policy>)
    requires Lease.Legal(env, s, claims)
  {
    && |policies| == |claims| && Lease.PollSteps(claims, first) && Lease.NumberedBelow(s, first)
    && Lease.HoldsAcquired(s, Lease.Exec(env, s, claims), claims, first, 0)
    && Lease.NumberedBelow(Lease.Exec(env, s, claims), first + |claims|)
    && forall i :: 0 <= i < |claims| ==>
         && claims[i].key == ConstructKey(policies[i].Id()) && claims[i].key in store && claims[i].key in s.config
         && s.config[claims[i].key] == policies[i].dataConfig
  }

  lemma PollHandsOut(env: Lease.RefreshEnv, s: Lease.State, first: nat,
                     before: map<string, Policy>, start: Time, visits: seq<Visit>, end: Time)
    requires Tracks(before, start, s) && Lease.NumberedBelow(s, first) && Keyed(before)
    requires InOrder(visits, start, end) && Once(visits) && Keys(visits) == before.Keys
    ensures
      var claims, store := Steps(before, visits, first), AfterVisits(before, visits);
      && Lease.Legal(env, s, claims) && Tracks(store, end, Lease.Exec(env, s, claims))
      && HandedOut(env, s, first, claims, Copies(before, visits), store)
      && forall k :: k in before && ZERO_TIME < before[k].nextDataRefreshTime < start ==> Claimed(claims, k)
  {
    hide Lease.HoldsAcquired, Lease.OnlyAcquired, Lease.NumberedBelow, Lease.Legal, Lease.Exec, Lease.PollSteps;
    hide Steps, Copies, AfterVisits, Claimed, InOrder, Once;
    VisitsArePoll(env, s, first, before, start, visits, end);
    CopiesMatchSteps(before, visits, first);
    Lease.PollAcquires(env, s, Steps(before, visits, first), first);
  }

  /** The claim c is one on the policy, taken with the configuration that the copy carries. */
  ghost predicate Holds(n: Lease.State, c: nat, p: Policy) {
    c in n.claims && n.claims[c].key == ConstructKey(p.Id()) && n.claims[c].config == p.dataConfig
  }

  /** Whatever other refreshers have claimed, settled or imported since the claim was taken, an execution that
      reads its clock at t and has written by `now` is the settlement of that claim. */
  lemma SettleHeld(env: Lease.RefreshEnv, n: Lease.State, c: nat, store: map<string, Policy>, p: Policy, t: Time, now: Time)
    requires Holds(n, c, p) && n.claims[c].key in store
    requires n.claims[c].at <= t <= now && Tracks(store, t, n)
    ensures Lease.Enabled(n, Lease.Settle(c, t, now))
    ensures Tracks(Refreshed(env, store, p, t), now, Lease.Apply(env, n, Lease.Settle(c, t, now)))
  {
    TimeWritten(store, ConstructKey(p.Id()), Lease.NextTime(env, p.dataConfig, t));
  }

  /** The executions of one turn settle the claims of its poll one after another. */
  lemma SettleTracked(env: Lease.RefreshEnv, s: Lease.State, n: Lease.State, claims: seq<Lease.Step>, first: nat, i: nat,
                      store: map<string, Policy>, p: Policy, t: Time, now: Time) returns (m: Lease.State)
    requires Lease.PollSteps(claims, first) && i < |claims| && Lease.NumberedBelow(s, first)
    requires Lease.HoldsAcquired(s, n, claims, first, i) && Lease.NumberedBelow(n, first + |claims|)
    requires claims[i].key == ConstructKey(p.Id()) && claims[i].key in store && claims[i].key in s.config
    requires s.config[claims[i].key] == p.dataConfig
    requires Tracks(store, t, n) && t <= now
    ensures Lease.Enabled(n, Lease.Settle(first + i, t, now)) && m == Lease.Apply(env, n, Lease.Settle(first + i, t, now))
    ensures Tracks(Refreshed(env, store, p, t), now, m) && Refreshed(env, store, p, t).Keys == store.Keys
    ensures Lease.HoldsAcquired(s, m, claims, first, i + 1) && Lease.NumberedBelow(m, first + |claims|)
  {
    Lease.SettleNext(env, s, n, claims, first, i, t, now);
    m := Lease.Apply(env, n, Lease.Settle(first + i, t, now));
    SettleHeld(env, n, first + i, store, p, t, now);
  }

  lemma TracksLater(store: map<string, Policy>, now: Time, later: Time, n: Lease.State)
    requires Tracks(store, now, n) && now <= later
    ensures Tracks(store, later, n)
  {
  }

  /** A data configuration that leads to requests, told from its fields. */
  predicate Usable(env: Lease.RefreshEnv, config: string) {
    var c := env.parse(config);
    c.Some? && c.value.url != "" && c.value.httpMethod != "" && c.value.period != 0 && env.requestable(c.value)
  }

  /** The store with this next refresh time under the key, if it has the key. */
  function Scheduled(store: map<string, Policy>, key: string, next: Time): map<string, Policy> {
    if key in store then store[key := store[key].(nextDataRefreshTime := next)] else store
  }

  /** When it is due again after an execution whose clock showed t: after its period, or never. */
  function Due(env: Lease.RefreshEnv, config: string, t: Time): Time {
    if Usable(env, config) then t + env.parse(config).value.period else 0
  }

  lemma WrittenIsScheduled(store: map<string, Policy>, id: Identity)
    ensures forall next :: WithNextTime(store, id, next) == Scheduled(store, ConstructKey(id), next)
  {
  }

  /** The settlement of the lease writes the same. */
  lemma RefreshedIsScheduled(env: Lease.RefreshEnv, store: map<string, Policy>, p: Policy, t: Time)
    ensures Refreshed(env, store, p, t) == Scheduled(store, ConstructKey(p.Id()), Due(env, p.dataConfig, t))
  {
  }

  class Refresher {
    const storage: MemoryStorage
    const env: Lease.RefreshEnv
    const clock: Clock

    constructor (storage: MemoryStorage, env: Lease.RefreshEnv, clock: Clock)
      ensures this.storage == storage && this.env == env && this.clock == clock
    {
      this.storage, this.env, this.clock := storage, env, clock;
    }

    /** p is the copy the poll handed out. Every path writes the next refresh time; the memory storage
        does not store the data. */
    method Execute(p: Policy, response: Response, tick: nat) returns (refreshed: Policy, later: nat, ghost t: Time)
      requires storage.Valid() && Monotone(clock)
      modifies storage.policies.Values
      ensures storage.Valid() && clock(tick) == t <= clock(later)
      ensures storage.Store() == Scheduled(old(storage.Store()), ConstructKey(p.Id()), Due(env, p.dataConfig, t))
      ensures refreshed ==
              if Usable(env, p.dataConfig) && response.Response? && response.status == 200 && response.body.Some?
              then p.(data := response.body.value) else p
    {
      ghost var before := storage.Store();
      WrittenIsScheduled(before, p.Id());
      assert clock(tick) <= clock(tick + 1);
      hide WithNextTime, Scheduled, Usable, Monotone;
      t, refreshed, later := clock(tick), p, tick;
      var config := ReadConfig(p.dataConfig);
      if config.None? {
        var _ := storage.UpdateNextRefreshTime(p.Id(), ZERO_TIME);
        return;
      }
      later := tick + 1;
      if response.Response? && response.status == STATUS_OK && response.body.Some? {
        refreshed := p.(data := response.body.value);
      }
      var _ := storage.UpdateNextRefreshTime(p.Id(), clock(tick) + config.value.period);
    }

    /** The checks that each end an execution with the zero time: the configuration does not decode, lacks a
        required field, or no request can be made from it. */
    method ReadConfig(text: string) returns (config: Option<Lease.DataConfig>)
      ensures config == if Usable(env, text) then env.parse(text) else None
    {
      var parsed := env.parse(text);
      if parsed.None? {
        return None;
      }
      var c := parsed.value;
      if c.url == "" || c.period == 0 || c.httpMethod == "" {
        return None;
      }
      if !env.requestable(c) {
        return None;
      }
      return parsed;
    }

    /** One execution as a section of its own: any number of other refreshers may have polled, executed or saved
        since the claim was taken. It is the settlement of that claim in the lease. */
    method ExecuteHeld(p: Policy, response: Response, tick: nat, ghost n: Lease.State, ghost c: nat)
      returns (refreshed: Policy, later: nat, ghost settled: Lease.Step)
      requires storage.Valid() && Monotone(clock)
      requires Tracks(storage.Store(), clock(tick), n) && Holds(n, c, p) && n.claims[c].at <= clock(tick)
      requires n.claims[c].key in storage.Store()
      modifies storage.policies.Values
      ensures storage.Valid() && settled.Settle? && settled.claim == c && Lease.Enabled(n, settled)
      ensures Tracks(storage.Store(), clock(later), Lease.Apply(env, n, settled))
    {
      ghost var store := storage.Store();
      ghost var t;
      refreshed, later, t := Execute(p, response, tick);
      RefreshedIsScheduled(env, store, p, t);
      settled := Lease.Settle(c, t, clock(later));
      TracksLater(store, clock(tick), t, n);
      SettleHeld(env, n, c, store, p, t, clock(later));
    }

    /** The executions of one turn of the polling loop, each settling the claim of its policy. */
    method ExecuteAll(policies: seq<Policy>, respond: Policy -> Response, tick: nat,
                      ghost s: Lease.State, ghost first: nat, ghost claims: seq<Lease.Step>)
      returns (later: nat, ghost steps: seq<Lease.Step>)
      requires storage.Valid() && Monotone(clock)
      requires Lease.Legal(env, s, claims) && HandedOut(env, s, first, claims, policies, storage.Store())
      requires Tracks(storage.Store(), clock(tick), Lease.Exec(env, s, claims))
      modifies storage.policies.Values
      ensures storage.Valid() && Lease.Legal(env, s, steps)
      ensures Tracks(storage.Store(), clock(later), Lease.Exec(env, s, steps))
      ensures Lease.Exec(env, s, steps).claims == s.claims
      ensures claims <= steps && |steps| == 2 * |claims|
    {
      later, steps := tick, claims;
      ghost var n := Lease.Exec(env, s, steps);
      ghost var keys := storage.Store().Keys;
      hide Lease.HoldsAcquired, Lease.NumberedBelow, Lease.Legal, Lease.Exec, Lease.Apply, Lease.Enabled, Lease.PollSteps;
      hide Refreshed, Keyed, Times, Configs, Scheduled, Usable, Due;
      for i := 0 to |policies|
        invariant storage.Valid() && storage.Store().Keys == keys
        invariant Lease.Legal(env, s, steps) && n == Lease.Exec(env, s, steps)
        invariant claims <= steps && |steps| == |claims| + i
        invariant Tracks(storage.Store(), clock(later), n)
        invariant Lease.HoldsAcquired(s, n, claims, first, i) && Lease.NumberedBelow(n, first + |claims|)
      {
        var p := policies[i];
        ghost var store := storage.Store();
        var _, after, t := Execute(p, respond(p), later);
        RefreshedIsScheduled(env, store, p, t);
        ghost var step := Lease.Settle(first + i, t, clock(after));
        ghost var m := SettleTracked(env, s, n, claims, first, i, store, p, t, clock(after));
        Lease.Then(env, s, steps, step);
        steps, n, later := steps + [step], m, after;
      }
      Lease.AllSettled(s, n, claims, first);
    }

    /** One turn of the polling loop: claim what is due, then execute each claimed refresh. Told as steps
        of the lease it is legal, accounts for the store, claims everything that was due when it began,
        and leaves no claim behind. */
    method Poll(respond: Policy -> Response, tick: nat, ghost s: Lease.State, ghost first: nat)
      returns (later: nat, ghost claims: seq<Lease.Step>, ghost steps: seq<Lease.Step>)
      requires storage.Valid() && Monotone(clock)
      requires Tracks(storage.Store(), clock(tick), s) && Lease.NumberedBelow(s, first)
      modifies storage.policies.Values
      ensures storage.Valid() && Lease.Legal(env, s, steps)
      ensures Tracks(storage.Store(), clock(later), Lease.Exec(env, s, steps))
      ensures Lease.Exec(env, s, steps).claims == s.claims
      ensures claims <= steps && |steps| == 2 * |claims|
      ensures forall k :: k in old(storage.Store()) && ZERO_TIME < old(storage.Store())[k].nextDataRefreshTime < clock(tick) ==>
                Claimed(claims, k)
    {
      ghost var before := storage.Store();
      var policies, next, visits := storage.GetRefreshPolicies(clock, tick);
      claims := Steps(before, visits, first);
      PollHandsOut(env, s, first, before, clock(tick), visits, clock(next));
      later, steps := ExecuteAll(policies, respond, next, s, first, claims);
    }
  }
}
