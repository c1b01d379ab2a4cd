/** What one poll does to the stored refresh times, told as steps of the lease. */
module Polling {
  import opened Policies
  import opened Strings
  import Lease = RefreshLease

  /** The readings of the wall clock, one after another. */
  type Clock = nat -> Time

  ghost predicate Monotone(clock: Clock) {
    forall i, j :: 0 <= i <= j ==> clock(i) <= clock(j)
  }

  function Times(store: map<string, Policy>): map<string, Time> {
    map k | k in store :: store[k].nextDataRefreshTime
  }

  function Configs(store: map<string, Policy>): map<string, string> {
    map k | k in store :: store[k].dataConfig
  }

  /** The store after a next refresh time is written; unknown policies are left alone. */
  function WithNextTime(store: map<string, Policy>, id: Identity, t: Time): map<string, Policy> {
    var key := ConstructKey(id);
    if key in store then store[key := store[key].(nextDataRefreshTime := t)] else store
  }

  /** The refresh schedule the store keeps, and a clock that has reached the last step. */
  ghost predicate Tracks(store: map<string, Policy>, now: Time, s: Lease.State) {
    s.next == Times(store) && s.config == Configs(store) && s.now <= now
  }

  lemma TimeWritten(store: map<string, Policy>, key: string, t: Time)
    requires key in store
    ensures
      var after := store[key := store[key].(nextDataRefreshTime := t)];
      Times(after) == Times(store)[key := t] && Configs(after) == Configs(store)
  {
  }

  /** Only refresh times differ. */
  ghost predicate SamePolicies(before: map<string, Policy>, after: map<string, Policy>) {
    && after.Keys == before.Keys
    && forall k :: k in before ==> after[k] == before[k].(nextDataRefreshTime := after[k].nextDataRefreshTime)
  }

  lemma SameAfterTime(before: map<string, Policy>, store: map<string, Policy>, key: string, t: Time)
    requires SamePolicies(before, store) && key in store
    ensures SamePolicies(before, store[key := store[key].(nextDataRefreshTime := t)])
  {
  }

  function Postponed(store: map<string, Policy>, key: string, at: Time): map<string, Policy>
    requires key in store
  {
    store[key := store[key].(nextDataRefreshTime := at + Lease.REFRESH_POSTPONE_PERIOD)]
  }

  ghost predicate Claimed(steps: seq<Lease.Step>, key: string) {
    exists i :: 0 <= i < |steps| && steps[i].Acquire? && steps[i].key == key
  }

  /** What is still to be visited is as it was, and nothing but refresh times has changed. */
  ghost predicate Unvisited(before: map<string, Policy>, todo: set<string>, store: map<string, Policy>) {
    && todo <= before.Keys && SamePolicies(before, store)
    && (forall k :: k in todo ==> store[k] == before[k])
  }

  /** The steps are legal claims of different policies, and they account for the store. */
  ghost predicate Accounted(env: Lease.RefreshEnv, s: Lease.State, first: nat,
                            store: map<string, Policy>, now: Time, steps: seq<Lease.Step>)
  {
    && Lease.Legal(env, s, steps) && Lease.PollSteps(steps, first)
    && Tracks(store, now, Lease.Exec(env, s, steps))
  }

  /** Only visited policies are claimed, and every visited one that was due at the start is. */
  ghost predicate Complete(before: map<string, Policy>, start: Time, todo: set<string>, steps: seq<Lease.Step>) {
    && (forall i :: 0 <= i < |steps| ==> steps[i].Acquire? && steps[i].key in before && steps[i].key !in todo)
    && (forall k :: k in before && k !in todo && ZERO_TIME < before[k].nextDataRefreshTime < start ==> Claimed(steps, k))
  }

  /** A poll that started on `before` at `start` and has still to visit `todo`. */
  ghost predicate Polled(env: Lease.RefreshEnv, s: Lease.State, first: nat,
                         before: map<string, Policy>, start: Time, todo: set<string>,
                         store: map<string, Policy>, now: Time, steps: seq<Lease.Step>)
  {
    && Unvisited(before, todo, store)
    && Accounted(env, s, first, store, now, steps)
    && Complete(before, start, todo, steps)
  }

  lemma PollStarts(env: Lease.RefreshEnv, s: Lease.State, first: nat, before: map<string, Policy>, start: Time)
    requires Tracks(before, start, s)
    ensures Polled(env, s, first, before, start, before.Keys, before, start, [])
  {
  }

  lemma PollSkips(env: Lease.RefreshEnv, s: Lease.State, first: nat,
                  before: map<string, Policy>, start: Time, todo: set<string>,
                  store: map<string, Policy>, now: Time, steps: seq<Lease.Step>,
                  key: string, due: Time, later: Time)
    requires Polled(env, s, first, before, start, todo, store, now, steps)
    requires key in todo && start <= now <= due <= later && !(ZERO_TIME < store[key].nextDataRefreshTime < due)
    ensures Polled(env, s, first, before, start, todo - {key}, store, later, steps)
  {
  }

  lemma ClaimAccounted(env: Lease.RefreshEnv, n: Lease.State, store: map<string, Policy>, now: Time,
                       claim: nat, key: string, due: Time, at: Time, later: Time)
    requires Tracks(store, now, n) && key in store && claim !in n.claims
    requires now <= due <= at <= later && ZERO_TIME < store[key].nextDataRefreshTime < due
    ensures Lease.Enabled(n, Lease.Acquire(claim, key, due, at))
    ensures Tracks(Postponed(store, key, at), later, Lease.Apply(env, n, Lease.Acquire(claim, key, due, at)))
  {
    TimeWritten(store, key, at + Lease.REFRESH_POSTPONE_PERIOD);
  }

  lemma ClaimNumbered(steps: seq<Lease.Step>, first: nat, step: Lease.Step)
    requires Lease.PollSteps(steps, first) && step.Acquire? && step.claim == first + |steps|
    requires forall i :: 0 <= i < |steps| ==> steps[i].key != step.key
    ensures Lease.PollSteps(steps + [step], first)
  {
  }

  lemma ClaimCompletes(before: map<string, Policy>, start: Time, todo: set<string>, steps: seq<Lease.Step>, step: Lease.Step)
    requires Complete(before, start, todo, steps) && step.Acquire? && step.key in todo && step.key in before
    ensures Complete(before, start, todo - {step.key}, steps + [step])
  {
    var all := steps + [step];
    assert all[|steps|] == step;
    forall k | k in before && k !in todo - {step.key} && ZERO_TIME < before[k].nextDataRefreshTime < start
      ensures Claimed(all, k)
    {
      if k != step.key {
        assert Claimed(steps, k);
        var i :| 0 <= i < |steps| && steps[i].Acquire? && steps[i].key == k;
        assert all[i] == steps[i];
      }
    }
  }

  lemma AccountsForClaim(env: Lease.RefreshEnv, s: Lease.State, first: nat,
                         store: map<string, Policy>, now: Time, steps: seq<Lease.Step>,
                         key: string, due: Time, at: Time, later: Time)
    requires Accounted(env, s, first, store, now, steps)
    requires Lease.NumberedBelow(s, first) && s.next.Keys == s.config.Keys
    requires forall i :: 0 <= i < |steps| ==> steps[i].Acquire? && steps[i].key != key
    requires key in store && now <= due <= at <= later && ZERO_TIME < store[key].nextDataRefreshTime < due
    ensures
      Accounted(env, s, first, Postponed(store, key, at), later, steps + [Lease.Acquire(first + |steps|, key, due, at)])
  {
    hide Lease.Legal, Lease.Exec, Lease.Apply, Lease.Enabled, Lease.HoldsAcquired, Lease.OnlyAcquired, Lease.PollSteps, Tracks;
    var step := Lease.Acquire(first + |steps|, key, due, at);
    var n := Lease.Exec(env, s, steps);
    Lease.PollAcquires(env, s, steps, first);
    assert first + |steps| !in n.claims;
    ClaimAccounted(env, n, store, now, first + |steps|, key, due, at, later);
    Lease.Then(env, s, steps, step);
    ClaimNumbered(steps, first, step);
  }

  lemma UnvisitedAfterClaim(before: map<string, Policy>, todo: set<string>, store: map<string, Policy>, key: string, at: Time)
    requires Unvisited(before, todo, store) && key in todo && key in store
    ensures Unvisited(before, todo - {key}, Postponed(store, key, at))
  {
    SameAfterTime(before, store, key, at + Lease.REFRESH_POSTPONE_PERIOD);
  }

  lemma PollClaims(env: Lease.RefreshEnv, s: Lease.State, first: nat,
                   before: map<string, Policy>, start: Time, todo: set<string>,
                   store: map<string, Policy>, now: Time, steps: seq<Lease.Step>,
                   key: string, due: Time, at: Time, later: Time)
    requires Polled(env, s, first, before, start, todo, store, now, steps)
    requires Lease.NumberedBelow(s, first) && s.next.Keys == s.config.Keys
    requires key in todo && now <= due <= at <= later && ZERO_TIME < store[key].nextDataRefreshTime < due
    ensures
      Polled(env, s, first, before, start, todo - {key}, Postponed(store, key, at), later,
             steps + [Lease.Acquire(first + |steps|, key, due, at)])
  {
    assert key in store;
    hide Lease.NumberedBelow, Accounted, SamePolicies, Claimed;
    var step := Lease.Acquire(first + |steps|, key, due, at);
    AccountsForClaim(env, s, first, store, now, steps, key, due, at, later);
    hide Unvisited;
    UnvisitedAfterClaim(before, todo, store, key, at);
    ClaimCompletes(before, start, todo, steps, step);
  }

  // ------------------------------------------------------------------------
  // The visits of a poll
  // ------------------------------------------------------------------------

  /** One policy a poll looks at: the reading its refresh time is compared with, and the one it is
      postponed from if it is due. */
  datatype Visit = Visit(key: string, due: Time, at: Time)

  predicate IsDue(store: map<string, Policy>, v: Visit) {
    v.key in store && ZERO_TIME < store[v.key].nextDataRefreshTime < v.due
  }

  function AfterVisit(store: map<string, Policy>, v: Visit): map<string, Policy> {
    if IsDue(store, v) then Postponed(store, v.key, v.at) else store
  }

  function AfterVisits(before: map<string, Policy>, visits: seq<Visit>): map<string, Policy>
    decreases |visits|
  {
    if visits == [] then before else AfterVisit(AfterVisits(before, Front(visits)), Last(visits))
  }

  /** The policies that were due, as they were, in the order of the visits. */
  function Copies(before: map<string, Policy>, visits: seq<Visit>): seq<Policy>
    decreases |visits|
  {
    if visits == [] then []
    else
      var v := Last(visits);
      Copies(before, Front(visits)) + (if IsDue(before, v) then [before[v.key]] else [])
  }

  function Steps(before: map<string, Policy>, visits: seq<Visit>, first: nat): seq<Lease.Step>
    decreases |visits|
  {
    if visits == [] then []
    else
      var v, done := Last(visits), Steps(before, Front(visits), first);
      if IsDue(before, v) then done + [Lease.Acquire(first + |done|, v.key, v.due, v.at)] else done
  }

  /** The visits happen one after another between two moments. */
  predicate InOrder(visits: seq<Visit>, start: Time, end: Time)
    decreases |visits|
  {
    if visits == [] then start <= end
    else
      var v := Last(visits);
      InOrder(Front(visits), start, v.due) && v.due <= v.at <= end
  }

  lemma {:induction false} InOrderUntil(visits: seq<Visit>, start: Time, end: Time, later: Time)
    requires InOrder(visits, start, end) && end <= later
    ensures InOrder(visits, start, later) && start <= end
    decreases |visits|
  {
    if visits != [] {
      InOrderUntil(Front(visits), start, Last(visits).due, Last(visits).due);
    }
  }

  function Keys(visits: seq<Visit>): set<string>
    decreases |visits|
  {
    if visits == [] then {} else Keys(Front(visits)) + {Last(visits).key}
  }

  /** Every policy is visited at most once. */
  predicate Once(visits: seq<Visit>)
    decreases |visits|
  {
    visits == [] || (Once(Front(visits)) && Last(visits).key !in Keys(Front(visits)))
  }

  lemma NoVisits(before: map<string, Policy>, start: Time)
    ensures AfterVisits(before, []) == before && Copies(before, []) == [] && Keys([]) == {}
    ensures Once([]) && InOrder([], start, start)
  {
  }

  /** What one more visit adds. */
  lemma OneMoreVisit(before: map<string, Policy>, visits: seq<Visit>, v: Visit, first: nat)
    ensures
      var more, done := visits + [v], Steps(before, visits, first);
      && AfterVisits(before, more) == AfterVisit(AfterVisits(before, visits), v)
      && Copies(before, more) == Copies(before, visits) + (if IsDue(before, v) then [before[v.key]] else [])
      && Steps(before, more, first) == (if IsDue(before, v) then done + [Lease.Acquire(first + |done|, v.key, v.due, v.at)] else done)
      && Keys(more) == Keys(visits) + {v.key}
  {
    assert Front(visits + [v]) == visits && Last(visits + [v]) == v;
  }

  lemma OneMoreInOrder(visits: seq<Visit>, v: Visit, start: Time, now: Time, end: Time)
    requires InOrder(visits, start, now) && now <= v.due <= v.at <= end
    requires Once(visits) && v.key !in Keys(visits)
    ensures InOrder(visits + [v], start, end) && Once(visits + [v])
  {
    InOrderUntil(visits, start, now, v.due);
    assert Front(visits + [v]) == visits && Last(visits + [v]) == v;
  }

  lemma PollVisits(env: Lease.RefreshEnv, s: Lease.State, first: nat,
                   before: map<string, Policy>, start: Time, todo: set<string>,
                   store: map<string, Policy>, now: Time, steps: seq<Lease.Step>, v: Visit, end: Time)
    requires Polled(env, s, first, before, start, todo, store, now, steps)
    requires Lease.NumberedBelow(s, first) && s.next.Keys == s.config.Keys
    requires v.key in todo && start <= now <= v.due <= v.at <= end
    ensures
      var more := if IsDue(before, v) then steps + [Lease.Acquire(first + |steps|, v.key, v.due, v.at)] else steps;
      Polled(env, s, first, before, start, todo - {v.key}, AfterVisit(store, v), end, more)
  {
    assert store[v.key] == before[v.key];
    if IsDue(before, v) {
      PollClaims(env, s, first, before, start, todo, store, now, steps, v.key, v.due, v.at, end);
    } else {
      PollSkips(env, s, first, before, start, todo, store, now, steps, v.key, v.due, end);
    }
  }

  lemma {:induction false} CopiesMatchSteps(before: map<string, Policy>, visits: seq<Visit>, first: nat)
    ensures |Copies(before, visits)| == |Steps(before, visits, first)|
    ensures forall i :: 0 <= i < |Copies(before, visits)| ==>
              && Steps(before, visits, first)[i].Acquire? && Steps(before, visits, first)[i].key in before
              && Copies(before, visits)[i] == before[Steps(before, visits, first)[i].key]
    decreases |visits|
  {
    if visits != [] {
      CopiesMatchSteps(before, Front(visits), first);
    }
  }

  /** The visits of a poll are legal claims that account for what it did to the store. */
  lemma {:induction false} VisitsArePoll(env: Lease.RefreshEnv, s: Lease.State, first: nat,
                                         before: map<string, Policy>, start: Time, visits: seq<Visit>, end: Time)
    requires Tracks(before, start, s) && Lease.NumberedBelow(s, first)
    requires InOrder(visits, start, end) && Once(visits) && Keys(visits) <= before.Keys
    ensures
      Polled(env, s, first, before, start, before.Keys - Keys(visits),
             AfterVisits(before, visits), end, Steps(before, visits, first))
    decreases |visits|
  {
    hide Polled;
    if visits == [] {
      PollStarts(env, s, first, before, start);
      PollWaits(env, s, first, before, start, before.Keys, before, start, [], end);
      assert before.Keys - Keys(visits) == before.Keys;
    } else {
      var front, v := Front(visits), Last(visits);
      var todo := before.Keys - Keys(front);
      VisitsArePoll(env, s, first, before, start, front, v.due);
      InOrderUntil(front, start, v.due, v.due);
      assert AfterVisits(before, visits) == AfterVisit(AfterVisits(before, front), v);
      PollVisits(env, s, first, before, start, todo, AfterVisits(before, front), v.due, Steps(before, front, first), v, end);
      assert todo - {v.key} == before.Keys - Keys(visits);
    }
  }

  lemma PollWaits(env: Lease.RefreshEnv, s: Lease.State, first: nat,
                  before: map<string, Policy>, start: Time, todo: set<string>,
                  store: map<string, Policy>, now: Time, steps: seq<Lease.Step>, later: Time)
    requires Polled(env, s, first, before, start, todo, store, now, steps) && now <= later
    ensures Polled(env, s, first, before, start, todo, store, later, steps)
  {
  }
}
