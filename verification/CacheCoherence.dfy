/** When cached policies agree with the store, and what that means for the lock gate. */
module CacheCoherence {
  import opened Wrappers
  import opened Policies
  import opened Strings
  import opened CacheProtocol

  // ------------------------------------------------------------------------
  // Coherence of runs in which no event is dropped
  // ------------------------------------------------------------------------

  predicate AgreesWithStore(sh: Shared, id: Identity, p: Policy) {
    sh.Stored(id).Some? && sh.Stored(id).value.Agrees(p)
  }

  /** The policy agrees with the store, or an event of its own store key is outstanding, or there has been a
      purge since it was read. */
  predicate ExcusedAt(s: State, id: Identity, p: Policy, epoch: nat) {
    AgreesWithStore(s.sh, id, p) || s.sh.OutstandingFor(ConstructKey(id)) || epoch < s.purges
  }

  /** Every entry and every retrieve in flight of the policy under this store key is excused. */
  ghost predicate Coherent(s: State, key: string) {
    && (forall k :: k in s.sh.cache && k in s.origin && ConstructKey(s.origin[k].id) == key ==>
          ExcusedAt(s, s.origin[k].id, s.sh.cache[k], s.origin[k].epoch))
    && (forall r :: r in s.readers && s.readers[r].Fetched? && ConstructKey(s.readers[r].id) == key ==>
          ExcusedAt(s, s.readers[r].id, s.readers[r].pol, s.readers[r].epoch))
  }

  lemma ExcuseKept(s: State, step: Step, id: Identity, p: Policy, epoch: nat)
    requires Enabled(s, step) && step != Drop(ConstructKey(id)) && epoch <= s.purges
    requires ExcusedAt(s, id, p, epoch)
    ensures ExcusedAt(Apply(s, step), id, p, epoch)
  {
  }

  lemma CoherenceKept(s: State, step: Step, key: string)
    requires HistoryIsPast(s) && Coherent(s, key) && Enabled(s, step) && step != Drop(key)
    ensures Coherent(Apply(s, step), key)
  {
    var after := Apply(s, step);
    hide Apply, ExcusedAt;
    forall r | r in after.readers && after.readers[r].Fetched? && ConstructKey(after.readers[r].id) == key
      ensures ExcusedAt(after, after.readers[r].id, after.readers[r].pol, after.readers[r].epoch)
    {
      ReaderAfterStep(s, step, r);
      if r in s.readers && s.readers[r] == after.readers[r] {
        ExcuseKept(s, step, after.readers[r].id, after.readers[r].pol, after.readers[r].epoch);
      }
    }
    forall k | k in after.sh.cache && k in after.origin && ConstructKey(after.origin[k].id) == key
      ensures ExcusedAt(after, after.origin[k].id, after.sh.cache[k], after.origin[k].epoch)
    {
      EntryAfterStep(s, step, k);
      ExcuseKept(s, step, after.origin[k].id, after.sh.cache[k], after.origin[k].epoch);
    }
  }

  /** A step leaves a retrieve in flight alone, or has just read its policy from the store. */
  lemma ReaderAfterStep(s: State, step: Step, r: nat)
    requires Enabled(s, step) && r in Apply(s, step).readers && Apply(s, step).readers[r].Fetched?
    ensures
      var after := Apply(s, step);
      || (r in s.readers && s.readers[r] == after.readers[r])
      || ExcusedAt(after, after.readers[r].id, after.readers[r].pol, after.readers[r].epoch)
  {
  }

  /** Without a dropped event of the policy, a cached copy that differs from the store has an event of that
      very policy outstanding, or its writer had read it before the latest purge. Events of other policies
      may be waiting, delivered or dropped. */
  lemma {:induction false} StaleEntriesAreExcused(s: State, steps: seq<Step>, key: string)
    requires Init(s) && Legal(s, steps) && Drop(key) !in steps
    ensures Coherent(Exec(s, steps), key)
    ensures
      var n := Exec(s, steps);
      forall k :: k in n.sh.cache ==>
        && k in n.origin
        && (ConstructKey(n.origin[k].id) == key && !AgreesWithStore(n.sh, n.origin[k].id, n.sh.cache[k]) ==>
              n.sh.OutstandingFor(key) || n.origin[k].epoch < n.purges)
    decreases |steps|
  {
    OriginsArePast(s, steps);
    if steps != [] {
      StaleEntriesAreExcused(s, Front(steps), key);
      OriginsArePast(s, Front(steps));
      assert Last(steps) in steps;
      CoherenceKept(Exec(s, Front(steps)), Last(steps), key);
    }
  }

  /** The recorded history is about the entries there are, and it is past. */
  ghost predicate HistoryIsPast(s: State) {
    && s.origin.Keys == s.sh.cache.Keys
    && (forall k :: k in s.origin ==> s.origin[k].epoch <= s.purges)
    && (forall r :: r in s.readers && s.readers[r].Fetched? ==> s.readers[r].epoch <= s.purges)
  }

  lemma HistoryStaysPast(s: State, step: Step)
    requires HistoryIsPast(s) && Enabled(s, step)
    ensures HistoryIsPast(Apply(s, step))
  {
  }

  lemma {:induction false} OriginsArePast(s: State, steps: seq<Step>)
    requires Init(s) && Legal(s, steps)
    ensures HistoryIsPast(Exec(s, steps))
    decreases |steps|
  {
    if steps != [] {
      OriginsArePast(s, Front(steps));
      HistoryStaysPast(Exec(s, Front(steps)), Last(steps));
    }
  }

  lemma {:induction false} CleanRunsDropNothing(s: State, steps: seq<Step>)
    requires Legal(s, steps) && Clean(s, steps)
    ensures NoDrop(steps)
    decreases |steps|
  {
    if steps != [] {
      CleanRunsDropNothing(s, Front(steps));
      assert steps == Front(steps) + [Last(steps)];
    }
  }

  /** Every cached policy was read after the latest purge. */
  ghost predicate AllCurrent(s: State) {
    forall k :: k in s.sh.cache ==> k in s.origin && s.origin[k].epoch == s.purges
  }

  lemma TimelyStepKeepsCurrent(s: State, step: Step)
    requires AllCurrent(s) && Enabled(s, step) && Timely(s, step)
    ensures AllCurrent(Apply(s, step))
  {
    var after := Apply(s, step);
    forall k | k in after.sh.cache
      ensures k in after.origin && after.origin[k].epoch == after.purges
    {
      EntryAfterStep(s, step, k);
    }
  }

  /** Timely writes put only policies read since the latest purge into the cache. */
  lemma {:induction false} CleanEntriesAreCurrent(s: State, steps: seq<Step>)
    requires Init(s) && Legal(s, steps) && Clean(s, steps)
    ensures AllCurrent(Exec(s, steps))
    decreases |steps|
  {
    if steps != [] {
      CleanEntriesAreCurrent(s, Front(steps));
      TimelyStepKeepsCurrent(Exec(s, Front(steps)), Last(steps));
    }
  }

  ghost predicate SameAnswer(a: Option<Policy>, b: Option<Policy>) {
    match (a, b)
    case (None, None) => true
    case (Some(p), Some(q)) => p.Agrees(q)
    case _ => false
  }

  /** A clean run whose events have all been delivered answers every retrieve as the storage would. */
  lemma SettledCacheAnswersAsStore(s: State, steps: seq<Step>, ids: iset<Identity>, id: Identity)
    requires Init(s) && Legal(s, steps) && Clean(s, steps)
    requires RequestsIn(steps, ids) && CollisionFree(ids) && id in ids
    requires !Exec(s, steps).sh.Outstanding()
    ensures SameAnswer(Exec(s, steps).sh.Retrieved(id), Exec(s, steps).sh.Stored(id))
  {
    var n := Exec(s, steps);
    var k := QueryCacheKey(id);
    if k in n.sh.cache {
      CleanRunsDropNothing(s, steps);
      StaleEntriesAreExcused(s, steps, ConstructKey(id));
      CleanEntriesAreCurrent(s, steps);
      CacheHoldsStoredPolicies(s, steps);
      assert EntryHistory(s, steps, k);
      assert n.origin[k].id in ids;
      assert ConstructKey(n.origin[k].id) == ConstructKey(id);
    }
  }

  // ------------------------------------------------------------------------
  // Draining the events
  // ------------------------------------------------------------------------

  /** The listener taking and purging for one waiting sender after another, in the given order. */
  function Deliveries(order: seq<string>): seq<Step> {
    if order == [] then [] else [Take(order[0])] + ([Purge] + Deliveries(order[1..]))
  }

  /** The same after it has finished the purge it is at. */
  function Drain(sh: Shared, order: seq<string>): seq<Step> {
    (if sh.taken.Some? then [Purge] else []) + Deliveries(order)
  }

  lemma {:induction false} StepFirst(s: State, step: Step, rest: seq<Step>)
    requires Enabled(s, step) && Legal(Apply(s, step), rest)
    ensures Legal(s, [step] + rest) && Exec(s, [step] + rest) == Exec(Apply(s, step), rest)
    ensures Clean(Apply(s, step), rest) && !step.Drop? && Timely(s, step) ==> Clean(s, [step] + rest)
  {
    OneStep(s, step);
    Append(s, [step], rest);
  }

  lemma OneStep(s: State, step: Step)
    requires Enabled(s, step)
    ensures Legal(s, [step]) && Exec(s, [step]) == Apply(s, step)
    ensures !step.Drop? && Timely(s, step) ==> Clean(s, [step])
  {
    assert Front([step]) == [] && Last([step]) == step;
    assert Legal(s, []) && Exec(s, []) == s;
    assert Legal(s, Front([step])) && Enabled(Exec(s, Front([step])), Last([step]));
  }

  /** The state after one event is taken and the cache purged. */
  function Delivered(s: State, event: string): State {
    s.(sh := Shared(s.sh.store, map[], s.sh.pending - multiset{event}, None),
       purges := s.purges + 1, origin := map[], time := s.time + 2)
  }

  lemma OneDelivery(s: State, event: string, rest: seq<Step>)
    requires event in s.sh.pending && s.sh.taken.None?
    requires Legal(Delivered(s, event), rest) && Clean(Delivered(s, event), rest)
    ensures Legal(s, [Take(event)] + ([Purge] + rest)) && Clean(s, [Take(event)] + ([Purge] + rest))
    ensures Exec(s, [Take(event)] + ([Purge] + rest)) == Exec(Delivered(s, event), rest)
  {
    var s1 := Apply(s, Take(event));
    assert Apply(s1, Purge) == Delivered(s, event);
    StepFirst(s1, Purge, rest);
    StepFirst(s, Take(event), [Purge] + rest);
  }

  /** A clean run that leaves no event and this cache, and touches neither the store nor the readers. */
  ghost predicate Drains(s: State, steps: seq<Step>, cache: map<string, Policy>) {
    && Legal(s, steps) && Clean(s, steps)
    && var n := Exec(s, steps);
       !n.sh.Outstanding() && n.sh.store == s.sh.store && n.readers == s.readers && n.sh.cache == cache
  }

  lemma {:induction false} DeliveriesDrain(s: State, order: seq<string>)
    requires multiset(order) == s.sh.pending && s.sh.taken.None?
    ensures Drains(s, Deliveries(order), if order == [] then s.sh.cache else map[])
    decreases |order|
  {
    if order != [] {
      assert order == [order[0]] + order[1..];
      var next := Delivered(s, order[0]);
      assert next.sh.pending == multiset(order[1..]);
      DeliveriesDrain(next, order[1..]);
      hide Exec, Legal, Clean;
      OneDelivery(s, order[0], Deliveries(order[1..]));
    }
  }

  lemma {:induction false} DeliveriesAre(order: seq<string>)
    ensures |Deliveries(order)| == 2 * |order|
    ensures forall step :: step in Deliveries(order) ==> step.Take? || step.Purge?
  {
    if order != [] {
      DeliveriesAre(order[1..]);
    }
  }

  /** Delivering the waiting events one by one, in any order, ends, takes two steps an event, and leaves none. */
  lemma DrainDelivers(s: State, order: seq<string>)
    requires multiset(order) == s.sh.pending
    ensures Drains(s, Drain(s.sh, order), if s.sh.Outstanding() then map[] else s.sh.cache)
    ensures |Drain(s.sh, order)| == 2 * |s.sh.pending| + (if s.sh.taken.Some? then 1 else 0)
    ensures forall step :: step in Drain(s.sh, order) ==> step.Take? || step.Purge?
  {
    DeliveriesAre(order);
    if s.sh.taken.Some? {
      DeliveriesDrain(Apply(s, Purge), order);
      hide Exec, Legal, Clean;
      StepFirst(s, Purge, Deliveries(order));
    } else {
      DeliveriesDrain(s, order);
      assert [] + Deliveries(order) == Deliveries(order);
    }
  }

  /** After the run nothing is outstanding and every retrieve among ids is answered as the storage would. */
  ghost predicate Quiescent(s: State, steps: seq<Step>, ids: iset<Identity>) {
    && Legal(s, steps) && !Exec(s, steps).sh.Outstanding()
    && forall id :: id in ids ==> SameAnswer(Exec(s, steps).sh.Retrieved(id), Exec(s, steps).sh.Stored(id))
  }

  lemma SettledIsQuiescent(s: State, steps: seq<Step>, ids: iset<Identity>)
    requires Init(s) && Legal(s, steps) && Clean(s, steps)
    requires RequestsIn(steps, ids) && CollisionFree(ids)
    requires !Exec(s, steps).sh.Outstanding()
    ensures Quiescent(s, steps, ids)
  {
    hide Exec, Legal, Clean, SameAnswer, CollisionFree, Init, RequestsIn;
    forall id | id in ids
      ensures SameAnswer(Exec(s, steps).sh.Retrieved(id), Exec(s, steps).sh.Stored(id))
    {
      SettledCacheAnswersAsStore(s, steps, ids, id);
    }
  }

  lemma MoreRequests(a: seq<Step>, b: seq<Step>, ids: iset<Identity>)
    requires RequestsIn(a, ids) && forall step :: step in b ==> step.Take? || step.Purge?
    ensures RequestsIn(a + b, ids)
  {
  }

  /** Any clean run settles: deliver its events, in any order, and every retrieve is answered as the storage
      would, from a store that the deliveries have not touched. */
  lemma QuiescenceAfterDrain(s: State, steps: seq<Step>, order: seq<string>, ids: iset<Identity>)
    requires Init(s) && Legal(s, steps) && Clean(s, steps)
    requires RequestsIn(steps, ids) && CollisionFree(ids)
    requires multiset(order) == Exec(s, steps).sh.pending
    ensures
      var all := steps + Drain(Exec(s, steps).sh, order);
      Quiescent(s, all, ids) && Exec(s, all).sh.store == Exec(s, steps).sh.store
  {
    var n := Exec(s, steps);
    var drain := Drain(n.sh, order);
    hide Exec, Legal, Clean, Drain, CollisionFree, Init, RequestsIn, Quiescent;
    DrainDelivers(n, order);
    Append(s, steps, drain);
    MoreRequests(steps, drain, ids);
    SettledIsQuiescent(s, steps + drain, ids);
  }

  // ------------------------------------------------------------------------
  // Cache keys
  // ------------------------------------------------------------------------

  ghost predicate SettledRun(s: State, steps: seq<Step>, ids: iset<Identity>) {
    && Init(s) && Legal(s, steps) && Clean(s, steps) && RequestsIn(steps, ids)
    && !Exec(s, steps).sh.Outstanding()
  }

  ghost predicate AnswersAsStore(ids: iset<Identity>) {
    forall s, steps, id :: SettledRun(s, steps, ids) && id in ids ==>
      SameAnswer(Exec(s, steps).sh.Retrieved(id), Exec(s, steps).sh.Stored(id))
  }

  function Sample(id: Identity): Policy {
    Policy("", id.repository, id.name, id.group, id.version, "", "", "", "", "", false, ZERO_TIME, ZERO_TIME)
  }

  /** The start of a service whose store holds the two sample policies. */
  function SampleStart(a: Identity, b: Identity): State {
    var store := map[ConstructKey(a) := Sample(a)][ConstructKey(b) := Sample(b)];
    State(Shared(store, map[], multiset{}, None), map[], 0, map[], 0)
  }

  lemma FirstRetrieve(s: State, id: Identity, p: Policy)
    requires s.readers == map[] && QueryCacheKey(id) !in s.sh.cache && s.sh.Stored(id) == Some(p)
    ensures
      var steps := [Miss(0, id), Fetch(0), Put(0)];
      && Legal(s, steps) && Clean(s, steps)
      && Exec(s, steps) == s.(sh := s.sh.WithCached(id, p),
                              origin := s.origin[QueryCacheKey(id) := Origin(id, s.purges, s.time + 1)],
                              time := s.time + 3)
  {
    var s1 := Apply(s, Miss(0, id));
    var s2 := Apply(s1, Fetch(0));
    var s3 := Apply(s2, Put(0));
    assert s3.readers == s.readers;
    assert s3 == s.(sh := s.sh.WithCached(id, p),
                    origin := s.origin[QueryCacheKey(id) := Origin(id, s.purges, s.time + 1)],
                    time := s.time + 3);
    assert Enabled(s, Miss(0, id)) && Enabled(s1, Fetch(0)) && Enabled(s2, Put(0)) && Timely(s2, Put(0));
    hide Apply, Effect, Enabled;
    OneStep(s2, Put(0));
    StepFirst(s1, Fetch(0), [Put(0)]);
    StepFirst(s, Miss(0, id), [Fetch(0)] + [Put(0)]);
    assert [Miss(0, id)] + ([Fetch(0)] + [Put(0)]) == [Miss(0, id), Fetch(0), Put(0)];
  }

  /** Two requests that share a cache key but not a stored policy: the second is given the first's policy. */
  lemma CollisionGivesWrongAnswer(a: Identity, b: Identity, ids: iset<Identity>)
    requires a in ids && b in ids
    requires QueryCacheKey(a) == QueryCacheKey(b) && ConstructKey(a) != ConstructKey(b)
    ensures
      var s, steps := SampleStart(a, b), [Miss(0, a), Fetch(0), Put(0)];
      && SettledRun(s, steps, ids)
      && Exec(s, steps).sh.Retrieved(b) == Some(Sample(a))
      && Exec(s, steps).sh.Stored(b) == Some(Sample(b))
      && !Sample(a).Agrees(Sample(b))
  {
    var s := SampleStart(a, b);
    assert Sample(a).Id() == a && Sample(b).Id() == b;
    FirstRetrieve(s, a, Sample(a));
  }

  /** Settled caches answer as the store for all requests among ids exactly when no two of them collide. */
  lemma AnswersAsStoreIffCollisionFree(ids: iset<Identity>)
    ensures AnswersAsStore(ids) <==> CollisionFree(ids)
  {
    if CollisionFree(ids) {
      forall s, steps, id | SettledRun(s, steps, ids) && id in ids
        ensures SameAnswer(Exec(s, steps).sh.Retrieved(id), Exec(s, steps).sh.Stored(id))
      {
        SettledCacheAnswersAsStore(s, steps, ids, id);
      }
    } else {
      var a, b :| a in ids && b in ids && QueryCacheKey(a) == QueryCacheKey(b) && ConstructKey(a) != ConstructKey(b);
      CollisionGivesWrongAnswer(a, b, ids);
    }
  }
}
