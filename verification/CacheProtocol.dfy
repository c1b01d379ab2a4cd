/** The rego cache and the policy store as a machine of atomic sections, interleaved in any order.

    A retrieve that misses takes three sections: the miss, the storage read and the cache write.
    A save or a lock changes the store and leaves a sender waiting. The one listener takes an
    event from a sender and purges the whole cache in a later section. A sender may give up. */
module CacheProtocol {
  import opened Wrappers
  import opened Policies
  import opened Strings

  /** What the storage, the cache, the senders and the listener share. An event is the store key of the policy
      that changed: `pending` holds those of the waiting senders, `taken` the one whose purge is to come. */
  datatype Shared = Shared(
    store: map<string, Policy>,
    cache: map<string, Policy>,
    pending: multiset<string>,
    taken: Option<string>)
  {
    /** An event has been raised and the purge it causes has not happened. */
    predicate Outstanding() {
      pending != multiset{} || taken.Some?
    }

    /** There is such an event of this policy. */
    predicate OutstandingFor(key: string) {
      key in pending || taken == Some(key)
    }

    function Stored(id: Identity): Option<Policy> {
      if ConstructKey(id) in store then Some(store[ConstructKey(id)]) else None
    }

    /** What a retrieve that nothing interrupts returns. */
    function Retrieved(id: Identity): Option<Policy> {
      if QueryCacheKey(id) in cache then Some(cache[QueryCacheKey(id)]) else Stored(id)
    }

    /** The gate in front of an evaluation. */
    function Admitted(id: Identity): Result<Policy> {
      match Retrieved(id)
      case None => Err(NotFound)
      case Some(p) => if p.locked then Err(Forbidden) else Ok(p)
    }

    function WithCached(id: Identity, p: Policy): Shared {
      this.(cache := cache[QueryCacheKey(id) := p])
    }

    function WithSaved(p: Policy): Shared {
      this.(store := store[ConstructKey(p.Id()) := p], pending := pending + multiset{ConstructKey(p.Id())})
    }

    /** A lock change of an unknown policy fails and raises no event. */
    function WithLock(id: Identity, lock: bool): Shared {
      match Stored(id)
      case None => this
      case Some(p) =>
        this.(store := store[ConstructKey(id) := p.(locked := lock)], pending := pending + multiset{ConstructKey(id)})
    }

    /** Refresh scheduling changes the store without raising an event. */
    function WithRefreshTime(key: string, t: Time): Shared
      requires key in store
    {
      this.(store := store[key := store[key].(nextDataRefreshTime := t)])
    }

    function EventTaken(key: string): Shared
      requires key in pending
    {
      this.(pending := pending - multiset{key}, taken := Some(key))
    }

    function Purged(): Shared {
      this.(cache := map[], taken := None)
    }

    function EventDropped(key: string): Shared
      requires key in pending
    {
      this.(pending := pending - multiset{key})
    }
  }

  /** A retrieve in flight: it missed, or it holds the policy it read at step `at`, after `epoch` purges. */
  datatype Reader =
    | Missed(id: Identity)
    | Fetched(id: Identity, pol: Policy, epoch: nat, at: nat)

  /** Who wrote a cache entry, and when its policy was read. */
  datatype Origin = Origin(id: Identity, epoch: nat, at: nat)

  /** `purges`, `origin` and `time`, the number of steps so far, only record history; no step depends on them. */
  datatype State = State(
    sh: Shared,
    readers: map<nat, Reader>,
    purges: nat,
    origin: map<string, Origin>,
    time: nat)

  /** Take and Drop name the waiting event they remove. */
  datatype Step =
    | Miss(reader: nat, id: Identity)
    | Fetch(reader: nat)
    | Put(reader: nat)
    | Save(pol: Policy)
    | SetLock(id: Identity, lock: bool)
    | SetRefreshTime(key: string, t: Time)
    | Take(event: string)
    | Purge
    | Drop(event: string)

  predicate Enabled(s: State, step: Step) {
    match step
    case Miss(r, id) => r !in s.readers && QueryCacheKey(id) !in s.sh.cache
    case Fetch(r) => r in s.readers && s.readers[r].Missed?
    case Put(r) => r in s.readers && s.readers[r].Fetched?
    case Save(_) => true
    case SetLock(_, _) => true
    case SetRefreshTime(key, _) => key in s.sh.store
    case Take(event) => event in s.sh.pending && s.sh.taken.None?
    case Purge => s.sh.taken.Some?
    case Drop(event) => event in s.sh.pending
  }

  function Effect(s: State, step: Step): State
    requires Enabled(s, step)
  {
    match step
    case Miss(r, id) => s.(readers := s.readers[r := Missed(id)])
    case Fetch(r) =>
      var id := s.readers[r].id;
      (match s.sh.Stored(id)
       case None => s.(readers := s.readers - {r})
       case Some(p) => s.(readers := s.readers[r := Fetched(id, p, s.purges, s.time)]))
    case Put(r) =>
      var Fetched(id, p, epoch, at) := s.readers[r];
      s.(sh := s.sh.WithCached(id, p),
         readers := s.readers - {r},
         origin := s.origin[QueryCacheKey(id) := Origin(id, epoch, at)])
    case Save(p) => s.(sh := s.sh.WithSaved(p))
    case SetLock(id, lock) => s.(sh := s.sh.WithLock(id, lock))
    case SetRefreshTime(key, t) => s.(sh := s.sh.WithRefreshTime(key, t))
    case Take(event) => s.(sh := s.sh.EventTaken(event))
    case Purge => s.(sh := s.sh.Purged(), purges := s.purges + 1, origin := map[])
    case Drop(event) => s.(sh := s.sh.EventDropped(event))
  }

  function Apply(s: State, step: Step): State
    requires Enabled(s, step)
  {
    Effect(s, step).(time := s.time + 1)
  }

  /** A service that has just started on some store. */
  ghost predicate Init(s: State) {
    && Keyed(s.sh.store) && s.sh.cache == map[] && !s.sh.Outstanding()
    && s.readers == map[] && s.origin == map[] && s.time == 0
  }

  /** Every step of the run is enabled when its turn comes. */
  predicate Legal(s: State, steps: seq<Step>)
    decreases |steps|, 0
  {
    steps == [] || (Legal(s, Front(steps)) && Enabled(Exec(s, Front(steps)), Last(steps)))
  }

  function Exec(s: State, steps: seq<Step>): State
    requires Legal(s, steps)
    decreases |steps|, 1
  {
    if steps == [] then s else Apply(Exec(s, Front(steps)), Last(steps))
  }

  /** The policy this cache write uses was read after the latest purge. */
  predicate Timely(s: State, step: Step)
    requires Enabled(s, step)
  {
    step.Put? ==> s.readers[step.reader].epoch == s.purges
  }

  /** No sender gives up and every cache write is timely. */
  predicate Clean(s: State, steps: seq<Step>)
    requires Legal(s, steps)
    decreases |steps|
  {
    steps == [] ||
    (Clean(s, Front(steps)) && !Last(steps).Drop? && Timely(Exec(s, Front(steps)), Last(steps)))
  }

  predicate NoDrop(steps: seq<Step>) {
    forall step :: step in steps ==> !step.Drop?
  }

  /** Every retrieve of the run asks for one of ids. */
  ghost predicate RequestsIn(steps: seq<Step>, ids: iset<Identity>) {
    forall step :: step in steps && step.Miss? ==> step.id in ids
  }

  /** Identities that share a cache key share a store key. */
  ghost predicate CollisionFree(ids: iset<Identity>) {
    forall a, b :: a in ids && b in ids && QueryCacheKey(a) == QueryCacheKey(b) ==> ConstructKey(a) == ConstructKey(b)
  }

  /** Identities without commas before the version share no cache key at all. */
  lemma CommaFreeIsCollisionFree(ids: iset<Identity>)
    requires forall a :: a in ids ==> SeparatorFree(a, ',')
    ensures CollisionFree(ids)
  {
    forall a, b | a in ids && b in ids && QueryCacheKey(a) == QueryCacheKey(b)
      ensures ConstructKey(a) == ConstructKey(b)
    {
      KeyInjective(a, b, ',');
    }
  }

  /** The routes take any text for a part, so requests can collide. */
  lemma RequestsCanCollide()
    ensures !CollisionFree(iset{Identity("r", "g,x", "n", "1"), Identity("r", "g", "x,n", "1")})
  {
    var a, b := Identity("r", "g,x", "n", "1"), Identity("r", "g", "x,n", "1");
    assert QueryCacheKey(a) == QueryCacheKey(b);
    assert ConstructKey(a)[3] != ConstructKey(b)[3];
  }

  // ------------------------------------------------------------------------
  // Prefixes and concatenations of runs
  // ------------------------------------------------------------------------

  lemma {:induction false} PrefixIsLegal(s: State, steps: seq<Step>, i: nat)
    requires Legal(s, steps) && i <= |steps|
    ensures Legal(s, steps[..i])
    ensures Clean(s, steps) ==> Clean(s, steps[..i])
    decreases |steps|
  {
    if i == |steps| {
      assert steps[..i] == steps;
    } else {
      PrefixIsLegal(s, Front(steps), i);
      assert Front(steps)[..i] == steps[..i];
    }
  }

  lemma PrefixStep(s: State, steps: seq<Step>, j: nat)
    requires Legal(s, steps) && j < |steps|
    ensures Legal(s, steps[..j]) && Legal(s, steps[..j + 1])
    ensures Enabled(Exec(s, steps[..j]), steps[j])
    ensures Exec(s, steps[..j + 1]) == Apply(Exec(s, steps[..j]), steps[j])
  {
    PrefixIsLegal(s, steps, j);
    PrefixIsLegal(s, steps, j + 1);
    assert Front(steps[..j + 1]) == steps[..j] && Last(steps[..j + 1]) == steps[j];
  }

  lemma {:induction false} TimeIsLength(s: State, steps: seq<Step>)
    requires Legal(s, steps)
    ensures Exec(s, steps).time == s.time + |steps|
    decreases |steps|
  {
    if steps != [] {
      TimeIsLength(s, Front(steps));
    }
  }

  lemma {:induction false} Append(s: State, a: seq<Step>, b: seq<Step>)
    requires Legal(s, a) && Legal(Exec(s, a), b)
    ensures Legal(s, a + b) && Exec(s, a + b) == Exec(Exec(s, a), b)
    ensures Clean(s, a) && Clean(Exec(s, a), b) ==> Clean(s, a + b)
    decreases |b|
  {
    if b == [] {
      assert a + b == a;
    } else {
      Append(s, a, Front(b));
      assert Front(a + b) == a + Front(b) && Last(a + b) == Last(b);
    }
  }

  // ------------------------------------------------------------------------
  // What every legal run keeps
  // ------------------------------------------------------------------------

  ghost predicate Requested(steps: seq<Step>, id: Identity) {
    exists step :: step in steps && step.Miss? && step.id == id
  }

  /** Step i of the run is a read of the store, which held p for id then, with `epoch` purges before. */
  ghost predicate WasReadAt(s: State, steps: seq<Step>, i: nat, id: Identity, p: Policy, epoch: nat)
    requires Legal(s, steps)
  {
    && i < |steps| && steps[i].Fetch?
    && Legal(s, steps[..i])
    && Exec(s, steps[..i]).purges == epoch
    && Exec(s, steps[..i]).sh.Stored(id) == Some(p)
  }

  lemma WasReadExtends(s: State, steps: seq<Step>, i: nat, id: Identity, p: Policy, epoch: nat)
    requires steps != [] && Legal(s, steps) && WasReadAt(s, Front(steps), i, id, p, epoch)
    ensures WasReadAt(s, steps, i, id, p, epoch)
  {
    assert Front(steps)[..i] == steps[..i];
  }

  ghost predicate EntryHistory(s: State, steps: seq<Step>, k: string)
    requires Legal(s, steps)
  {
    var n := Exec(s, steps);
    && k in n.sh.cache && k in n.origin
    && n.origin[k].epoch <= n.purges
    && QueryCacheKey(n.origin[k].id) == k
    && Requested(steps, n.origin[k].id)
    && WasReadAt(s, steps, n.origin[k].at, n.origin[k].id, n.sh.cache[k], n.origin[k].epoch)
  }

  ghost predicate ReaderHistory(s: State, steps: seq<Step>, r: nat)
    requires Legal(s, steps)
  {
    var n := Exec(s, steps);
    && r in n.readers
    && Requested(steps, n.readers[r].id)
    && (n.readers[r].Fetched? ==>
          && n.readers[r].epoch <= n.purges
          && WasReadAt(s, steps, n.readers[r].at, n.readers[r].id, n.readers[r].pol, n.readers[r].epoch))
  }

  /** Nothing in the cache is made up: every entry was the stored policy at the step that its origin names,
      whatever the interleaving, the dropped events and the late cache writes of the run. */
  lemma {:induction false} CacheHoldsStoredPolicies(s: State, steps: seq<Step>)
    requires Init(s) && Legal(s, steps)
    ensures forall k :: k in Exec(s, steps).sh.cache ==> EntryHistory(s, steps, k)
    ensures forall r :: r in Exec(s, steps).readers ==> ReaderHistory(s, steps, r)
    decreases |steps|
  {
    if steps != [] {
      CacheHoldsStoredPolicies(s, Front(steps));
      forall r | r in Exec(s, steps).readers
        ensures ReaderHistory(s, steps, r)
      {
        ReaderHistoryKept(s, steps, r);
      }
      forall k | k in Exec(s, steps).sh.cache
        ensures EntryHistory(s, steps, k)
      {
        EntryHistoryKept(s, steps, k);
      }
    }
  }

  lemma RequestedExtends(steps: seq<Step>, id: Identity)
    requires steps != [] && Requested(Front(steps), id)
    ensures Requested(steps, id)
  {
    var step :| step in Front(steps) && step.Miss? && step.id == id;
    assert step in steps;
  }

  /** A step leaves a retrieve in flight alone, or starts it, or has just read for it. */
  lemma ReaderStep(before: State, step: Step, r: nat)
    requires Enabled(before, step) && r in Apply(before, step).readers
    ensures
      var reader := Apply(before, step).readers[r];
      || (step == Miss(r, reader.id) && reader == Missed(reader.id))
      || (r in before.readers && reader == before.readers[r])
      || (&& step == Fetch(r) && r in before.readers && reader.Fetched?
          && before.sh.Stored(reader.id) == Some(reader.pol)
          && reader == Fetched(before.readers[r].id, reader.pol, before.purges, before.time))
    ensures before.purges <= Apply(before, step).purges
  {
  }

  lemma ReaderHistoryKept(s: State, steps: seq<Step>, r: nat)
    requires s.time == 0 && steps != [] && Legal(s, steps) && r in Exec(s, steps).readers
    requires forall q :: q in Exec(s, Front(steps)).readers ==> ReaderHistory(s, Front(steps), q)
    ensures ReaderHistory(s, steps, r)
  {
    var front, step := Front(steps), Last(steps);
    var before, after := Exec(s, front), Exec(s, steps);
    var reader := after.readers[r];
    ReaderStep(before, step, r);
    hide Apply, Effect, Enabled;
    if step == Miss(r, reader.id) && reader == Missed(reader.id) {
      assert step in steps;
    } else {
      assert ReaderHistory(s, front, r);
      RequestedExtends(steps, before.readers[r].id);
      if reader == before.readers[r] {
        if reader.Fetched? {
          WasReadExtends(s, steps, reader.at, reader.id, reader.pol, reader.epoch);
        }
      } else {
        assert step.Fetch? && step.reader == r;
        assert steps[..|front|] == front;
        TimeIsLength(s, front);
        assert WasReadAt(s, steps, |front|, reader.id, reader.pol, reader.epoch);
      }
    }
  }

  /** A step leaves a cache entry alone or writes it from a reader. */
  lemma EntryAfterStep(before: State, step: Step, k: string)
    requires Enabled(before, step) && k in Apply(before, step).sh.cache
    ensures Apply(before, step).purges >= before.purges
    ensures !step.Purge? ==> Apply(before, step).purges == before.purges
    ensures
      var after := Apply(before, step);
      if step.Put? && QueryCacheKey(before.readers[step.reader].id) == k then
        var reader := before.readers[step.reader];
        k in after.origin && after.origin[k] == Origin(reader.id, reader.epoch, reader.at) && after.sh.cache[k] == reader.pol
      else
        && !step.Purge? && k in before.sh.cache && before.sh.cache[k] == after.sh.cache[k]
        && (k in before.origin ==> k in after.origin && after.origin[k] == before.origin[k])
  {
  }

  lemma EntryHistoryKept(s: State, steps: seq<Step>, k: string)
    requires steps != [] && Legal(s, steps) && k in Exec(s, steps).sh.cache
    requires forall q :: q in Exec(s, Front(steps)).readers ==> ReaderHistory(s, Front(steps), q)
    requires forall q :: q in Exec(s, Front(steps)).sh.cache ==> EntryHistory(s, Front(steps), q)
    ensures EntryHistory(s, steps, k)
  {
    var front, step := Front(steps), Last(steps);
    var before, after := Exec(s, front), Exec(s, steps);
    EntryAfterStep(before, step, k);
    if step.Put? && QueryCacheKey(before.readers[step.reader].id) == k {
      var reader := before.readers[step.reader];
      assert ReaderHistory(s, front, step.reader);
      RequestedExtends(steps, reader.id);
      WasReadExtends(s, steps, reader.at, reader.id, reader.pol, reader.epoch);
    } else {
      assert EntryHistory(s, front, k);
      RequestedExtends(steps, before.origin[k].id);
      WasReadExtends(s, steps, before.origin[k].at, before.origin[k].id, before.sh.cache[k], before.origin[k].epoch);
    }
  }
}
