/** From a lock to the refusal of evaluations, over whole interleaved runs. */
module LockGate {
  import opened Wrappers
  import opened Policies
  import opened Strings
  import opened CacheProtocol
  import opened CacheCoherence

  predicate IsLocked(sh: Shared, key: string) {
    key in sh.store && sh.store[key].locked
  }

  /** The policy is stored under the key with this lock. */
  predicate HasLock(sh: Shared, key: string, lock: bool) {
    key in sh.store && sh.store[key].locked == lock
  }

  /** A step that may leave the policy under this key with this lock. */
  predicate MaySet(step: Step, key: string, lock: bool) {
    || (step.SetLock? && step.lock == lock && ConstructKey(step.id) == key)
    || (step.Save? && step.pol.locked == lock && ConstructKey(step.pol.Id()) == key)
  }

  lemma LockStep(s: State, step: Step, key: string, lock: bool)
    requires Enabled(s, step) && !MaySet(step, key, !lock) && HasLock(s.sh, key, lock)
    ensures HasLock(Apply(s, step).sh, key, lock)
  {
  }

  /** A policy with a lock, or without one, after i steps still is so after j. */
  lemma {:induction false} LockPersists(s: State, steps: seq<Step>, key: string, lock: bool, i: nat, j: nat)
    requires Legal(s, steps) && i <= j <= |steps|
    requires Legal(s, steps[..i]) && Legal(s, steps[..j])
    requires HasLock(Exec(s, steps[..i]).sh, key, lock)
    requires forall m :: i <= m < j ==> !MaySet(steps[m], key, !lock)
    ensures HasLock(Exec(s, steps[..j]).sh, key, lock)
    decreases j
  {
    if i < j {
      hide Apply, Effect, Enabled, Legal, Exec;
      PrefixStep(s, steps, j - 1);
      LockPersists(s, steps, key, lock, i, j - 1);
      LockStep(Exec(s, steps[..j - 1]), steps[j - 1], key, lock);
    }
  }

  lemma PurgesStep(s: State, step: Step)
    requires Enabled(s, step)
    ensures s.purges <= Apply(s, step).purges && (step.Purge? ==> s.purges < Apply(s, step).purges)
  {
  }

  lemma {:induction false} PurgesGrow(s: State, steps: seq<Step>, i: nat, j: nat)
    requires Legal(s, steps) && i <= j <= |steps|
    requires Legal(s, steps[..i]) && Legal(s, steps[..j])
    ensures Exec(s, steps[..i]).purges <= Exec(s, steps[..j]).purges
    decreases j
  {
    if i < j {
      hide Apply, Effect, Enabled, Legal, Exec;
      PrefixStep(s, steps, j - 1);
      PurgesGrow(s, steps, i, j - 1);
      PurgesStep(Exec(s, steps[..j - 1]), steps[j - 1]);
    }
  }

  // ------------------------------------------------------------------------
  // Writes of one cache entry
  // ------------------------------------------------------------------------

  /** Step j writes the cache entry under k. */
  ghost predicate WritesUnder(s: State, steps: seq<Step>, j: nat, k: string)
    requires Legal(s, steps) && j < |steps|
  {
    PrefixStep(s, steps, j);
    steps[j].Put? && QueryCacheKey(Exec(s, steps[..j]).readers[steps[j].reader].id) == k
  }

  /** The retrieve whose policy step j writes. */
  ghost function Writer(s: State, steps: seq<Step>, j: nat): Reader
    requires Legal(s, steps) && j < |steps| && steps[j].Put?
    ensures Writer(s, steps, j).Fetched?
  {
    PrefixStep(s, steps, j);
    Exec(s, steps[..j]).readers[steps[j].reader]
  }

  /** No later step writes the entry or purges the cache. */
  ghost predicate LatestWrite(s: State, steps: seq<Step>, q: nat, k: string)
    requires Legal(s, steps)
  {
    && q < |steps| && WritesUnder(s, steps, q, k)
    && forall j :: q < j < |steps| ==> steps[j] != Purge && !WritesUnder(s, steps, j, k)
  }

  ghost predicate HoldsWrite(n: State, r: Reader, k: string) {
    && r.Fetched? && k in n.sh.cache && n.sh.cache[k] == r.pol
    && k in n.origin && n.origin[k] == Origin(r.id, r.epoch, r.at)
  }

  lemma SamePrefix(s: State, steps: seq<Step>, j: nat, k: string)
    requires steps != [] && Legal(s, steps) && j < |steps| - 1
    ensures WritesUnder(s, Front(steps), j, k) == WritesUnder(s, steps, j, k)
    ensures steps[j].Put? ==> Writer(s, Front(steps), j) == Writer(s, steps, j)
  {
    assert Front(steps)[..j] == steps[..j];
  }

  /** What one more step does to the entry. */
  lemma EntryStep(before: State, step: Step, k: string)
    requires Enabled(before, step)
    ensures
      var after := Apply(before, step);
      if step.Put? && QueryCacheKey(before.readers[step.reader].id) == k then HoldsWrite(after, before.readers[step.reader], k)
      else if step.Purge? then k !in after.sh.cache
      else
        && (k in after.sh.cache <==> k in before.sh.cache)
        && (k in after.sh.cache ==> after.sh.cache[k] == before.sh.cache[k])
        && (k in after.origin <==> k in before.origin)
        && (k in after.origin ==> after.origin[k] == before.origin[k])
  {
  }

  lemma LatestWriteBefore(s: State, steps: seq<Step>, q: nat, k: string)
    requires steps != [] && Legal(s, steps)
    requires Last(steps) != Purge && !WritesUnder(s, steps, |steps| - 1, k)
    ensures LatestWrite(s, steps, q, k) <==> LatestWrite(s, Front(steps), q, k)
    ensures LatestWrite(s, steps, q, k) ==> Writer(s, Front(steps), q) == Writer(s, steps, q)
  {
    if q < |steps| - 1 {
      forall j | 0 <= j < |steps| - 1
        ensures WritesUnder(s, Front(steps), j, k) == WritesUnder(s, steps, j, k)
      {
        SamePrefix(s, steps, j, k);
      }
      SamePrefix(s, steps, q, k);
      assert forall j :: 0 <= j < |steps| - 1 ==> Front(steps)[j] == steps[j];
      assert steps[|steps| - 1] == Last(steps);
    }
  }

  /** The cache holds exactly what the latest write of each entry since the latest purge has put there. */
  lemma {:induction false} EntryIsLatestWrite(s: State, steps: seq<Step>, k: string)
    requires Legal(s, steps) && s.sh.cache == map[]
    ensures k in Exec(s, steps).sh.cache <==> exists q: nat :: LatestWrite(s, steps, q, k)
    ensures forall q: nat :: LatestWrite(s, steps, q, k) ==> HoldsWrite(Exec(s, steps), Writer(s, steps, q), k)
    decreases |steps|
  {
    if steps != [] {
      var front, last := Front(steps), |steps| - 1;
      assert front == steps[..last] && Last(steps) == steps[last];
      EntryIsLatestWrite(s, front, k);
      EntryStep(Exec(s, front), Last(steps), k);
      hide Apply, Enabled, HoldsWrite;
      if WritesUnder(s, steps, last, k) {
        assert LatestWrite(s, steps, last, k);
      } else if Last(steps) != Purge {
        forall q: nat
          ensures LatestWrite(s, steps, q, k) <==> LatestWrite(s, front, q, k)
          ensures LatestWrite(s, steps, q, k) ==> Writer(s, front, q) == Writer(s, steps, q)
        {
          LatestWriteBefore(s, steps, q, k);
        }
      }
    }
  }

  /** A retrieve that writes at step q has read its policy at the earlier step that it records. */
  lemma WriterHasRead(s: State, steps: seq<Step>, q: nat)
    requires Init(s) && Legal(s, steps) && q < |steps| && steps[q].Put?
    ensures
      var r := Writer(s, steps, q);
      r.at < q && WasReadAt(s, steps, r.at, r.id, r.pol, r.epoch) && Requested(steps[..q], r.id)
  {
    PrefixStep(s, steps, q);
    CacheHoldsStoredPolicies(s, steps[..q]);
    assert ReaderHistory(s, steps[..q], steps[q].reader);
    var r := Writer(s, steps, q);
    assert steps[..q][..r.at] == steps[..r.at];
  }

  // ------------------------------------------------------------------------
  // When a lock is effective
  // ------------------------------------------------------------------------

  ghost predicate NobodySharesCacheKey(steps: seq<Step>, id: Identity) {
    forall step :: step in steps && step.Miss? && QueryCacheKey(step.id) == QueryCacheKey(id) ==>
      ConstructKey(step.id) == ConstructKey(id)
  }

  /** The policy has had this lock under this key since step i. */
  ghost predicate LockSince(s: State, steps: seq<Step>, i: nat, key: string, lock: bool)
    requires Legal(s, steps)
  {
    && i <= |steps| && Legal(s, steps[..i]) && HasLock(Exec(s, steps[..i]).sh, key, lock)
    && forall j :: i <= j < |steps| ==> !MaySet(steps[j], key, !lock)
  }

  /** The latest write of the entry since the latest purge put a policy there that had been read before step
      i, with this lock. */
  ghost predicate HoldsEarlierRead(s: State, steps: seq<Step>, i: nat, k: string, lock: bool)
    requires Legal(s, steps)
  {
    exists q: nat ::
      LatestWrite(s, steps, q, k) && Writer(s, steps, q).at < i && Writer(s, steps, q).pol.locked == lock
  }

  /** Since step i every policy that is read under this key has its lock. */
  lemma LaterReadHasLock(s: State, steps: seq<Step>, i: nat, q: nat, id: Identity, lock: bool)
    requires Init(s) && Legal(s, steps) && LockSince(s, steps, i, ConstructKey(id), lock)
    requires NobodySharesCacheKey(steps, id)
    requires q < |steps| && WritesUnder(s, steps, q, QueryCacheKey(id)) && Writer(s, steps, q).at >= i
    ensures Writer(s, steps, q).pol.locked == lock
  {
    var r := Writer(s, steps, q);
    WriterHasRead(s, steps, q);
    var step :| step in steps[..q] && step.Miss? && step.id == r.id;
    assert step in steps;
    LockPersists(s, steps, ConstructKey(id), lock, i, r.at);
  }

  /** A retrieve gives the policy with its former lock if and only if the cache entry was last written by a
      retrieve that had read it before the change, and no purge has come since that write. */
  lemma FormerLockIffEarlierRead(s: State, steps: seq<Step>, i: nat, id: Identity, lock: bool)
    requires Init(s) && Legal(s, steps) && LockSince(s, steps, i, ConstructKey(id), lock)
    requires NobodySharesCacheKey(steps, id)
    ensures
      var p := Exec(s, steps).sh.Retrieved(id);
      p.Some? && (p.value.locked == !lock <==> HoldsEarlierRead(s, steps, i, QueryCacheKey(id), !lock))
  {
    var k, last := QueryCacheKey(id), Exec(s, steps);
    assert steps[..|steps|] == steps;
    LockPersists(s, steps, ConstructKey(id), lock, i, |steps|);
    EntryIsLatestWrite(s, steps, k);
    forall q: nat | LatestWrite(s, steps, q, k)
      ensures k in last.sh.cache && last.sh.cache[k] == Writer(s, steps, q).pol
      ensures Writer(s, steps, q).at >= i ==> Writer(s, steps, q).pol.locked == lock
    {
      if Writer(s, steps, q).at >= i {
        LaterReadHasLock(s, steps, i, q, id, lock);
      }
    }
  }

  /** Exactly what a lock does, in every interleaving, whatever events are waiting, delivered or dropped: an
      evaluation is still admitted if and only if the cache entry stems from a read before the lock. */
  lemma AdmittedIffEarlierRead(s: State, steps: seq<Step>, i: nat, id: Identity)
    requires Init(s) && Legal(s, steps) && LockSince(s, steps, i, ConstructKey(id), true)
    requires NobodySharesCacheKey(steps, id)
    ensures Exec(s, steps).sh.Admitted(id).Ok? <==> HoldsEarlierRead(s, steps, i, QueryCacheKey(id), false)
    ensures Exec(s, steps).sh.Admitted(id).Ok? || Exec(s, steps).sh.Admitted(id) == Err(Forbidden)
  {
    hide Init, Legal, Exec, LockSince, NobodySharesCacheKey, HoldsEarlierRead;
    FormerLockIffEarlierRead(s, steps, i, id, true);
  }

  /** And what an unlock does: an evaluation is still refused if and only if the cache entry stems from a read
      before the unlock. */
  lemma RefusedIffEarlierRead(s: State, steps: seq<Step>, i: nat, id: Identity)
    requires Init(s) && Legal(s, steps) && LockSince(s, steps, i, ConstructKey(id), false)
    requires NobodySharesCacheKey(steps, id)
    ensures Exec(s, steps).sh.Admitted(id) == Err(Forbidden) <==> HoldsEarlierRead(s, steps, i, QueryCacheKey(id), true)
    ensures Exec(s, steps).sh.Admitted(id).Ok? || Exec(s, steps).sh.Admitted(id) == Err(Forbidden)
  {
    hide Init, Legal, Exec, LockSince, NobodySharesCacheKey, HoldsEarlierRead;
    FormerLockIffEarlierRead(s, steps, i, id, false);
  }

  /** Every later write of this one entry uses a policy read after the latest purge. */
  ghost predicate TimelyUnder(s: State, steps: seq<Step>, from: nat, k: string)
    requires Legal(s, steps)
  {
    forall j :: from <= j < |steps| && WritesUnder(s, steps, j, k) ==> TimelyAt(s, steps, j)
  }

  ghost predicate TimelyAt(s: State, steps: seq<Step>, j: nat)
    requires Legal(s, steps) && j < |steps|
  {
    PrefixStep(s, steps, j);
    Timely(Exec(s, steps[..j]), steps[j])
  }

  /** From any purge on, timely writes of an entry keep it current. */
  lemma {:induction false} CurrentAfterPurge(s: State, steps: seq<Step>, m: nat, j: nat, k: string)
    requires Legal(s, steps) && m < j <= |steps| && steps[m] == Purge
    requires TimelyUnder(s, steps, m + 1, k)
    requires Legal(s, steps[..j])
    ensures
      var n := Exec(s, steps[..j]);
      k in n.sh.cache ==> k in n.origin && n.origin[k].epoch == n.purges
    decreases j
  {
    PrefixStep(s, steps, j - 1);
    EntryStep(Exec(s, steps[..j - 1]), steps[j - 1], k);
    if j > m + 1 {
      CurrentAfterPurge(s, steps, m, j - 1, k);
      assert WritesUnder(s, steps, j - 1, k) ==> TimelyAt(s, steps, j - 1);
    }
  }

  /** A retrieve that writes in time has read after every purge before its write. */
  lemma TimelyWriterReadsAfterPurge(s: State, steps: seq<Step>, m: nat, q: nat)
    requires Init(s) && Legal(s, steps) && m < q < |steps| && steps[m] == Purge
    requires steps[q].Put? && TimelyAt(s, steps, q)
    ensures Writer(s, steps, q).at > m
  {
    var r := Writer(s, steps, q);
    WriterHasRead(s, steps, q);
    PrefixStep(s, steps, m);
    PrefixStep(s, steps, q);
    PurgesGrow(s, steps, m + 1, q);
    if r.at <= m {
      PurgesGrow(s, steps, r.at, m);
      assert false;
    }
  }

  lemma LatestTimelyWriteReadsAfterPurge(s: State, steps: seq<Step>, m: nat, q: nat, k: string)
    requires Init(s) && Legal(s, steps) && m < |steps| && steps[m] == Purge
    requires TimelyUnder(s, steps, m + 1, k) && LatestWrite(s, steps, q, k)
    ensures q < |steps| && steps[q].Put? && Writer(s, steps, q).at > m
  {
    hide Init, Legal, Exec, TimelyAt;
    assert q > m;
    TimelyWriterReadsAfterPurge(s, steps, m, q);
  }

  /** After a purge, timely writes leave no earlier read. */
  lemma NoEarlierReadAfterPurge(s: State, steps: seq<Step>, i: nat, m: nat, k: string, lock: bool)
    requires Init(s) && Legal(s, steps) && i <= m < |steps| && steps[m] == Purge
    requires TimelyUnder(s, steps, m + 1, k)
    ensures !HoldsEarlierRead(s, steps, i, k, lock)
  {
    hide Init, Legal, Exec, TimelyUnder, LatestWrite;
    forall q: nat | LatestWrite(s, steps, q, k)
      ensures q < |steps| && steps[q].Put? && Writer(s, steps, q).at >= i
    {
      LatestTimelyWriteReadsAfterPurge(s, steps, m, q, k);
    }
  }

  /** So a lock takes effect at the first purge after it, whichever event caused that purge: from then on
      every evaluation of the policy is refused, as long as the retrieves of this policy write in time. */
  lemma LockTakesEffect(s: State, steps: seq<Step>, i: nat, m: nat, id: Identity)
    requires Init(s) && Legal(s, steps) && LockSince(s, steps, i, ConstructKey(id), true)
    requires i <= m < |steps| && steps[m] == Purge
    requires TimelyUnder(s, steps, m + 1, QueryCacheKey(id))
    requires NobodySharesCacheKey(steps, id)
    ensures Exec(s, steps).sh.Admitted(id) == Err(Forbidden)
  {
    AdmittedIffEarlierRead(s, steps, i, id);
    hide Init, Legal, Exec, TimelyUnder, LockSince, NobodySharesCacheKey, HoldsEarlierRead;
    NoEarlierReadAfterPurge(s, steps, i, m, QueryCacheKey(id), false);
  }

  // ------------------------------------------------------------------------
  // Two ways past a lock
  // ------------------------------------------------------------------------

  lemma Then(s: State, steps: seq<Step>, step: Step)
    requires Legal(s, steps) && Enabled(Exec(s, steps), step)
    ensures Legal(s, steps + [step]) && Exec(s, steps + [step]) == Apply(Exec(s, steps), step)
  {
    assert Front(steps + [step]) == steps && Last(steps + [step]) == step;
  }

  ghost predicate UnlockedInStore(s: State, id: Identity, p: Policy) {
    && Init(s) && s.sh.Stored(id) == Some(p) && !p.locked
  }

  /** The policy is locked, nothing is waiting, and it is still admitted. */
  predicate Slipped(s: State, id: Identity) {
    && IsLocked(s.sh, ConstructKey(id)) && !s.sh.Outstanding()
    && s.sh.Admitted(id).Ok?
  }

  function LateWriteRun(id: Identity): seq<Step> {
    [Miss(0, id)] + [Fetch(0)] + [SetLock(id, true)] + [Take(ConstructKey(id))] + [Purge] + [Put(0)]
  }

  /** No event is dropped, but a retrieve read the policy before the lock and caches it after the purge. */
  lemma LateWriteHidesLock(s: State, id: Identity, p: Policy)
    requires UnlockedInStore(s, id, p)
    ensures Legal(s, LateWriteRun(id)) && NoDrop(LateWriteRun(id)) && Slipped(Exec(s, LateWriteRun(id)), id)
    ensures
      var n := Exec(s, LateWriteRun(id));
      QueryCacheKey(id) in n.origin && n.origin[QueryCacheKey(id)].epoch < n.purges
  {
    OneStep(s, Miss(0, id));
    var run := [Miss(0, id)];
    Then(s, run, Fetch(0));
    run := run + [Fetch(0)];
    Then(s, run, SetLock(id, true));
    run := run + [SetLock(id, true)];
    Then(s, run, Take(ConstructKey(id)));
    run := run + [Take(ConstructKey(id))];
    Then(s, run, Purge);
    run := run + [Purge];
    Then(s, run, Put(0));
  }

  function DroppedEventRun(id: Identity): seq<Step> {
    [Miss(0, id)] + [Fetch(0)] + [Put(0)] + [SetLock(id, true)] + [Drop(ConstructKey(id))]
  }

  /** Every cache write is timely, but the sender of the lock event gives up. */
  lemma DroppedEventHidesLock(s: State, id: Identity, p: Policy)
    requires UnlockedInStore(s, id, p)
    ensures Legal(s, DroppedEventRun(id)) && Slipped(Exec(s, DroppedEventRun(id)), id)
    ensures AllCurrent(Exec(s, DroppedEventRun(id)))
  {
    OneStep(s, Miss(0, id));
    var run := [Miss(0, id)];
    Then(s, run, Fetch(0));
    run := run + [Fetch(0)];
    Then(s, run, Put(0));
    run := run + [Put(0)];
    Then(s, run, SetLock(id, true));
    run := run + [SetLock(id, true)];
    Then(s, run, Drop(ConstructKey(id)));
  }

  // ------------------------------------------------------------------------
  // Calls of Lock and Unlock between other steps
  // ------------------------------------------------------------------------

  /** A call that locks or unlocks: it reads the store after r steps, finds the policy there with the opposite
      lock, and writes at step w. */
  ghost predicate ChangesLock(s: State, steps: seq<Step>, r: nat, w: nat, id: Identity, lock: bool)
    requires Legal(s, steps)
  {
    && r <= w < |steps| && steps[w] == SetLock(id, lock) && Legal(s, steps[..r])
    && Exec(s, steps[..r]).sh.Stored(id).Some? && Exec(s, steps[..r]).sh.Stored(id).value.locked != lock
  }

  lemma StoredStep(s: State, step: Step, key: string)
    requires Enabled(s, step) && key in s.sh.store
    ensures key in Apply(s, step).sh.store
  {
  }

  lemma {:induction false} StoredStays(s: State, steps: seq<Step>, i: nat, j: nat, key: string)
    requires Legal(s, steps) && i <= j <= |steps| && Legal(s, steps[..i]) && Legal(s, steps[..j])
    requires key in Exec(s, steps[..i]).sh.store
    ensures key in Exec(s, steps[..j]).sh.store
    decreases j
  {
    if i < j {
      hide Apply, Effect, Enabled, Legal, Exec;
      PrefixStep(s, steps, j - 1);
      StoredStays(s, steps, i, j - 1, key);
      StoredStep(Exec(s, steps[..j - 1]), steps[j - 1], key);
    }
  }

  lemma WriteSetsLock(s: State, steps: seq<Step>, r: nat, w: nat, id: Identity, lock: bool)
    requires Legal(s, steps) && ChangesLock(s, steps, r, w, id, lock)
    ensures Legal(s, steps[..w + 1]) && HasLock(Exec(s, steps[..w + 1]).sh, ConstructKey(id), lock)
  {
    PrefixStep(s, steps, w);
    StoredStays(s, steps, r, w, ConstructKey(id));
  }

  /** Two successful calls that both lock a policy, or both unlock it, have a step between the write of the
      first and the read of the second that may undo the first, unless the second has read before the first
      writes. */
  lemma ChangesAlternateOrOverlap(s: State, steps: seq<Step>, r1: nat, w1: nat, r2: nat, w2: nat,
                                  a: Identity, b: Identity, lock: bool)
    requires Legal(s, steps) && ConstructKey(a) == ConstructKey(b)
    requires ChangesLock(s, steps, r1, w1, a, lock) && ChangesLock(s, steps, r2, w2, b, lock) && w1 < w2
    ensures r2 <= w1 || exists j :: w1 < j < r2 && MaySet(steps[j], ConstructKey(a), !lock)
  {
    if w1 < r2 && forall j :: w1 < j < r2 ==> !MaySet(steps[j], ConstructKey(a), !lock) {
      WriteSetsLock(s, steps, r1, w1, a, lock);
      hide Legal, Exec, MaySet;
      LockPersists(s, steps, ConstructKey(a), lock, w1 + 1, r2);
      assert false;
    }
  }

  /** Step j writes the lock of the policy under this key. */
  predicate WritesLock(step: Step, key: string) {
    MaySet(step, key, true) || MaySet(step, key, false)
  }

  /** The policy has the opposite lock after r steps. */
  lemma ReadsOpposite(s: State, steps: seq<Step>, r: nat, w: nat, id: Identity, lock: bool)
    requires Legal(s, steps) && r <= w < |steps| && steps[w] == SetLock(id, lock) && Legal(s, steps[..r])
    ensures ChangesLock(s, steps, r, w, id, lock) <==> HasLock(Exec(s, steps[..r]).sh, ConstructKey(id), !lock)
  {
  }

  lemma UntouchedStep(s: State, step: Step, key: string, lock: bool)
    requires Enabled(s, step) && !WritesLock(step, key)
    ensures HasLock(Apply(s, step).sh, key, lock) <==> HasLock(s.sh, key, lock)
  {
  }

  /** While nobody writes it, the lock stays, forwards and backwards. */
  lemma {:induction false} Untouched(s: State, steps: seq<Step>, i: nat, j: nat, key: string, lock: bool)
    requires Legal(s, steps) && i <= j <= |steps| && Legal(s, steps[..i]) && Legal(s, steps[..j])
    requires forall m :: i <= m < j ==> !WritesLock(steps[m], key)
    ensures HasLock(Exec(s, steps[..j]).sh, key, lock) <==> HasLock(Exec(s, steps[..i]).sh, key, lock)
    decreases j
  {
    if i < j {
      hide Apply, Effect, Enabled, Legal, Exec, HasLock, WritesLock;
      PrefixStep(s, steps, j - 1);
      Untouched(s, steps, i, j - 1, key, lock);
      UntouchedStep(Exec(s, steps[..j - 1]), steps[j - 1], key, lock);
    }
  }

  /** What the lock is when nothing but the write at w can have changed it between steps r1 and r2. */
  lemma LockAt(s: State, steps: seq<Step>, r1: nat, w: nat, r2: nat, key: string, lock: bool)
    requires Legal(s, steps) && r2 <= |steps| && r1 <= w < |steps|
    requires Legal(s, steps[..r1]) && HasLock(Exec(s, steps[..r1]).sh, key, !lock)
    requires Legal(s, steps[..w + 1]) && HasLock(Exec(s, steps[..w + 1]).sh, key, lock)
    requires forall j :: (r1 <= j < r2 || r2 <= j < r1) && j != w ==> !WritesLock(steps[j], key)
    ensures Legal(s, steps[..r2]) && HasLock(Exec(s, steps[..r2]).sh, key, if r2 <= w then !lock else lock)
  {
    hide Legal, Exec, Clean, WritesLock, HasLock;
    PrefixIsLegal(s, steps, r2);
    if r2 < r1 {
      Untouched(s, steps, r2, r1, key, !lock);
    } else if r2 <= w {
      Untouched(s, steps, r1, r2, key, !lock);
    } else {
      Untouched(s, steps, w + 1, r2, key, lock);
    }
  }

  /** When two calls that would both lock a policy, or both unlock it, do both succeed: given the first one and
      that nothing but its write can have changed the lock between the two reads, in whichever order they come,
      the one that writes later succeeds if and only if it has read before the other writes. */
  lemma SecondSucceedsIffOverlap(s: State, steps: seq<Step>, r1: nat, w1: nat, r2: nat, w2: nat,
                                 a: Identity, b: Identity, lock: bool)
    requires Legal(s, steps) && ConstructKey(a) == ConstructKey(b)
    requires ChangesLock(s, steps, r1, w1, a, lock)
    requires r2 <= w2 < |steps| && w1 < w2 && steps[w2] == SetLock(b, lock)
    requires forall j :: (r1 <= j < r2 || r2 <= j < r1) && j != w1 ==> !WritesLock(steps[j], ConstructKey(a))
    ensures ChangesLock(s, steps, r2, w2, b, lock) <==> r2 <= w1
  {
    ReadsOpposite(s, steps, r1, w1, a, lock);
    WriteSetsLock(s, steps, r1, w1, a, lock);
    assert Legal(s, steps[..r1]);
    hide Legal, Exec, ChangesLock, WritesLock;
    LockAt(s, steps, r1, w1, r2, ConstructKey(a), lock);
    ReadsOpposite(s, steps, r2, w2, b, lock);
  }

  /** For example two calls that read one after the other and then write one after the other, from any state in
      which the policy can be changed. */
  lemma OverlappingChangesBothSucceed(s: State, a: Identity, b: Identity, lock: bool)
    requires HasLock(s.sh, ConstructKey(a), !lock) && ConstructKey(a) == ConstructKey(b)
    ensures
      var steps := [SetLock(a, lock)] + [SetLock(b, lock)];
      Legal(s, steps) && ChangesLock(s, steps, 0, 0, a, lock) && ChangesLock(s, steps, 0, 1, b, lock)
  {
    var steps := [SetLock(a, lock)] + [SetLock(b, lock)];
    OneStep(s, SetLock(a, lock));
    Then(s, [SetLock(a, lock)], SetLock(b, lock));
    assert steps[..0] == [];
    SecondSucceedsIffOverlap(s, steps, 0, 0, 0, 1, a, b, lock);
  }
}
