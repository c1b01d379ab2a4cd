/** The service's calls when they run one after another, on the shared state of storage and cache. */
module Calls {
  import opened Wrappers
  import opened Policies
  import opened Strings
  import opened CacheProtocol
  import opened CacheCoherence
  import opened LockGate

  /** What the external cache service does with a result. */
  datatype Kept = Kept | Unavailable | Refused

  /** Rego evaluation, the external cache of results, JSON Schema validation, and the configured lock on
      validation failure. The engines are library code: a policy, its request and the input give an output or
      fail, and a schema either does not compile or accepts or rejects an output. */
  datatype Env = Env(
    evaluate: (Identity, Policy, string) -> Option<string>,
    keep: (Identity, string, string) -> Kept,
    accepts: (string, string) -> Option<bool>,
    validationLock: bool)

  function Retrieve(sh: Shared, id: Identity): (Result<Policy>, Shared) {
    if QueryCacheKey(id) in sh.cache then (Ok(sh.cache[QueryCacheKey(id)]), sh)
    else
      match sh.Stored(id)
      case None => (Err(NotFound), sh)
      case Some(p) => (Ok(p), sh.WithCached(id, p))
  }

  function Evaluate(env: Env, sh: Shared, id: Identity, input: string): (Result<string>, Shared) {
    var (pol, sh1) := Retrieve(sh, id);
    match pol
    case Err(e) => (Err(e), sh1)
    case Ok(p) =>
      if p.locked then (Err(Forbidden), sh1)
      else
        match env.evaluate(id, p, input)
        case None => (Err(Failure), sh1)
        case Some(output) => (if env.keep(id, input, output) == Refused then Err(Failure) else Ok(output), sh1)
  }

  /** Lock the policy a caller holds, by that policy's own identity. */
  function LockHeld(sh: Shared, p: Policy): (Result<()>, Shared) {
    if p.locked then (Err(Forbidden), sh)
    else if sh.Stored(p.Id()).None? then (Err(NotFound), sh)
    else (Ok(()), sh.WithLock(p.Id(), true))
  }

  function Validate(env: Env, sh: Shared, id: Identity, input: string): (Result<string>, Shared) {
    var (pol, sh1) := Retrieve(sh, id);
    match pol
    case Err(e) => (Err(e), sh1)
    case Ok(p) =>
      if p.outputSchema == "" then (Err(BadRequest), sh1)
      else
        var (res, sh2) := Evaluate(env, sh1, id, input);
        match res
        case Err(e) => (Err(e), sh2)
        case Ok(output) =>
          match env.accepts(p.outputSchema, output)
          case None => (Err(Failure), sh2)
          case Some(true) => (Ok(output), sh2)
          case Some(false) => (Err(Failure), if env.validationLock then LockHeld(sh2, p).1 else sh2)
  }

  function Lock(sh: Shared, id: Identity): (Result<()>, Shared) {
    match sh.Stored(id)
    case None => (Err(NotFound), sh)
    case Some(p) => LockHeld(sh, p)
  }

  function Unlock(sh: Shared, id: Identity): (Result<()>, Shared) {
    match sh.Stored(id)
    case None => (Err(NotFound), sh)
    case Some(p) => if !p.locked then (Err(Forbidden), sh) else (Ok(()), sh.WithLock(id, false))
  }

  /** One turn of the listener: take the event, if it waits, and purge. */
  function Deliver(sh: Shared, event: string): Shared {
    if event in sh.pending && sh.taken.None? then sh.EventTaken(event).Purged() else sh
  }

  datatype Call =
    | EvaluateCall(id: Identity, input: string)
    | ValidateCall(id: Identity, input: string)
    | LockCall(id: Identity)
    | UnlockCall(id: Identity)
    | SaveCall(pol: Policy)
    | RefreshTimeCall(key: string, t: Time)
    | DeliverCall(event: string)

  function After(env: Env, sh: Shared, call: Call): Shared {
    match call
    case EvaluateCall(id, input) => Evaluate(env, sh, id, input).1
    case ValidateCall(id, input) => Validate(env, sh, id, input).1
    case LockCall(id) => Lock(sh, id).1
    case UnlockCall(id) => Unlock(sh, id).1
    case SaveCall(p) => sh.WithSaved(p)
    case RefreshTimeCall(key, t) => if key in sh.store then sh.WithRefreshTime(key, t) else sh
    case DeliverCall(event) => Deliver(sh, event)
  }

  function AfterAll(env: Env, sh: Shared, calls: seq<Call>): Shared
    decreases |calls|
  {
    if calls == [] then sh else After(env, AfterAll(env, sh, Front(calls)), Last(calls))
  }

  // ------------------------------------------------------------------------
  // Lock discipline
  // ------------------------------------------------------------------------

  predicate Locks(sh: Shared, call: Call, key: string) {
    call.LockCall? && ConstructKey(call.id) == key && Lock(sh, call.id).0.Ok?
  }

  predicate Unlocks(sh: Shared, call: Call, key: string) {
    call.UnlockCall? && ConstructKey(call.id) == key && Unlock(sh, call.id).0.Ok?
  }

  predicate Replaces(call: Call, key: string) {
    call.SaveCall? && ConstructKey(call.pol.Id()) == key
  }

  /** A validation of the stored policy under the key whose output the schema rejects, while the lock on such
      failures is configured. */
  predicate RejectsAndLocks(env: Env, sh: Shared, call: Call, key: string) {
    && call.ValidateCall? && env.validationLock && SchemaRejects(env, sh, call.id, call.input)
    && ConstructKey(Retrieve(sh, call.id).0.value.Id()) == key && key in sh.store
  }

  lemma StoreKeysKept(env: Env, sh: Shared, call: Call)
    requires Keyed(sh.store)
    ensures Keyed(After(env, sh, call).store)
  {
    match call
    case EvaluateCall(id, input) => EvaluateReadsStore(env, sh, id, input);
    case ValidateCall(id, input) => ValidateStore(env, sh, id, input);
    case _ =>
  }

  lemma {:induction false} StoreKeysAlwaysKept(env: Env, sh: Shared, calls: seq<Call>)
    requires Keyed(sh.store)
    ensures Keyed(AfterAll(env, sh, calls).store)
    decreases |calls|
  {
    if calls != [] {
      StoreKeysAlwaysKept(env, sh, Front(calls));
      StoreKeysKept(env, AfterAll(env, sh, Front(calls)), Last(calls));
    }
  }

  lemma EvaluateReadsStore(env: Env, sh: Shared, id: Identity, input: string)
    ensures Evaluate(env, sh, id, input).1.store == sh.store
  {
  }

  /** Validating leaves the store alone or locks one stored policy. */
  lemma ValidateStore(env: Env, sh: Shared, id: Identity, input: string)
    ensures
      var after := Validate(env, sh, id, input).1;
      var pol := Retrieve(sh, id).0;
      || after.store == sh.store
      || (pol.Ok? && sh.Stored(pol.value.Id()).Some? && after.store == sh.WithLock(pol.value.Id(), true).store)
  {
    EvaluateReadsStore(env, Retrieve(sh, id).1, id, input);
  }

  /** Validating, whatever its outcome, never unlocks any policy and never touches anything but locks. */
  lemma ValidateNeverUnlocks(env: Env, sh: Shared, id: Identity, input: string, key: string)
    requires key in sh.store
    ensures
      var after := Validate(env, sh, id, input).1;
      && key in after.store
      && (sh.store[key].locked ==> after.store[key].locked)
      && after.store[key].(locked := false) == sh.store[key].(locked := false)
  {
    ValidateStore(env, sh, id, input);
  }

  /** A validation changes the store in one case only: a rejected output, with the lock configured, locks the
      stored policy that was validated. */
  lemma ValidateLocksOnRejection(env: Env, sh: Shared, id: Identity, input: string, key: string)
    requires Keyed(sh.store)
    ensures
      var after := Validate(env, sh, id, input).1;
      && (RejectsAndLocks(env, sh, ValidateCall(id, input), key) ==> IsLocked(after, key))
      && (!RejectsAndLocks(env, sh, ValidateCall(id, input), key) ==> IsLocked(after, key) == IsLocked(sh, key))
  {
    EvaluateReadsStore(env, Retrieve(sh, id).1, id, input);
    if SchemaRejects(env, sh, id, input) {
      EvaluatedIsRetrieved(env, sh, id, input);
    }
  }

  /** An evaluation after a retrieve is of the policy retrieved, which was not locked if it succeeds. */
  lemma EvaluatedIsRetrieved(env: Env, sh: Shared, id: Identity, input: string)
    requires Retrieve(sh, id).0.Ok? && Evaluate(env, Retrieve(sh, id).1, id, input).0.Ok?
    ensures !Retrieve(sh, id).0.value.locked
  {
  }

  /** Exactly what one call can do to the lock of a policy. */
  lemma LockEffect(env: Env, sh: Shared, call: Call, key: string)
    requires Keyed(sh.store) && !Replaces(call, key)
    ensures
      var before, after := IsLocked(sh, key), IsLocked(After(env, sh, call), key);
      && (before && !after <==> Unlocks(sh, call, key))
      && (!before && after <==> Locks(sh, call, key) || (!before && RejectsAndLocks(env, sh, call, key)))
  {
    match call
    case EvaluateCall(id, input) => EvaluateReadsStore(env, sh, id, input);
    case ValidateCall(id, input) => ValidateLocksOnRejection(env, sh, id, input, key);
    case _ =>
  }

  /** The call at position m of the run. */
  predicate LocksAt(env: Env, sh: Shared, calls: seq<Call>, m: nat, key: string)
    requires m < |calls|
  {
    Locks(AfterAll(env, sh, calls[..m]), calls[m], key)
  }

  predicate UnlocksAt(env: Env, sh: Shared, calls: seq<Call>, m: nat, key: string)
    requires m < |calls|
  {
    Unlocks(AfterAll(env, sh, calls[..m]), calls[m], key)
  }

  predicate RejectsAt(env: Env, sh: Shared, calls: seq<Call>, m: nat, key: string)
    requires m < |calls|
  {
    RejectsAndLocks(env, AfterAll(env, sh, calls[..m]), calls[m], key)
  }

  lemma NextState(env: Env, sh: Shared, calls: seq<Call>, m: nat)
    requires m < |calls|
    ensures AfterAll(env, sh, calls[..m + 1]) == After(env, AfterAll(env, sh, calls[..m]), calls[m])
  {
    assert Front(calls[..m + 1]) == calls[..m] && Last(calls[..m + 1]) == calls[m];
  }

  /** A lock that is gone was given up by an unlock in between. */
  lemma {:induction false} UnlockBetween(env: Env, sh: Shared, calls: seq<Call>, i: nat, j: nat, key: string) returns (m: nat)
    requires Keyed(sh.store) && i <= j <= |calls|
    requires forall q :: i <= q < j ==> !Replaces(calls[q], key)
    requires IsLocked(AfterAll(env, sh, calls[..i]), key) && !IsLocked(AfterAll(env, sh, calls[..j]), key)
    ensures i <= m < j && UnlocksAt(env, sh, calls, m, key)
    decreases j
  {
    hide After, Locks, Unlocks, RejectsAndLocks, IsLocked;
    StoreKeysAlwaysKept(env, sh, calls[..j - 1]);
    NextState(env, sh, calls, j - 1);
    LockEffect(env, AfterAll(env, sh, calls[..j - 1]), calls[j - 1], key);
    if IsLocked(AfterAll(env, sh, calls[..j - 1]), key) {
      m := j - 1;
    } else {
      m := UnlockBetween(env, sh, calls, i, j - 1, key);
    }
  }

  lemma {:induction false} LockBetween(env: Env, sh: Shared, calls: seq<Call>, i: nat, j: nat, key: string) returns (m: nat)
    requires Keyed(sh.store) && i <= j <= |calls|
    requires forall q :: i <= q < j ==> !Replaces(calls[q], key)
    requires !IsLocked(AfterAll(env, sh, calls[..i]), key) && IsLocked(AfterAll(env, sh, calls[..j]), key)
    ensures i <= m < j && (LocksAt(env, sh, calls, m, key) || RejectsAt(env, sh, calls, m, key))
    decreases j
  {
    hide After, Locks, Unlocks, RejectsAndLocks, IsLocked;
    StoreKeysAlwaysKept(env, sh, calls[..j - 1]);
    NextState(env, sh, calls, j - 1);
    LockEffect(env, AfterAll(env, sh, calls[..j - 1]), calls[j - 1], key);
    if !IsLocked(AfterAll(env, sh, calls[..j - 1]), key) {
      m := j - 1;
    } else {
      m := LockBetween(env, sh, calls, i, j - 1, key);
    }
  }

  /** Between two successful locks of a policy there is a successful unlock of it, and between two
      successful unlocks a successful lock of it or a validation that rejects its output, unless the policy is replaced in
      between. */
  lemma LocksAndUnlocksAlternate(env: Env, sh: Shared, calls: seq<Call>, i: nat, j: nat, key: string)
    requires Keyed(sh.store) && i < j < |calls|
    requires forall q :: i < q < j ==> !Replaces(calls[q], key)
    ensures LocksAt(env, sh, calls, i, key) && LocksAt(env, sh, calls, j, key) ==>
              exists m :: i < m < j && UnlocksAt(env, sh, calls, m, key)
    ensures UnlocksAt(env, sh, calls, i, key) && UnlocksAt(env, sh, calls, j, key) ==>
              exists m :: i < m < j && (LocksAt(env, sh, calls, m, key) || RejectsAt(env, sh, calls, m, key))
  {
    hide After, Lock, Unlock, RejectsAndLocks, IsLocked;
    StoreKeysAlwaysKept(env, sh, calls[..i]);
    StoreKeysAlwaysKept(env, sh, calls[..j]);
    NextState(env, sh, calls, i);
    if LocksAt(env, sh, calls, i, key) && LocksAt(env, sh, calls, j, key) {
      LockEffect(env, AfterAll(env, sh, calls[..i]), calls[i], key);
      LockEffect(env, AfterAll(env, sh, calls[..j]), calls[j], key);
      var m := UnlockBetween(env, sh, calls, i + 1, j, key);
    }
    if UnlocksAt(env, sh, calls, i, key) && UnlocksAt(env, sh, calls, j, key) {
      LockEffect(env, AfterAll(env, sh, calls[..i]), calls[i], key);
      LockEffect(env, AfterAll(env, sh, calls[..j]), calls[j], key);
      var m := LockBetween(env, sh, calls, i + 1, j, key);
    }
  }

  // ------------------------------------------------------------------------
  // Calls as runs of the machine
  // ------------------------------------------------------------------------

  ghost predicate Asks(call: Call, ids: iset<Identity>) {
    call.EvaluateCall? || call.ValidateCall? ==> call.id in ids
  }

  /** What holds between two calls: no retrieve is in flight and the listener is idle. */
  ghost predicate Between(s: State) {
    s.readers == map[] && s.sh.taken.None? && Keyed(s.sh.store)
  }

  ghost predicate Simulates(s: State, steps: seq<Step>, sh: Shared, ids: iset<Identity>) {
    && Legal(s, steps) && Clean(s, steps) && RequestsIn(steps, ids)
    && Exec(s, steps).sh == sh && Between(Exec(s, steps))
  }

  lemma Sequence(s: State, a: seq<Step>, b: seq<Step>, sh1: Shared, sh2: Shared, ids: iset<Identity>)
    requires Simulates(s, a, sh1, ids) && Simulates(Exec(s, a), b, sh2, ids)
    ensures Simulates(s, a + b, sh2, ids)
  {
    Append(s, a, b);
  }

  lemma RetrieveIsRun(s: State, id: Identity, ids: iset<Identity>) returns (steps: seq<Step>)
    requires Between(s) && id in ids
    ensures Simulates(s, steps, Retrieve(s.sh, id).1, ids)
  {
    if QueryCacheKey(id) in s.sh.cache {
      steps := [];
    } else {
      match s.sh.Stored(id)
      case None =>
        var s1 := Apply(s, Miss(0, id));
        OneStep(s1, Fetch(0));
        StepFirst(s, Miss(0, id), [Fetch(0)]);
        steps := [Miss(0, id)] + [Fetch(0)];
        assert Apply(s1, Fetch(0)).readers == map[];
      case Some(p) =>
        FirstRetrieve(s, id, p);
        steps := [Miss(0, id), Fetch(0), Put(0)];
    }
  }

  lemma LockHeldIsRun(s: State, p: Policy, ids: iset<Identity>) returns (steps: seq<Step>)
    requires Between(s)
    ensures Simulates(s, steps, LockHeld(s.sh, p).1, ids)
  {
    if p.locked || s.sh.Stored(p.Id()).None? {
      steps := [];
    } else {
      steps := [SetLock(p.Id(), true)];
      OneStep(s, SetLock(p.Id(), true));
    }
  }

  lemma ValidateIsRun(env: Env, s: State, id: Identity, input: string, ids: iset<Identity>) returns (steps: seq<Step>)
    requires Between(s) && id in ids
    ensures Simulates(s, steps, Validate(env, s.sh, id, input).1, ids)
  {
    var (pol, sh1) := Retrieve(s.sh, id);
    steps := RetrieveIsRun(s, id, ids);
    if pol.Ok? && pol.value.outputSchema != "" {
      var more := RetrieveIsRun(Exec(s, steps), id, ids);
      var (res, sh2) := Evaluate(env, sh1, id, input);
      Sequence(s, steps, more, sh1, sh2, ids);
      steps := steps + more;
      if res.Ok? && env.accepts(pol.value.outputSchema, res.value) == Some(false) && env.validationLock {
        var lock := LockHeldIsRun(Exec(s, steps), pol.value, ids);
        Sequence(s, steps, lock, sh2, LockHeld(sh2, pol.value).1, ids);
        steps := steps + lock;
      }
    }
  }

  /** Every call is a clean stretch of machine steps. */
  lemma CallIsRun(env: Env, s: State, call: Call, ids: iset<Identity>) returns (steps: seq<Step>)
    requires Between(s) && Asks(call, ids)
    ensures Simulates(s, steps, After(env, s.sh, call), ids)
  {
    steps := [];
    match call
    case EvaluateCall(id, input) =>
      steps := RetrieveIsRun(s, id, ids);
    case ValidateCall(id, input) =>
      steps := ValidateIsRun(env, s, id, input, ids);
    case LockCall(id) =>
      if s.sh.Stored(id).Some? {
        steps := LockHeldIsRun(s, s.sh.Stored(id).value, ids);
      }
    case UnlockCall(id) =>
      if Unlock(s.sh, id).0.Ok? {
        steps := [SetLock(id, false)];
        OneStep(s, SetLock(id, false));
      }
    case SaveCall(p) =>
      steps := [Save(p)];
      OneStep(s, Save(p));
    case RefreshTimeCall(key, t) =>
      if key in s.sh.store {
        steps := [SetRefreshTime(key, t)];
        OneStep(s, SetRefreshTime(key, t));
      }
    case DeliverCall(event) =>
      if event in s.sh.pending {
        OneStep(Apply(s, Take(event)), Purge);
        StepFirst(s, Take(event), [Purge]);
        steps := [Take(event)] + [Purge];
      }
  }

  /** So calls made one after another are a clean run, and every theorem about clean runs is about them. */
  lemma {:induction false} CallsAreRun(env: Env, s: State, calls: seq<Call>, ids: iset<Identity>) returns (steps: seq<Step>)
    requires Between(s)
    requires forall c :: c in calls ==> Asks(c, ids)
    ensures Simulates(s, steps, AfterAll(env, s.sh, calls), ids)
    decreases |calls|
  {
    if calls == [] {
      steps := [];
    } else {
      steps := CallsAreRun(env, s, Front(calls), ids);
      assert Last(calls) in calls;
      var more := CallIsRun(env, Exec(s, steps), Last(calls), ids);
      Sequence(s, steps, more, AfterAll(env, s.sh, Front(calls)), AfterAll(env, s.sh, calls), ids);
      steps := steps + more;
    }
  }

  // ------------------------------------------------------------------------
  // The lock on validation failure
  // ------------------------------------------------------------------------

  /** The policy evaluates, its schema compiles, and the schema rejects the output. */
  predicate SchemaRejects(env: Env, sh: Shared, id: Identity, input: string) {
    var pol := Retrieve(sh, id).0;
    && pol.Ok? && pol.value.outputSchema != ""
    && var res := Evaluate(env, Retrieve(sh, id).1, id, input).0;
       res.Ok? && env.accepts(pol.value.outputSchema, res.value) == Some(false)
  }

  ghost predicate Fresh(sh: Shared) {
    Keyed(sh.store) && sh.cache == map[] && !sh.Outstanding()
  }

  function Boot(sh: Shared): State {
    State(sh, map[], 0, map[], 0)
  }

  /** The policy that a retrieve returns, at any time, is stored under the key of the request. */
  lemma RetrievedIsStored(env: Env, sh: Shared, calls: seq<Call>, ids: iset<Identity>, id: Identity)
    requires Fresh(sh) && CollisionFree(ids) && id in ids
    requires forall c :: c in calls ==> Asks(c, ids)
    ensures
      var after := AfterAll(env, sh, calls);
      var pol := Retrieve(after, id).0;
      pol.Ok? ==> ConstructKey(pol.value.Id()) == ConstructKey(id) && ConstructKey(id) in after.store
  {
    var s := Boot(sh);
    var steps := CallsAreRun(env, s, calls, ids);
    var n := Exec(s, steps);
    var k := QueryCacheKey(id);
    if k in n.sh.cache {
      CacheHoldsStoredPolicies(s, steps);
      assert EntryHistory(s, steps, k);
      var i := n.origin[k].at;
      RunKeepsStoreKeys(s, steps[..i]);
      RunKeepsStored(s, steps, i, ConstructKey(id));
    }
  }

  lemma {:induction false} RunKeepsStoreKeys(s: State, steps: seq<Step>)
    requires Legal(s, steps) && Keyed(s.sh.store)
    ensures Keyed(Exec(s, steps).sh.store)
    decreases |steps|
  {
    if steps != [] {
      RunKeepsStoreKeys(s, Front(steps));
      StepKeepsStoreKeys(Exec(s, Front(steps)), Last(steps));
    }
  }

  lemma StepKeepsStoreKeys(s: State, step: Step)
    requires Enabled(s, step) && Keyed(s.sh.store)
    ensures Keyed(Apply(s, step).sh.store)
  {
  }

  lemma StepKeepsStored(s: State, step: Step, key: string)
    requires Enabled(s, step) && key in s.sh.store
    ensures key in Apply(s, step).sh.store
  {
  }

  lemma {:induction false} RunKeepsStored(s: State, steps: seq<Step>, i: nat, key: string)
    requires Legal(s, steps) && i <= |steps| && Legal(s, steps[..i])
    requires key in Exec(s, steps[..i]).sh.store
    ensures key in Exec(s, steps).sh.store
    decreases |steps|
  {
    if i == |steps| {
      assert steps[..i] == steps;
    } else {
      assert Front(steps)[..i] == steps[..i];
      RunKeepsStored(s, Front(steps), i, key);
      StepKeepsStored(Exec(s, Front(steps)), Last(steps), key);
    }
  }

  /** With the lock on validation failure configured, a rejected output leaves the policy locked. */
  lemma RejectionLocks(env: Env, sh: Shared, calls: seq<Call>, ids: iset<Identity>, id: Identity, input: string)
    requires Fresh(sh) && CollisionFree(ids) && id in ids && env.validationLock
    requires forall c :: c in calls ==> Asks(c, ids)
    requires SchemaRejects(env, AfterAll(env, sh, calls), id, input)
    ensures
      var (res, after) := Validate(env, AfterAll(env, sh, calls), id, input);
      res == Err(Failure) && IsLocked(after, ConstructKey(id))
  {
    var before := AfterAll(env, sh, calls);
    RetrievedIsStored(env, sh, calls, ids, id);
    var p := Retrieve(before, id).0.value;
    assert Retrieve(Retrieve(before, id).1, id).0 == Ok(p);
    assert ConstructKey(p.Id()) == ConstructKey(id);
  }

  predicate MayUnlockCall(call: Call, key: string) {
    || (call.UnlockCall? && ConstructKey(call.id) == key)
    || (call.SaveCall? && ConstructKey(call.pol.Id()) == key)
  }

  lemma {:induction false} LockedWhileUntouched(env: Env, sh: Shared, calls: seq<Call>, i: nat, key: string)
    requires i <= |calls| && IsLocked(AfterAll(env, sh, calls[..i]), key) && Keyed(sh.store)
    requires forall j :: i <= j < |calls| ==> !MayUnlockCall(calls[j], key)
    ensures IsLocked(AfterAll(env, sh, calls), key)
    decreases |calls|
  {
    if i == |calls| {
      assert calls[..i] == calls;
    } else {
      assert Front(calls)[..i] == calls[..i];
      LockedWhileUntouched(env, sh, Front(calls), i, key);
      StoreKeysAlwaysKept(env, sh, Front(calls));
      LockEffect(env, AfterAll(env, sh, Front(calls)), Last(calls), key);
    }
  }

  /** With the lock on validation failure configured, a policy whose output its schema once rejected is
      never evaluated again, as soon as the events have drained, until it is unlocked or replaced. */
  lemma RejectedPolicyIsRefused(env: Env, sh: Shared, calls: seq<Call>, i: nat, ids: iset<Identity>, id: Identity, input: string)
    requires Fresh(sh) && CollisionFree(ids) && id in ids && env.validationLock
    requires forall c :: c in calls ==> Asks(c, ids)
    requires i < |calls| && calls[i].ValidateCall? && calls[i].id == id
    requires SchemaRejects(env, AfterAll(env, sh, calls[..i]), id, calls[i].input)
    requires forall j :: i < j < |calls| ==> !MayUnlockCall(calls[j], ConstructKey(id))
    requires !AfterAll(env, sh, calls).Outstanding()
    ensures Evaluate(env, AfterAll(env, sh, calls), id, input).0 == Err(Forbidden)
  {
    RejectionLocks(env, sh, calls[..i], ids, id, calls[i].input);
    NextState(env, sh, calls, i);
    LockedWhileUntouched(env, sh, calls, i + 1, ConstructKey(id));
    var s := Boot(sh);
    var steps := CallsAreRun(env, s, calls, ids);
    SettledCacheAnswersAsStore(s, steps, ids, id);
  }
}
