/** What the calls answer, told from the stored policies, and what a save leaves behind. */
module CallAnswers {
  import opened Wrappers
  import opened Policies
  import opened Strings
  import opened CacheProtocol
  import opened CacheCoherence
  import opened LockGate
  import opened Calls

  // ------------------------------------------------------------------------
  // Evaluations and validations
  // ------------------------------------------------------------------------

  /** The same policy, but for the refresh schedule. */
  predicate SameButSchedule(p: Policy, q: Policy) {
    q == p.(nextDataRefreshTime := q.nextDataRefreshTime)
  }

  lemma AgreesIsSameButSchedule(p: Policy, q: Policy)
    ensures p.Agrees(q) <==> SameButSchedule(p, q)
  {
  }

  /** Once the events of a clean run have been delivered, a retrieve gives the stored policy. */
  lemma RetrieveAnswers(s: State, steps: seq<Step>, ids: iset<Identity>, id: Identity)
    requires SettledRun(s, steps, ids) && CollisionFree(ids) && id in ids
    ensures
      var sh := Exec(s, steps).sh;
      var res := Retrieve(sh, id).0;
      if ConstructKey(id) in sh.store then res.Ok? && SameButSchedule(sh.store[ConstructKey(id)], res.value)
      else res == Err(NotFound)
  {
    SettledCacheAnswersAsStore(s, steps, ids, id);
  }

  /** Then an evaluation answers from the stored policy: not found without one, refused if it is locked, and
      otherwise what evaluating it gives, unless that fails or the result cannot be kept. */
  lemma EvaluateAnswers(env: Env, s: State, steps: seq<Step>, ids: iset<Identity>, id: Identity, input: string)
    returns (q: Policy)
    requires SettledRun(s, steps, ids) && CollisionFree(ids) && id in ids
    ensures
      var store := Exec(s, steps).sh.store;
      var res, key := Evaluate(env, Exec(s, steps).sh, id, input).0, ConstructKey(id);
      && (key !in store ==> res == Err(NotFound))
      && (key in store ==> SameButSchedule(store[key], q))
      && (key in store && store[key].locked ==> res == Err(Forbidden))
      && (key in store && !store[key].locked ==>
            match env.evaluate(id, q, input)
            case None => res == Err(Failure)
            case Some(output) => res == if env.keep(id, input, output) == Refused then Err(Failure) else Ok(output))
  {
    var sh := Exec(s, steps).sh;
    RetrieveAnswers(s, steps, ids, id);
    hide Exec, Legal, SettledRun, CollisionFree, Retrieve;
    var res := Retrieve(sh, id).0;
    q := if res.Ok? then res.value else Sample(id);
  }

  /** Evaluation does not look at the refresh schedule. */
  ghost predicate IgnoresSchedule(env: Env) {
    forall id, p, q, input :: SameButSchedule(p, q) ==> env.evaluate(id, p, input) == env.evaluate(id, q, input)
  }

  /** So a result is the output of evaluating the stored policy, if and only if that policy is not locked and
      the result can be kept. */
  lemma EvaluatesToIff(env: Env, s: State, steps: seq<Step>, ids: iset<Identity>, id: Identity, input: string, output: string)
    requires SettledRun(s, steps, ids) && CollisionFree(ids) && id in ids && IgnoresSchedule(env)
    ensures
      var store, key := Exec(s, steps).sh.store, ConstructKey(id);
      Evaluate(env, Exec(s, steps).sh, id, input).0 == Ok(output) <==>
      && key in store && !store[key].locked
      && env.evaluate(id, store[key], input) == Some(output) && env.keep(id, input, output) != Refused
  {
    var q := EvaluateAnswers(env, s, steps, ids, id, input);
    hide Exec, Legal, SettledRun, CollisionFree, Evaluate;
  }

  /** At any time, settled or not, an evaluation is refused exactly when the gate refuses it. */
  lemma EvaluateGate(env: Env, sh: Shared, id: Identity, input: string)
    ensures
      var res := Evaluate(env, sh, id, input).0;
      && (sh.Admitted(id).Err? ==> res == Err(sh.Admitted(id).error))
      && (sh.Admitted(id).Ok? ==> res != Err(Forbidden) && res != Err(NotFound))
  {
  }

  /** A validation answers likewise, and only an output that the stored policy's schema accepts. */
  lemma ValidateAnswers(env: Env, s: State, steps: seq<Step>, ids: iset<Identity>, id: Identity, input: string)
    returns (q: Policy)
    requires SettledRun(s, steps, ids) && CollisionFree(ids) && id in ids
    ensures
      var store := Exec(s, steps).sh.store;
      var res, key := Validate(env, Exec(s, steps).sh, id, input).0, ConstructKey(id);
      && (key !in store ==> res == Err(NotFound))
      && (key in store ==> SameButSchedule(store[key], q))
      && (key in store && store[key].outputSchema == "" ==> res == Err(BadRequest))
      && (key in store && store[key].outputSchema != "" && store[key].locked ==> res == Err(Forbidden))
      && (key in store && store[key].outputSchema != "" && !store[key].locked ==>
            match env.evaluate(id, q, input)
            case None => res == Err(Failure)
            case Some(output) =>
              if env.keep(id, input, output) != Refused && env.accepts(store[key].outputSchema, output) == Some(true)
              then res == Ok(output) else res == Err(Failure))
  {
    var sh := Exec(s, steps).sh;
    RetrieveAnswers(s, steps, ids, id);
    hide Exec, Legal, SettledRun, CollisionFree;
    RetrieveAgain(sh, id);
    hide Retrieve;
    var res := Retrieve(sh, id).0;
    q := if res.Ok? then res.value else Sample(id);
  }

  lemma RetrieveAgain(sh: Shared, id: Identity)
    ensures Retrieve(Retrieve(sh, id).1, id).0 == Retrieve(sh, id).0
  {
  }

  // ------------------------------------------------------------------------
  // Locks
  // ------------------------------------------------------------------------

  /** Locking answers from the stored policy and changes nothing but its lock, and only when it succeeds. */
  lemma LockAnswers(sh: Shared, id: Identity)
    requires Keyed(sh.store)
    ensures
      var (res, after) := Lock(sh, id);
      var key := ConstructKey(id);
      && (key !in sh.store ==> res == Err(NotFound) && after == sh)
      && (key in sh.store && sh.store[key].locked ==> res == Err(Forbidden) && after == sh)
      && (key in sh.store && !sh.store[key].locked ==>
            && res == Ok(()) && after.store == sh.store[key := sh.store[key].(locked := true)]
            && after.cache == sh.cache && after.pending == sh.pending + multiset{key} && after.taken == sh.taken)
  {
  }

  lemma UnlockAnswers(sh: Shared, id: Identity)
    ensures
      var (res, after) := Unlock(sh, id);
      var key := ConstructKey(id);
      && (key !in sh.store ==> res == Err(NotFound) && after == sh)
      && (key in sh.store && !sh.store[key].locked ==> res == Err(Forbidden) && after == sh)
      && (key in sh.store && sh.store[key].locked ==>
            && res == Ok(()) && after.store == sh.store[key := sh.store[key].(locked := false)]
            && after.cache == sh.cache && after.pending == sh.pending + multiset{key} && after.taken == sh.taken)
  {
  }

  // ------------------------------------------------------------------------
  // Saves
  // ------------------------------------------------------------------------

  /** The store holds this policy under its key, but for the refresh schedule. */
  predicate Holds(sh: Shared, p: Policy) {
    ConstructKey(p.Id()) in sh.store && SameButSchedule(p, sh.store[ConstructKey(p.Id())])
  }

  lemma SaveStep(s: State, p: Policy)
    ensures
      var after := Apply(s, Save(p)).sh;
      && after.store == s.sh.store[ConstructKey(p.Id()) := p] && after.cache == s.sh.cache
      && after.pending == s.sh.pending + multiset{ConstructKey(p.Id())} && after.taken == s.sh.taken
  {
  }

  lemma HoldsStep(s: State, step: Step, p: Policy)
    requires Enabled(s, step) && Holds(s.sh, p) && !WritesLock(step, ConstructKey(p.Id()))
    ensures Holds(Apply(s, step).sh, p)
    ensures !step.SetRefreshTime? ==> Apply(s, step).sh.store[ConstructKey(p.Id())] == s.sh.store[ConstructKey(p.Id())]
  {
  }

  /** From a save until the next save or lock of the policy the store holds what was saved, in every
      interleaving; nothing but the schedule can differ, and not even that without a refresh. */
  lemma {:induction false} SavedStays(s: State, steps: seq<Step>, i: nat, j: nat, p: Policy)
    requires Legal(s, steps) && i < j <= |steps| && steps[i] == Save(p) && Legal(s, steps[..j])
    requires forall m :: i < m < j ==> !WritesLock(steps[m], ConstructKey(p.Id()))
    ensures Holds(Exec(s, steps[..j]).sh, p)
    ensures (forall m :: i < m < j ==> !steps[m].SetRefreshTime?) ==> Exec(s, steps[..j]).sh.store[ConstructKey(p.Id())] == p
    decreases j
  {
    hide Legal, Exec, Apply, Effect, Enabled;
    PrefixStep(s, steps, j - 1);
    if j == i + 1 {
      SaveStep(Exec(s, steps[..i]), p);
    } else {
      SavedStays(s, steps, i, j - 1, p);
      HoldsStep(Exec(s, steps[..j - 1]), steps[j - 1], p);
    }
  }

  /** And once the events of a clean run have been delivered, a retrieve of its identity gives it. */
  lemma SavedIsRetrieved(s: State, steps: seq<Step>, i: nat, ids: iset<Identity>, p: Policy)
    requires SettledRun(s, steps, ids) && CollisionFree(ids) && p.Id() in ids
    requires i < |steps| && steps[i] == Save(p)
    requires forall m :: i < m < |steps| ==> !WritesLock(steps[m], ConstructKey(p.Id()))
    ensures
      var res := Retrieve(Exec(s, steps).sh, p.Id()).0;
      res.Ok? && SameButSchedule(p, res.value)
  {
    assert steps[..|steps|] == steps;
    SavedStays(s, steps, i, |steps|, p);
    RetrieveAnswers(s, steps, ids, p.Id());
  }
}
