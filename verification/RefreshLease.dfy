/** The data refresh schedule as a lease that any number of refreshers take and give back.

    A poll claims the policies that are due and postpones each of them, so that other refreshers leave
    them alone; executing the refresh then sets the next time or retires the policy. */
module RefreshLease {
  import opened Wrappers
  import opened Policies
  import opened Strings

  const SECOND: Time := 1_000_000_000
  const REFRESH_POSTPONE_PERIOD: Time := 5 * 60 * SECOND

  datatype DataConfig = DataConfig(url: string, httpMethod: string, period: Time)

  /** JSON decoding of a data configuration, and whether an HTTP request can be built from one. */
  datatype RefreshEnv = RefreshEnv(parse: string -> Option<DataConfig>, requestable: DataConfig -> bool)

  /** The refresh period of a configuration that leads to a request; None if it retires the policy. */
  function Period(env: RefreshEnv, config: string): Option<Time> {
    match env.parse(config)
    case None => None
    case Some(c) =>
      if c.url == "" || c.period == 0 || c.httpMethod == "" || !env.requestable(c) then None else Some(c.period)
  }

  /** The next refresh time an execution writes when its clock shows t. */
  function NextTime(env: RefreshEnv, config: string, t: Time): Time {
    match Period(env, config)
    case None => ZERO_TIME
    case Some(period) => t + period
  }

  /** A refresher's hold on one policy: when it was taken, and the configuration it was taken with. */
  datatype Claim = Claim(key: string, at: Time, config: string)

  /** `touched` records when the schedule of each policy was last written; no step depends on it. */
  datatype State = State(
    next: map<string, Time>,
    config: map<string, string>,
    now: Time,
    claims: map<nat, Claim>,
    touched: map<string, Time>)

  /** Acquire checks the policy at `due` and postpones it at `at`, under one mutex. Settle writes at `done`
      a time computed from a clock reading t, which may be older than other refreshers' steps. Import
      stores a policy anew, without a schedule. */
  datatype Step =
    | Acquire(claim: nat, key: string, due: Time, at: Time)
    | Settle(claim: nat, t: Time, done: Time)
    | Import(key: string, config: string)

  predicate Enabled(s: State, step: Step) {
    match step
    case Acquire(c, key, due, at) =>
      && c !in s.claims && key in s.next && key in s.config
      && s.now <= due <= at && ZERO_TIME < s.next[key] < due
    case Settle(c, t, done) =>
      && c in s.claims && s.claims[c].key in s.next
      && s.claims[c].at <= t <= done && s.now <= done
    case Import(_, _) => true
  }

  function Apply(env: RefreshEnv, s: State, step: Step): State
    requires Enabled(s, step)
  {
    match step
    case Acquire(c, key, due, at) =>
      s.(next := s.next[key := at + REFRESH_POSTPONE_PERIOD],
         now := at,
         claims := s.claims[c := Claim(key, at, s.config[key])],
         touched := s.touched[key := at])
    case Settle(c, t, done) =>
      var claim := s.claims[c];
      s.(next := s.next[claim.key := NextTime(env, claim.config, t)],
         now := done,
         claims := s.claims - {c},
         touched := s.touched[claim.key := done])
    case Import(key, config) =>
      s.(next := s.next[key := ZERO_TIME], config := s.config[key := config], touched := s.touched[key := s.now])
  }

  predicate Legal(env: RefreshEnv, s: State, steps: seq<Step>)
    decreases |steps|, 0
  {
    steps == [] || (Legal(env, s, Front(steps)) && Enabled(Exec(env, s, Front(steps)), Last(steps)))
  }

  function Exec(env: RefreshEnv, s: State, steps: seq<Step>): State
    requires Legal(env, s, steps)
    decreases |steps|, 1
  {
    if steps == [] then s else Apply(env, Exec(env, s, Front(steps)), Last(steps))
  }

  predicate Init(s: State) {
    s.claims == map[] && s.next.Keys == s.config.Keys
  }

  lemma {:induction false} PrefixIsLegal(env: RefreshEnv, s: State, steps: seq<Step>, i: nat)
    requires Legal(env, s, steps) && i <= |steps|
    ensures Legal(env, s, steps[..i])
    decreases |steps|
  {
    if i == |steps| {
      assert steps[..i] == steps;
    } else {
      PrefixIsLegal(env, s, Front(steps), i);
      assert Front(steps)[..i] == steps[..i];
    }
  }

  lemma PrefixStep(env: RefreshEnv, s: State, steps: seq<Step>, j: nat)
    requires Legal(env, s, steps) && j < |steps|
    ensures Legal(env, s, steps[..j]) && Legal(env, s, steps[..j + 1])
    ensures Enabled(Exec(env, s, steps[..j]), steps[j])
    ensures Exec(env, s, steps[..j + 1]) == Apply(env, Exec(env, s, steps[..j]), steps[j])
  {
    PrefixIsLegal(env, s, steps, j);
    PrefixIsLegal(env, s, steps, j + 1);
    assert Front(steps[..j + 1]) == steps[..j] && Last(steps[..j + 1]) == steps[j];
  }

  lemma Then(env: RefreshEnv, s: State, steps: seq<Step>, step: Step)
    requires Legal(env, s, steps) && Enabled(Exec(env, s, steps), step)
    ensures Legal(env, s, steps + [step]) && Exec(env, s, steps + [step]) == Apply(env, Exec(env, s, steps), step)
  {
    assert Front(steps + [step]) == steps && Last(steps + [step]) == step;
  }

  // ------------------------------------------------------------------------
  // Two claims of one policy
  // ------------------------------------------------------------------------

  /** The step writes the schedule of the policy for another reason than a claim. */
  ghost predicate Reschedules(env: RefreshEnv, s: State, steps: seq<Step>, j: nat, key: string)
    requires Legal(env, s, steps) && j < |steps|
  {
    PrefixStep(env, s, steps, j);
    match steps[j]
    case Acquire(_, _, _, _) => false
    case Settle(c, _, _) => Exec(env, s, steps[..j]).claims[c].key == key
    case Import(k, _) => k == key
  }

  lemma {:induction false} PostponedUntilTouched(env: RefreshEnv, s: State, steps: seq<Step>, i: nat, j: nat, key: string)
    requires Legal(env, s, steps) && i < j <= |steps|
    requires steps[i].Acquire? && steps[i].key == key
    requires forall m :: i < m < j ==> !Reschedules(env, s, steps, m, key)
    requires forall m :: i < m < j && steps[m].Acquire? ==> steps[m].key != key
    requires Legal(env, s, steps[..j])
    ensures key in Exec(env, s, steps[..j]).next && key in Exec(env, s, steps[..j]).config
    ensures Exec(env, s, steps[..j]).next[key] == steps[i].at + REFRESH_POSTPONE_PERIOD
    decreases j
  {
    PrefixStep(env, s, steps, j - 1);
    if j > i + 1 {
      PostponedUntilTouched(env, s, steps, i, j - 1, key);
      assert !Reschedules(env, s, steps, j - 1, key);
    }
  }

  /** Successive claims of a policy that nothing else rescheduled are more than the postpone period apart,
      whoever makes them and whatever happens to other policies. */
  lemma ClaimsAreSpaced(env: RefreshEnv, s: State, steps: seq<Step>, i: nat, j: nat)
    requires Legal(env, s, steps) && i < j < |steps|
    requires steps[i].Acquire? && steps[j].Acquire? && steps[i].key == steps[j].key
    requires forall m :: i < m < j ==> !Reschedules(env, s, steps, m, steps[i].key)
    ensures steps[j].due > steps[i].at + REFRESH_POSTPONE_PERIOD
    ensures steps[j].due - steps[i].at > 300_000_000_000
    decreases j - i
  {
    if m :| i < m < j && steps[m].Acquire? && steps[m].key == steps[i].key {
      ClaimsAreSpaced(env, s, steps, i, m);
      ClaimsAreSpaced(env, s, steps, m, j);
      PrefixStep(env, s, steps, m);
    } else {
      PrefixStep(env, s, steps, j);
      PostponedUntilTouched(env, s, steps, i, j, steps[i].key);
    }
  }

  // ------------------------------------------------------------------------
  // Mutual exclusion
  // ------------------------------------------------------------------------

  /** No claim is older than the postpone period. */
  ghost predicate Prompt(s: State) {
    forall c :: c in s.claims ==> s.now <= s.claims[c].at + REFRESH_POSTPONE_PERIOD
  }

  ghost predicate PromptRun(env: RefreshEnv, s: State, steps: seq<Step>)
    requires Legal(env, s, steps)
    decreases |steps|
  {
    Prompt(Exec(env, s, steps)) && (steps != [] ==> PromptRun(env, s, Front(steps)))
  }

  /** No policy has two holders. */
  ghost predicate Exclusive(s: State) {
    forall c, d :: c in s.claims && d in s.claims && s.claims[c].key == s.claims[d].key ==> c == d
  }

  /** A held policy is retired or not due before its lease runs out. */
  ghost predicate LeasesHonoured(s: State) {
    forall c :: c in s.claims ==>
      && s.claims[c].key in s.next
      && (s.next[s.claims[c].key] == ZERO_TIME || s.next[s.claims[c].key] >= s.claims[c].at + REFRESH_POSTPONE_PERIOD)
  }

  lemma ExclusionKept(env: RefreshEnv, s: State, step: Step)
    requires Enabled(s, step) && Exclusive(s) && LeasesHonoured(s)
    requires Prompt(Apply(env, s, step))
    ensures Exclusive(Apply(env, s, step)) && LeasesHonoured(Apply(env, s, step))
  {
    var after := Apply(env, s, step);
    if step.Acquire? {
      forall c | c in s.claims
        ensures s.claims[c].key != step.key
      {
        assert after.claims[c] == s.claims[c];
      }
    }
  }

  /** When every holder settles within the postpone period, no policy is ever refreshed by two at once. */
  lemma {:induction false} PromptRefreshersExclude(env: RefreshEnv, s: State, steps: seq<Step>)
    requires Init(s) && Legal(env, s, steps) && PromptRun(env, s, steps)
    ensures Exclusive(Exec(env, s, steps)) && LeasesHonoured(Exec(env, s, steps))
    decreases |steps|
  {
    if steps != [] {
      PromptRefreshersExclude(env, s, Front(steps));
      ExclusionKept(env, Exec(env, s, Front(steps)), Last(steps));
    }
  }

  /** The period is exact: after any run in which nothing has rescheduled a policy since its latest claim,
      another refresher gets it at a moment if and only if the lease has run out by then. */
  lemma LeaseIsExact(env: RefreshEnv, s: State, steps: seq<Step>, i: nat, d: nat, due: Time)
    requires Legal(env, s, steps) && i < |steps| && steps[i].Acquire?
    requires forall m :: i < m < |steps| ==> !Reschedules(env, s, steps, m, steps[i].key)
    requires forall m :: i < m < |steps| && steps[m].Acquire? ==> steps[m].key != steps[i].key
    requires d !in Exec(env, s, steps).claims && Exec(env, s, steps).now <= due
    ensures Enabled(Exec(env, s, steps), Acquire(d, steps[i].key, due, due)) <==>
            due > steps[i].at + 300_000_000_000
  {
    PrefixStep(env, s, steps, i);
    assert steps[..|steps|] == steps;
    PostponedUntilTouched(env, s, steps, i, |steps|, steps[i].key);
  }

  /** A holder that takes longer shares the policy with a second one. */
  lemma LateHolderIsJoined(env: RefreshEnv, key: string, config: string, start: Time)
    requires ZERO_TIME < start
    ensures
      var s := State(map[key := start], map[key := config], start, map[], map[]);
      var again := start + 1 + REFRESH_POSTPONE_PERIOD + 1;
      var steps := [Acquire(0, key, start + 1, start + 1)] + [Acquire(1, key, again, again)];
      Init(s) && Legal(env, s, steps) && !Exclusive(Exec(env, s, steps))
  {
    var s := State(map[key := start], map[key := config], start, map[], map[]);
    var again := start + 1 + REFRESH_POSTPONE_PERIOD + 1;
    Then(env, s, [], Acquire(0, key, start + 1, start + 1));
    assert [] + [Acquire(0, key, start + 1, start + 1)] == [Acquire(0, key, start + 1, start + 1)];
    Then(env, s, [Acquire(0, key, start + 1, start + 1)], Acquire(1, key, again, again));
    var n := Exec(env, s, [Acquire(0, key, start + 1, start + 1)] + [Acquire(1, key, again, again)]);
    assert n.claims[0].key == n.claims[1].key;
  }

  // ------------------------------------------------------------------------
  // The schedule
  // ------------------------------------------------------------------------

  predicate NoImport(steps: seq<Step>, key: string) {
    forall step :: step in steps ==> !(step.Import? && step.key == key)
  }

  /** Every holder of the policy works from its present configuration, and a retired policy has only
      holders that would retire it again. */
  ghost predicate Scheduled(env: RefreshEnv, s: State, key: string) {
    && key in s.next && key in s.config
    && (forall c :: c in s.claims && s.claims[c].key == key ==> s.claims[c].config == s.config[key])
    && (s.next[key] == ZERO_TIME && Period(env, s.config[key]).Some? ==>
          forall c :: c in s.claims ==> s.claims[c].key != key)
    && (forall c :: c in s.claims ==> ZERO_TIME < s.claims[c].at)
  }

  lemma ScheduleKept(env: RefreshEnv, s: State, step: Step, key: string)
    requires Scheduled(env, s, key) && Enabled(s, step) && !(step.Import? && step.key == key)
    requires var p := Period(env, s.config[key]); p.Some? ==> p.value > 0
    ensures Scheduled(env, Apply(env, s, step), key)
    ensures Apply(env, s, step).config[key] == s.config[key]
    ensures s.next[key] == ZERO_TIME ==> Apply(env, s, step).next[key] == ZERO_TIME
    ensures s.next[key] > ZERO_TIME && Period(env, s.config[key]).Some? ==> Apply(env, s, step).next[key] > ZERO_TIME
  {
  }

  /** Whether the policy is retired can change in one way only: a usable configuration is never retired,
      and a retired policy is never scheduled again, until it is imported anew. */
  lemma {:induction false} RetiredForGood(env: RefreshEnv, s: State, steps: seq<Step>, key: string)
    requires Init(s) && key in s.next && Legal(env, s, steps) && NoImport(steps, key)
    requires var p := Period(env, s.config[key]); p.Some? ==> p.value > 0
    ensures Scheduled(env, Exec(env, s, steps), key) && Exec(env, s, steps).config[key] == s.config[key]
    ensures s.next[key] == ZERO_TIME ==> Exec(env, s, steps).next[key] == ZERO_TIME
    ensures s.next[key] > ZERO_TIME && Period(env, s.config[key]).Some? ==> Exec(env, s, steps).next[key] > ZERO_TIME
    decreases |steps|
  {
    if steps != [] {
      assert Last(steps) in steps;
      RetiredForGood(env, s, Front(steps), key);
      ScheduleKept(env, Exec(env, s, Front(steps)), Last(steps), key);
    }
  }

  // ------------------------------------------------------------------------
  // Retirement, exactly
  // ------------------------------------------------------------------------

  /** Someone holds the policy with a configuration that leads to a request. */
  ghost predicate HeldUsably(env: RefreshEnv, s: State, key: string) {
    exists c :: c in s.claims && s.claims[c].key == key && Period(env, s.claims[c].config).Some?
  }

  /** Someone holds it with one that does not. */
  ghost predicate HeldUnusably(env: RefreshEnv, s: State, key: string) {
    exists c :: c in s.claims && s.claims[c].key == key && Period(env, s.claims[c].config).None?
  }

  /** No run schedules the policy again, unless it is imported anew. */
  ghost predicate RetiredForever(env: RefreshEnv, s: State, key: string) {
    forall steps :: Legal(env, s, steps) && NoImport(steps, key) ==> IsRetired(Exec(env, s, steps), key)
  }

  predicate IsRetired(s: State, key: string) {
    key in s.next && s.next[key] == ZERO_TIME
  }

  lemma RetiredStep(env: RefreshEnv, s: State, step: Step, key: string)
    requires IsRetired(s, key) && !HeldUsably(env, s, key)
    requires Enabled(s, step) && !(step.Import? && step.key == key)
    ensures IsRetired(Apply(env, s, step), key) && !HeldUsably(env, Apply(env, s, step), key)
  {
  }

  lemma {:induction false} RetiredRun(env: RefreshEnv, s: State, steps: seq<Step>, key: string)
    requires IsRetired(s, key) && !HeldUsably(env, s, key)
    requires Legal(env, s, steps) && NoImport(steps, key)
    ensures IsRetired(Exec(env, s, steps), key) && !HeldUsably(env, Exec(env, s, steps), key)
    decreases |steps|
  {
    if steps != [] {
      assert Last(steps) in steps;
      RetiredRun(env, s, Front(steps), key);
      RetiredStep(env, Exec(env, s, Front(steps)), Last(steps), key);
    }
  }

  lemma OneStep(env: RefreshEnv, s: State, step: Step)
    requires Enabled(s, step)
    ensures Legal(env, s, [step]) && Exec(env, s, [step]) == Apply(env, s, step)
  {
    Then(env, s, [], step);
    assert [] + [step] == [step];
  }

  /** A zero time is absorbing exactly when nobody holds the policy with a usable configuration, for periods of
      either sign. */
  lemma RetiredForeverIff(env: RefreshEnv, s: State, key: string)
    requires IsRetired(s, key)
    ensures RetiredForever(env, s, key) <==> !HeldUsably(env, s, key)
  {
    if HeldUsably(env, s, key) {
      var c :| c in s.claims && s.claims[c].key == key && Period(env, s.claims[c].config).Some?;
      var t := Max(Max(s.claims[c].at, s.now), 1 - Period(env, s.claims[c].config).value);
      OneStep(env, s, Settle(c, t, t));
      assert NoImport([Settle(c, t, t)], key);
      assert !IsRetired(Exec(env, s, [Settle(c, t, t)]), key);
    } else {
      forall steps | Legal(env, s, steps) && NoImport(steps, key)
        ensures IsRetired(Exec(env, s, steps), key)
      {
        RetiredRun(env, s, steps, key);
      }
    }
  }

  /** So an import does not retire a policy for good while someone holds it: the late settlement schedules it
      again. */
  lemma LateSettleRevives(env: RefreshEnv, key: string, config: string, start: Time)
    requires ZERO_TIME < start && Period(env, config).Some?
    ensures
      var s := State(map[key := start], map[key := config], start, map[], map[]);
      var steps := [Acquire(0, key, start + 1, start + 1)] + [Import(key, config)];
      && Init(s) && Legal(env, s, steps) && IsRetired(Exec(env, s, steps), key)
      && !RetiredForever(env, Exec(env, s, steps), key)
  {
    var s := State(map[key := start], map[key := config], start, map[], map[]);
    OneStep(env, s, Acquire(0, key, start + 1, start + 1));
    Then(env, s, [Acquire(0, key, start + 1, start + 1)], Import(key, config));
    var n := Exec(env, s, [Acquire(0, key, start + 1, start + 1)] + [Import(key, config)]);
    assert n.claims[0] == Claim(key, start + 1, config);
    assert HeldUsably(env, n, key);
    RetiredForeverIff(env, n, key);
  }

  /** No run retires the policy, unless it is imported anew. */
  ghost predicate NeverRetired(env: RefreshEnv, s: State, key: string) {
    forall steps :: Legal(env, s, steps) && NoImport(steps, key) ==> !IsRetired(Exec(env, s, steps), key)
  }

  /** Refresh periods are durations forward. */
  ghost predicate PositivePeriods(env: RefreshEnv) {
    forall config :: Period(env, config).Some? ==> Period(env, config).value > 0
  }

  ghost predicate Usable(env: RefreshEnv, s: State, key: string) {
    && key in s.next && key in s.config && s.next[key] > ZERO_TIME
    && Period(env, s.config[key]).Some? && !HeldUnusably(env, s, key)
    && forall c :: c in s.claims ==> s.claims[c].at > ZERO_TIME
  }

  lemma UsableStep(env: RefreshEnv, s: State, step: Step, key: string)
    requires PositivePeriods(env) && Usable(env, s, key)
    requires Enabled(s, step) && !(step.Import? && step.key == key)
    ensures Usable(env, Apply(env, s, step), key)
  {
    var after := Apply(env, s, step);
    forall c | c in after.claims && after.claims[c].key == key
      ensures Period(env, after.claims[c].config).Some?
    {
      assert (c in s.claims && s.claims[c] == after.claims[c]) || after.claims[c].config == s.config[key];
    }
  }

  lemma {:induction false} UsableRun(env: RefreshEnv, s: State, steps: seq<Step>, key: string)
    requires PositivePeriods(env) && Usable(env, s, key)
    requires Legal(env, s, steps) && NoImport(steps, key)
    ensures Usable(env, Exec(env, s, steps), key)
    decreases |steps|
  {
    if steps != [] {
      assert Last(steps) in steps;
      UsableRun(env, s, Front(steps), key);
      UsableStep(env, Exec(env, s, Front(steps)), Last(steps), key);
    }
  }

  lemma {:induction false} Unused(keys: set<nat>) returns (d: nat)
    ensures forall k :: k in keys ==> k < d
    decreases keys
  {
    if keys == {} {
      d := 0;
    } else {
      var k :| k in keys;
      var e := Unused(keys - {k});
      assert forall q :: q in keys ==> q == k || q in keys - {k};
      d := if k < e then e else k + 1;
    }
  }

  /** A holder whose configuration leads to no request retires the policy when it settles. */
  lemma UnusableHolderRetires(env: RefreshEnv, s: State, key: string)
    requires key in s.next && HeldUnusably(env, s, key)
    ensures !NeverRetired(env, s, key)
  {
    var c :| c in s.claims && s.claims[c].key == key && Period(env, s.claims[c].config).None?;
    var t := Max(s.claims[c].at, s.now);
    OneStep(env, s, Settle(c, t, t));
    assert NoImport([Settle(c, t, t)], key);
    assert IsRetired(Exec(env, s, [Settle(c, t, t)]), key);
  }

  /** A scheduled policy whose configuration leads to no request is claimed once more and retired. */
  lemma UnusableConfigRetires(env: RefreshEnv, s: State, key: string)
    requires key in s.next && key in s.config && s.next[key] > ZERO_TIME && Period(env, s.config[key]).None?
    ensures !NeverRetired(env, s, key)
  {
    var d := Unused(s.claims.Keys);
    var due := Max(s.now, s.next[key] + 1);
    var acquire, settle := Acquire(d, key, due, due), Settle(d, due, due);
    OneStep(env, s, acquire);
    assert Exec(env, s, [acquire]).claims[d] == Claim(key, due, s.config[key]);
    Then(env, s, [acquire], settle);
    assert NoImport([acquire] + [settle], key);
    assert IsRetired(Exec(env, s, [acquire] + [settle]), key);
  }

  /** A scheduled policy stays scheduled through every run without an import exactly when its configuration and
      those of all its holders lead to requests. */
  lemma NeverRetiredIff(env: RefreshEnv, s: State, key: string)
    requires PositivePeriods(env) && key in s.next && key in s.config && s.next[key] > ZERO_TIME
    requires forall c :: c in s.claims ==> s.claims[c].at > ZERO_TIME
    ensures NeverRetired(env, s, key) <==> Period(env, s.config[key]).Some? && !HeldUnusably(env, s, key)
  {
    if HeldUnusably(env, s, key) {
      UnusableHolderRetires(env, s, key);
    } else if Period(env, s.config[key]).None? {
      UnusableConfigRetires(env, s, key);
    } else {
      forall steps | Legal(env, s, steps) && NoImport(steps, key)
        ensures !IsRetired(Exec(env, s, steps), key)
      {
        UsableRun(env, s, steps, key);
      }
    }
  }

  /** Where nothing is scheduled, nothing ever is: no run contains a claim. */
  lemma {:induction false} UnscheduledStaysSo(env: RefreshEnv, s: State, steps: seq<Step>)
    requires Init(s) && Legal(env, s, steps)
    requires forall key :: key in s.next ==> s.next[key] == ZERO_TIME
    ensures forall step :: step in steps ==> step.Import?
    ensures Exec(env, s, steps).claims == map[]
    ensures forall key :: key in Exec(env, s, steps).next ==> Exec(env, s, steps).next[key] == ZERO_TIME
    decreases |steps|
  {
    if steps != [] {
      UnscheduledStaysSo(env, s, Front(steps));
      assert steps == Front(steps) + [Last(steps)];
    }
  }

  // ------------------------------------------------------------------------
  // How late a refresh can be
  // ------------------------------------------------------------------------

  function Max(a: Time, b: Time): Time {
    if a > b then a else b
  }

  /** The policy becomes due no later than a postpone period or a refresh period after its last touch. */
  predicate Bounded(s: State, key: string, period: Time) {
    && key in s.next && key in s.touched
    && s.next[key] <= s.touched[key] + Max(REFRESH_POSTPONE_PERIOD, period)
    && s.touched[key] <= s.now
  }

  lemma BoundKept(env: RefreshEnv, s: State, step: Step, key: string, period: Time)
    requires Scheduled(env, s, key) && Bounded(s, key, period) && Enabled(s, step) && !(step.Import? && step.key == key)
    requires Period(env, s.config[key]) == Some(period) && period > 0
    ensures Bounded(Apply(env, s, step), key, period)
  {
  }

  lemma {:induction false} NextTimeIsBounded(env: RefreshEnv, s: State, steps: seq<Step>, key: string, period: Time)
    requires Init(s) && key in s.next && Legal(env, s, steps) && NoImport(steps, key)
    requires Period(env, s.config[key]) == Some(period) && period > 0
    requires s.next[key] > ZERO_TIME && Bounded(s, key, period)
    ensures Bounded(Exec(env, s, steps), key, period)
    decreases |steps|
  {
    if steps != [] {
      assert Last(steps) in steps;
      NextTimeIsBounded(env, s, Front(steps), key, period);
      RetiredForGood(env, s, Front(steps), key);
      BoundKept(env, Exec(env, s, Front(steps)), Last(steps), key, period);
    }
  }

  /** So a policy with a usable configuration is never forgotten: after any run, a poll that comes more
      than that bound after the last touch claims it. */
  lemma NeverForgotten(env: RefreshEnv, s: State, steps: seq<Step>, key: string, period: Time, c: nat, due: Time)
    requires Init(s) && key in s.next && Legal(env, s, steps) && NoImport(steps, key)
    requires Period(env, s.config[key]) == Some(period) && period > 0
    requires s.next[key] > ZERO_TIME && Bounded(s, key, period)
    requires
      var n := Exec(env, s, steps);
      c !in n.claims && n.now <= due &&
      (key in n.touched ==> due > n.touched[key] + Max(REFRESH_POSTPONE_PERIOD, period))
    ensures Enabled(Exec(env, s, steps), Acquire(c, key, due, due))
  {
    RetiredForGood(env, s, steps, key);
    NextTimeIsBounded(env, s, steps, key, period);
  }

  // ------------------------------------------------------------------------
  // The claims of one poll
  // ------------------------------------------------------------------------

  /** The steps of one poll: claims numbered from first on, of different policies. */
  ghost predicate PollSteps(steps: seq<Step>, first: nat) {
    && (forall i :: 0 <= i < |steps| ==> steps[i].Acquire? && steps[i].claim == first + i)
    && (forall i, j :: 0 <= i < j < |steps| ==> steps[i].key != steps[j].key)
  }

  ghost predicate NumberedBelow(s: State, first: nat) {
    forall c :: c in s.claims ==> c < first && s.claims[c].at <= s.now
  }

  /** The claims held after a poll: the earlier ones and one for each step. */
  ghost predicate HoldsAcquired(s: State, n: State, steps: seq<Step>, first: nat, from: nat)
    requires PollSteps(steps, first)
  {
    && (forall c :: c in n.claims <==> c in s.claims || first + from <= c < first + |steps|)
    && (forall c :: c in s.claims ==> n.claims[c] == s.claims[c])
    && (forall i :: from <= i < |steps| && steps[i].key in s.config ==>
          n.claims[first + i] == Claim(steps[i].key, steps[i].at, s.config[steps[i].key]))
  }

  /** A poll touches nothing but the schedules of what it claims. */
  ghost predicate OnlyAcquired(s: State, n: State, steps: seq<Step>) {
    && n.config == s.config && n.next.Keys == s.next.Keys
    && (forall k :: k in s.next && (forall i :: 0 <= i < |steps| && steps[i].Acquire? ==> steps[i].key != k) ==> n.next[k] == s.next[k])
    && (forall i :: 0 <= i < |steps| && steps[i].Acquire? ==> steps[i].key in s.config)
  }

  lemma OneMoreHeld(env: RefreshEnv, s: State, n: State, steps: seq<Step>, first: nat)
    requires steps != [] && PollSteps(steps, first) && NumberedBelow(s, first)
    requires Enabled(n, Last(steps)) && n.config == s.config
    requires HoldsAcquired(s, n, Front(steps), first, 0) && NumberedBelow(n, first + |steps| - 1)
    ensures HoldsAcquired(s, Apply(env, n, Last(steps)), steps, first, 0)
    ensures NumberedBelow(Apply(env, n, Last(steps)), first + |steps|)
  {
  }

  lemma OneMoreOnly(env: RefreshEnv, s: State, n: State, steps: seq<Step>)
    requires steps != [] && Last(steps).Acquire?
    requires Enabled(n, Last(steps)) && OnlyAcquired(s, n, Front(steps))
    ensures OnlyAcquired(s, Apply(env, n, Last(steps)), steps)
  {
    var after := Apply(env, n, Last(steps));
    forall k | k in s.next && (forall i :: 0 <= i < |steps| && steps[i].Acquire? ==> steps[i].key != k)
      ensures after.next[k] == s.next[k]
    {
      assert steps[|steps| - 1].key != k;
      forall i | 0 <= i < |Front(steps)| && Front(steps)[i].Acquire?
        ensures Front(steps)[i].key != k
      {
        assert Front(steps)[i] == steps[i];
      }
    }
    forall i | 0 <= i < |steps| && steps[i].Acquire?
      ensures steps[i].key in s.config
    {
      if i < |steps| - 1 {
        assert Front(steps)[i] == steps[i];
      }
    }
  }

  lemma {:induction false} PollAcquires(env: RefreshEnv, s: State, steps: seq<Step>, first: nat)
    requires Legal(env, s, steps) && PollSteps(steps, first) && NumberedBelow(s, first)
    requires s.next.Keys == s.config.Keys
    ensures HoldsAcquired(s, Exec(env, s, steps), steps, first, 0)
    ensures NumberedBelow(Exec(env, s, steps), first + |steps|)
    ensures OnlyAcquired(s, Exec(env, s, steps), steps)
    decreases |steps|
  {
    if steps != [] {
      var front := Front(steps);
      assert PollSteps(front, first) by {
        assert forall i :: 0 <= i < |front| ==> front[i] == steps[i];
      }
      PollAcquires(env, s, front, first);
      OneMoreHeld(env, s, Exec(env, s, front), steps, first);
      OneMoreOnly(env, s, Exec(env, s, front), steps);
    }
  }

  /** The holder of the i-th acquired claim settles it. */
  lemma SettleNext(env: RefreshEnv, s: State, n: State, acquired: seq<Step>, first: nat, i: nat, t: Time, done: Time)
    requires PollSteps(acquired, first) && i < |acquired| && NumberedBelow(s, first)
    requires HoldsAcquired(s, n, acquired, first, i) && NumberedBelow(n, first + |acquired|)
    requires acquired[i].key in n.next && acquired[i].key in s.config
    requires n.now <= t <= done
    ensures Enabled(n, Settle(first + i, t, done))
    ensures n.claims[first + i] == Claim(acquired[i].key, acquired[i].at, s.config[acquired[i].key])
    ensures
      var after := Apply(env, n, Settle(first + i, t, done));
      && HoldsAcquired(s, after, acquired, first, i + 1) && NumberedBelow(after, first + |acquired|)
      && after.next == n.next[acquired[i].key := NextTime(env, s.config[acquired[i].key], t)]
      && after.config == n.config && after.now == done
  {
    assert first + i in n.claims;
  }

  lemma AllSettled(s: State, n: State, acquired: seq<Step>, first: nat)
    requires PollSteps(acquired, first) && HoldsAcquired(s, n, acquired, first, |acquired|)
    ensures n.claims == s.claims
  {
  }
}
