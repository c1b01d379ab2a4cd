/** Automatic import: the schedule of the configurations, and one pass over the claimed ones. */
module AutoImport {
  import opened Wrappers
  import opened Policies
  import opened Strings
  import opened Polling
  import Bundles
  import CacheProtocol
  import Calls

  // ------------------------------------------------------------------------
  // The schedule
  // ------------------------------------------------------------------------

  const MILLISECOND: Time := 1_000_000

  /** A date of the database: the millisecond that a time falls into. */
  function Date(t: Time): int {
    t / MILLISECOND
  }

  lemma DateIsFloor(t: Time)
    ensures Date(t) * MILLISECOND == t - t % MILLISECOND
    ensures 0 <= t % MILLISECOND < MILLISECOND
  {
  }

  lemma DatesAtLeast(a: Time, b: Time)
    ensures Date(a) >= Date(b) <==> a >= b - b % MILLISECOND
    ensures Date(a) >= Date(b) ==> a > b - MILLISECOND
  {
    DateIsFloor(a);
    DateIsFloor(b);
  }

  /** The next import is stored as a date. */
  datatype Config = Config(interval: Time, nextImport: int)

  /** The configurations by policy URL: they are upserted by URL, so a URL has one. */
  type Configs = map<string, Config>

  function Due(configs: Configs, at: Time): set<string> {
    set url | url in configs && configs[url].nextImport <= Date(at)
  }

  /** Sets the next import of every URL in `rearmed` to the moment given there plus its interval. */
  function Rearmed(configs: Configs, rearmed: map<string, Time>): Configs {
    map url | url in configs ::
      if url in rearmed then configs[url].(nextImport := Date(rearmed[url] + configs[url].interval)) else configs[url]
  }

  datatype State = State(configs: Configs, now: Time)

  /** A poll reads its clock at `due`, claims what is due, re-arms one claimed configuration after another
      and ends at `done`; a re-arm that fails is missing from `rearmed`. */
  datatype Step =
    | Poll(due: Time, rearmed: map<string, Time>, done: Time)
    | Save(url: string, config: Config)
    | Delete(url: string)

  predicate Enabled(s: State, step: Step) {
    match step
    case Poll(due, rearmed, done) =>
      && s.now <= due <= done && rearmed.Keys <= Due(s.configs, due)
      && forall url :: url in rearmed ==> due <= rearmed[url] <= done
    case Save(_, _) => true
    case Delete(_) => true
  }

  function Apply(s: State, step: Step): State
    requires Enabled(s, step)
  {
    match step
    case Poll(due, rearmed, done) => State(Rearmed(s.configs, rearmed), done)
    case Save(url, config) => s.(configs := s.configs[url := config])
    case Delete(url) => s.(configs := s.configs - {url})
  }

  predicate Legal(s: State, steps: seq<Step>)
    decreases |steps|, 0
  {
    steps == [] || (Legal(s, Front(steps)) && Enabled(Exec(s, Front(steps)), Last(steps)))
  }

  function Exec(s: State, steps: seq<Step>): State
    requires Legal(s, steps)
    decreases |steps|, 1
  {
    if steps == [] then s else Apply(Exec(s, Front(steps)), Last(steps))
  }

  lemma {:induction false} PrefixIsLegal(s: State, steps: seq<Step>, i: nat)
    requires Legal(s, steps) && i <= |steps|
    ensures Legal(s, steps[..i])
    decreases |steps|
  {
    if i == |steps| {
      assert steps[..i] == steps;
    } else {
      PrefixIsLegal(s, Front(steps), i);
      assert Front(steps)[..i] == steps[..i];
    }
  }

  lemma PrefixStep(s: State, steps: seq<Step>, j: nat)
    requires Legal(s, steps) && j < |steps|
    ensures Legal(s, steps[..j]) && Legal(s, steps[..j + 1])
    ensures Enabled(Exec(s, steps[..j]), steps[j])
    ensures Exec(s, steps[..j + 1]) == Apply(Exec(s, steps[..j]), steps[j])
  {
    PrefixIsLegal(s, steps, j);
    PrefixIsLegal(s, steps, j + 1);
    assert Front(steps[..j + 1]) == steps[..j] && Last(steps[..j + 1]) == steps[j];
  }

  /** Step j of the run is a poll that claims the URL. */
  ghost predicate Claims(s: State, steps: seq<Step>, j: nat, url: string)
    requires Legal(s, steps) && j < |steps|
  {
    PrefixStep(s, steps, j);
    steps[j].Poll? && url in Due(Exec(s, steps[..j]).configs, steps[j].due)
  }

  predicate Reconfigures(step: Step, url: string) {
    (step.Save? || step.Delete?) && step.url == url
  }

  predicate Rearms(step: Step, url: string) {
    step.Poll? && url in step.rearmed
  }

  /** What one step does to the schedule of a URL that it does not reconfigure. */
  lemma ScheduleStep(s: State, step: Step, url: string)
    requires Enabled(s, step) && url in s.configs && !Reconfigures(step, url)
    ensures
      var after := Apply(s, step);
      && url in after.configs && after.configs[url].interval == s.configs[url].interval && s.now <= after.now
      && (if Rearms(step, url) then
            && s.now <= step.rearmed[url] <= after.now && s.configs[url].nextImport <= Date(step.rearmed[url])
            && after.configs[url].nextImport == Date(step.rearmed[url] + s.configs[url].interval)
          else after.configs[url].nextImport == s.configs[url].nextImport)
  {
    if Rearms(step, url) {
      assert url in Due(s.configs, step.due);
      DatesGrow(step.due, step.rearmed[url]);
    }
  }

  lemma RearmedIsConfigured(s: State, step: Step, url: string)
    requires Enabled(s, step) && Rearms(step, url)
    ensures url in s.configs
  {
    assert url in Due(s.configs, step.due);
  }

  lemma DatesGrow(a: Time, b: Time)
    requires a <= b
    ensures Date(a) <= Date(b)
  {
  }

  /** After a re-arm with an interval that is not negative, the next import stays at or after the end of
      the interval; and it stays exactly there until the next re-arm. */
  lemma {:induction false} NotDueAfterRearm(s: State, steps: seq<Step>, i: nat, j: nat, url: string)
    requires Legal(s, steps) && i < j <= |steps| && Rearms(steps[i], url)
    requires forall m :: i < m < j ==> !Reconfigures(steps[m], url)
    requires Legal(s, steps[..i]) && Legal(s, steps[..j])
    requires url in Exec(s, steps[..i]).configs
    ensures
      var interval := Exec(s, steps[..i]).configs[url].interval;
      var end := steps[i].rearmed[url] + interval;
      var after := Exec(s, steps[..j]).configs;
      && url in after && after[url].interval == interval
      && (interval >= 0 ==> after[url].nextImport >= Date(end))
      && ((forall m :: i < m < j ==> !Rearms(steps[m], url)) ==> after[url].nextImport == Date(end))
      && steps[i].rearmed[url] <= Exec(s, steps[..j]).now
    decreases j
  {
    PrefixStep(s, steps, j - 1);
    hide Apply, Enabled, Date, Rearmed;
    if j > i + 1 {
      NotDueAfterRearm(s, steps, i, j - 1, url);
      assert !Reconfigures(steps[j - 1], url);
      var before := Exec(s, steps[..j - 1]);
      ScheduleStep(before, steps[j - 1], url);
      if Rearms(steps[j - 1], url) && before.configs[url].interval >= 0 {
        DatesGrow(steps[j - 1].rearmed[url], steps[j - 1].rearmed[url] + before.configs[url].interval);
      }
    } else {
      RearmedIsConfigured(Exec(s, steps[..i]), steps[i], url);
      ScheduleStep(Exec(s, steps[..i]), steps[i], url);
    }
  }

  /** Two claims of one configuration with no reconfiguration between are more than its interval less one
      millisecond apart, provided the first claim was re-armed. */
  lemma ClaimsAreSpaced(s: State, steps: seq<Step>, i: nat, j: nat, url: string)
    requires Legal(s, steps) && i < j < |steps|
    requires Claims(s, steps, i, url) && Claims(s, steps, j, url) && Rearms(steps[i], url)
    requires forall m :: i < m < j ==> !Reconfigures(steps[m], url)
    requires Legal(s, steps[..i]) && Exec(s, steps[..i]).configs[url].interval >= 0
    ensures steps[j].due > steps[i].rearmed[url] + Exec(s, steps[..i]).configs[url].interval - MILLISECOND
    ensures steps[j].due > steps[i].due + Exec(s, steps[..i]).configs[url].interval - MILLISECOND
  {
    hide Date, Legal, Exec, Rearmed;
    PrefixStep(s, steps, i);
    PrefixStep(s, steps, j);
    NotDueAfterRearm(s, steps, i, j, url);
    DatesAtLeast(steps[j].due, steps[i].rearmed[url] + Exec(s, steps[..i]).configs[url].interval);
  }

  /** From one re-arm to the next, a poll claims the configuration exactly from the beginning of the millisecond
      in which the interval ends. */
  lemma ClaimedIffIntervalPassed(s: State, steps: seq<Step>, i: nat, j: nat, url: string)
    requires Legal(s, steps) && i < j < |steps| && steps[j].Poll?
    requires Claims(s, steps, i, url) && Rearms(steps[i], url)
    requires forall m :: i < m < j ==> !Reconfigures(steps[m], url) && !Rearms(steps[m], url)
    requires Legal(s, steps[..i])
    ensures
      var end := steps[i].rearmed[url] + Exec(s, steps[..i]).configs[url].interval;
      Claims(s, steps, j, url) <==> steps[j].due >= end - end % MILLISECOND
  {
    hide Date, Legal, Exec, Rearmed;
    PrefixStep(s, steps, i);
    PrefixStep(s, steps, j);
    NotDueAfterRearm(s, steps, i, j, url);
    DatesAtLeast(steps[j].due, steps[i].rearmed[url] + Exec(s, steps[..i]).configs[url].interval);
  }

  function EarlyRun(url: string, interval: Time): seq<Step> {
    [Poll(0, map[url := MILLISECOND - 1], MILLISECOND - 1)] + [Poll(interval, map[], interval)]
  }

  /** The millisecond is lost: a configuration that is re-armed at the last nanosecond of one is claimed again
      that much before its interval has passed. */
  lemma ClaimedEarly(url: string, interval: Time)
    requires interval > 0 && interval % MILLISECOND == 0
    ensures
      var s := State(map[url := Config(interval, 0)], 0);
      Legal(s, EarlyRun(url, interval)) && Claims(s, EarlyRun(url, interval), 0, url) && Claims(s, EarlyRun(url, interval), 1, url)
  {
    var s, steps := State(map[url := Config(interval, 0)], 0), EarlyRun(url, interval);
    var first := Poll(0, map[url := MILLISECOND - 1], MILLISECOND - 1);
    DateIsFloor(interval);
    assert Date(interval + (MILLISECOND - 1)) == Date(interval);
    Then(s, [], first);
    assert [] + [first] == [first];
    var n := Exec(s, [first]);
    assert n.configs[url].nextImport == Date(interval);
    Then(s, [first], steps[1]);
    assert steps[..1] == [first] && steps[..0] == [];
  }

  lemma Then(s: State, steps: seq<Step>, step: Step)
    requires Legal(s, steps) && Enabled(Exec(s, steps), step)
    ensures Legal(s, steps + [step]) && Exec(s, steps + [step]) == Apply(Exec(s, steps), step)
  {
    assert Front(steps + [step]) == steps && Last(steps + [step]) == step;
  }

  /** Without the re-arm, which is only logged when it fails, every later poll claims the configuration
      again, however soon. */
  lemma FailedRearmIsClaimedAgain(s: State, steps: seq<Step>, i: nat, j: nat, url: string)
    requires Legal(s, steps) && i < j < |steps| && steps[j].Poll?
    requires Claims(s, steps, i, url)
    requires forall m :: i <= m < j ==> !Reconfigures(steps[m], url) && !Rearms(steps[m], url)
    ensures Claims(s, steps, j, url)
  {
    PrefixStep(s, steps, i);
    PrefixStep(s, steps, j);
    UnchangedUntil(s, steps, i, j, url);
  }

  lemma {:induction false} UnchangedUntil(s: State, steps: seq<Step>, i: nat, j: nat, url: string)
    requires Legal(s, steps) && i <= j <= |steps|
    requires forall m :: i <= m < j ==> !Reconfigures(steps[m], url) && !Rearms(steps[m], url)
    requires Legal(s, steps[..i]) && Legal(s, steps[..j])
    requires url in Exec(s, steps[..i]).configs
    ensures url in Exec(s, steps[..j]).configs
    ensures Exec(s, steps[..j]).configs[url] == Exec(s, steps[..i]).configs[url]
    ensures Exec(s, steps[..i]).now <= Exec(s, steps[..j]).now
    ensures i < j && steps[i].Poll? ==> steps[i].due <= Exec(s, steps[..j]).now
    decreases j
  {
    if i < j {
      PrefixStep(s, steps, j - 1);
      UnchangedUntil(s, steps, i, j - 1, url);
      assert !Reconfigures(steps[j - 1], url) && !Rearms(steps[j - 1], url);
    }
  }

  /** The collection of configurations. */
  class ImportCollection {
    var autoImport: Configs

    method SaveAutoImportConfig(url: string, interval: Time, nextImport: Time)
      modifies this
      ensures autoImport == Apply(State(old(autoImport), 0), Save(url, Config(interval, Date(nextImport)))).configs
      ensures autoImport == old(autoImport)[url := Config(interval, nextImport / 1_000_000)]
    {
      autoImport := autoImport[url := Config(interval, Date(nextImport))];
    }

    method DeleteAutoImportConfig(url: string) returns (res: Result<()>)
      modifies this
      ensures res == if url in old(autoImport) then Ok(()) else Err(NotFound)
      ensures autoImport == Apply(State(old(autoImport), 0), Delete(url)).configs
      ensures autoImport == old(autoImport) - {url}
    {
      res := if url in autoImport then Ok(()) else Err(NotFound);
      autoImport := autoImport - {url};
    }

    /** Claims every configuration that is due and only those, each once, and re-arms those whose write
        succeeds. */
    method ActiveImportConfigs(clock: Clock, tick: nat, writes: string -> bool)
      returns (claimed: seq<string>, later: nat, ghost rearmed: map<string, Time>)
      requires Monotone(clock)
      modifies this
      ensures
        var step := Poll(clock(tick), rearmed, clock(later));
        && Enabled(State(old(autoImport), clock(tick)), step)
        && autoImport == Apply(State(old(autoImport), clock(tick)), step).configs
      ensures forall url :: url in claimed <==> url in Due(old(autoImport), clock(tick))
      ensures forall i, j :: 0 <= i < j < |claimed| ==> claimed[i] != claimed[j]
      ensures forall url :: url in rearmed <==> url in claimed && writes(url)
      ensures forall url :: url in claimed <==>
                url in old(autoImport) && old(autoImport)[url].nextImport <= clock(tick) / 1_000_000
      ensures autoImport.Keys == old(autoImport).Keys
      ensures forall url :: url in old(autoImport) ==>
                autoImport[url] ==
                if url in rearmed
                then Config(old(autoImport)[url].interval, (rearmed[url] + old(autoImport)[url].interval) / 1_000_000)
                else old(autoImport)[url]
    {
      var due := clock(tick);
      claimed, later, rearmed := [], tick + 1, map[];
      var todo := Due(autoImport, due);
      while todo != {}
        invariant todo <= Due(autoImport, due)
        invariant forall url :: url in claimed <==> url in Due(autoImport, due) - todo
        invariant forall i, j :: 0 <= i < j < |claimed| ==> claimed[i] != claimed[j]
        decreases todo
      {
        var url :| url in todo;
        assert url !in claimed;
        claimed, todo := claimed + [url], todo - {url};
      }
      ghost var before := autoImport;
      assert Rearmed(before, map[]) == before;
      for i := 0 to |claimed|
        invariant tick < later
        invariant autoImport == Rearmed(before, rearmed)
        invariant forall url :: url in rearmed ==> due <= rearmed[url] <= clock(later)
        invariant forall url :: url in rearmed <==> url in claimed[..i] && writes(url)
      {
        var url := claimed[i];
        assert claimed[..i + 1] == claimed[..i] + [url] && url in claimed;
        if writes(url) {
          var now := clock(later);
          autoImport := autoImport[url := autoImport[url].(nextImport := Date(now + autoImport[url].interval))];
          rearmed := rearmed[url := now];
          assert autoImport == Rearmed(before, rearmed);
        }
        assert clock(later) <= clock(later + 1);
        later := later + 1;
      }
      assert claimed[..|claimed|] == claimed;
    }
  }

  // ------------------------------------------------------------------------
  // One pass over the claimed configurations
  // ------------------------------------------------------------------------

  /** The network while one configuration is tried: downloads of bundles, and key sets. */
  datatype Network = Network(fetch: string -> Option<string>, web: Bundles.Web)

  /** The policy that trying a URL imports. */
  function Tried(lib: Bundles.Library, net: Network, url: string): Option<Policy> {
    match net.fetch(url)
    case None => None
    case Some(archive) =>
      match Bundles.Import(lib, net.web, archive)
      case Err(_) => None
      case Ok(p) => Some(p)
  }

  /** A URL imports exactly the policy that its download imports. */
  lemma TriedIff(lib: Bundles.Library, net: Network, url: string, p: Policy)
    ensures Tried(lib, net, url) == Some(p) <==>
            net.fetch(url).Some? && Bundles.Import(lib, net.web, net.fetch(url).value) == Ok(p)
  {
    hide Bundles.Import;
  }

  /** The positions whose download and import both succeed. */
  function Successes(lib: Bundles.Library, nets: nat -> Network, urls: seq<string>): set<nat> {
    set i | 0 <= i < |urls| && Tried(lib, nets(i), urls[i]).Some?
  }

  /** The saves of the pass, in the order of the configurations. */
  function Saves(lib: Bundles.Library, nets: nat -> Network, urls: seq<string>): seq<Calls.Call>
    decreases |urls|
  {
    if urls == [] then []
    else
      Saves(lib, nets, Front(urls)) +
      match Tried(lib, nets(|urls| - 1), Last(urls))
      case None => []
      case Some(p) => [Calls.SaveCall(p)]
  }

  /** There is one save for each success. */
  lemma {:induction false} SavesAreSuccesses(lib: Bundles.Library, nets: nat -> Network, urls: seq<string>)
    ensures |Saves(lib, nets, urls)| == |Successes(lib, nets, urls)|
    decreases |urls|
  {
    hide Tried;
    if urls == [] {
      assert Successes(lib, nets, urls) == {};
    } else {
      var n, before := |urls| - 1, Successes(lib, nets, Front(urls));
      var tried := Tried(lib, nets(n), urls[n]);
      assert |Saves(lib, nets, urls)| == |Saves(lib, nets, Front(urls))| + if tried.Some? then 1 else 0;
      assert Successes(lib, nets, urls) == if tried.Some? then before + {n} else before;
      assert n !in before;
      hide Saves, Successes;
      SavesAreSuccesses(lib, nets, Front(urls));
    }
  }

  /** The shared state after trying one URL. */
  function AfterTry(env: Calls.Env, sh: CacheProtocol.Shared, tried: Option<Policy>): CacheProtocol.Shared {
    match tried
    case None => sh
    case Some(p) => Calls.After(env, sh, Calls.SaveCall(p))
  }

  /** One more configuration: what it adds to the successes and to the shared state. */
  lemma OneMoreTried(lib: Bundles.Library, nets: nat -> Network, urls: seq<string>, url: string,
                     env: Calls.Env, sh: CacheProtocol.Shared)
    ensures
      var p := Tried(lib, nets(|urls|), url);
      && |Successes(lib, nets, urls + [url])| == |Successes(lib, nets, urls)| + (if p.Some? then 1 else 0)
      && Calls.AfterAll(env, sh, Saves(lib, nets, urls + [url])) ==
         AfterTry(env, Calls.AfterAll(env, sh, Saves(lib, nets, urls)), p)
  {
    hide Tried, Calls.After;
    var p, more, saves := Tried(lib, nets(|urls|), url), urls + [url], Saves(lib, nets, urls);
    assert Front(more) == urls && Last(more) == url;
    SavesAreSuccesses(lib, nets, urls);
    SavesAreSuccesses(lib, nets, more);
    if p.Some? {
      assert Front(saves + [Calls.SaveCall(p.value)]) == saves;
    } else {
      assert saves + [] == saves;
    }
  }

  /** What trying each of the URLs imports. */
  function Outcomes(lib: Bundles.Library, nets: nat -> Network, urls: seq<string>): (os: seq<Option<Policy>>)
    ensures |os| == |urls|
    ensures forall i :: 0 <= i < |urls| ==> os[i] == Tried(lib, nets(i), urls[i])
  {
    seq(|urls|, i requires 0 <= i < |urls| => Tried(lib, nets(i), urls[i]))
  }

  /** The last imported policy of this key. */
  function LastUnder(os: seq<Option<Policy>>, key: string): Option<Policy>
    decreases |os|
  {
    if os == [] then None
    else if Last(os).Some? && ConstructKey(Last(os).value.Id()) == key then Last(os)
    else LastUnder(Front(os), key)
  }

  /** The store holds it under the key, or else what it held before. */
  predicate HoldsLast(os: seq<Option<Policy>>, before: map<string, Policy>, after: map<string, Policy>, key: string) {
    match LastUnder(os, key)
    case Some(p) => key in after && after[key] == p
    case None => (key in after <==> key in before) && (key in before ==> after[key] == before[key])
  }

  /** One attempt changes the store under the key of its policy only. */
  lemma TryStores(env: Calls.Env, sh: CacheProtocol.Shared, tried: Option<Policy>)
    ensures
      var after := AfterTry(env, sh, tried);
      && after.cache == sh.cache
      && after.store == if tried.Some? then sh.store[ConstructKey(tried.value.Id()) := tried.value] else sh.store
  {
  }

  lemma HoldsLastMore(os: seq<Option<Policy>>, o: Option<Policy>,
                      before: map<string, Policy>, mid: map<string, Policy>, key: string)
    requires HoldsLast(os, before, mid, key)
    ensures HoldsLast(os + [o], before, if o.Some? then mid[ConstructKey(o.value.Id()) := o.value] else mid, key)
  {
    assert Front(os + [o]) == os && Last(os + [o]) == o;
  }

  /** After a pass the store holds under each key the policy of the last success with that key, or else what it
      held before; the cache is untouched. */
  lemma {:induction false} PassStores(lib: Bundles.Library, nets: nat -> Network, urls: seq<string>,
                                      env: Calls.Env, sh: CacheProtocol.Shared, key: string)
    ensures
      var after := Calls.AfterAll(env, sh, Saves(lib, nets, urls));
      after.cache == sh.cache && HoldsLast(Outcomes(lib, nets, urls), sh.store, after.store, key)
    decreases |urls|
  {
    hide Tried, Calls.After, Successes;
    if urls != [] {
      var n, front := |urls| - 1, Front(urls);
      assert urls == front + [urls[n]];
      assert Outcomes(lib, nets, urls) == Outcomes(lib, nets, front) + [Tried(lib, nets(n), urls[n])];
      hide HoldsLast, Outcomes;
      PassStores(lib, nets, front, env, sh, key);
      OneMoreTried(lib, nets, front, urls[n], env, sh);
      hide Calls.AfterAll, Saves, AfterTry;
      var mid := Calls.AfterAll(env, sh, Saves(lib, nets, front));
      TryStores(env, mid, Tried(lib, nets(n), urls[n]));
      HoldsLastMore(Outcomes(lib, nets, front), Tried(lib, nets(n), urls[n]), sh.store, mid.store, key);
    }
  }
}
