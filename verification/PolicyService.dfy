/** The policy service over the memory storage and the rego cache. */
module PolicyService {
  import opened Wrappers
  import opened Policies
  import opened CacheProtocol
  import opened Heap
  import AutoImport
  import Bundles
  import Calls
  import LockGate
  import Polling

  /** The sections of a retrieve around those of a lock, on the shared state. */
  lemma LateWriteEffect(sh: Shared, id: Identity)
    requires sh.Stored(id).Some? && !sh.Stored(id).value.locked && !sh.Outstanding()
    ensures
      var locked := sh.WithLock(id, true);
      var after := Calls.Deliver(locked, ConstructKey(id)).WithCached(id, sh.Stored(id).value);
      && ConstructKey(id) in locked.pending && LockGate.IsLocked(after, ConstructKey(id)) && !after.Outstanding()
      && after.Admitted(id) == Ok(sh.Stored(id).value)
  {
    assert multiset{ConstructKey(id)} - multiset{ConstructKey(id)} == multiset{};
  }

  class Service {
    const storage: MemoryStorage
    const policyCache: RegoCache
    const env: Calls.Env

    /** The objects that callers, retrieves in flight or the cache have ever been given. */
    ghost var outside: set<PolicyObject>

    /** None of them is a stored one: writes into the store in place never reach the cache, a caller or a
        retrieve in flight. */
    ghost predicate Valid()
      reads this, storage, policyCache, storage.policies.Values
    {
      && storage.Valid()
      && policyCache.cache.Values <= outside
      && outside !! storage.policies.Values
    }

    /** The shared state of the cache protocol. */
    ghost function Abs(): Shared
      reads storage, policyCache, storage.policies.Values, policyCache.cache.Values
    {
      Shared(storage.Store(), Values(policyCache.cache), storage.pending, storage.taken)
    }

    /** `initial` comes from a walk of the policy repository. */
    constructor (initial: map<string, PolicyObject>, env: Calls.Env)
      requires Separate(initial) && Keyed(Values(initial))
      ensures Valid() && fresh(storage) && fresh(policyCache) && this.env == env
      ensures Abs() == Shared(Values(initial), map[], multiset{}, None) && outside == {}
      ensures storage.subscribers == [CacheSubscriber(policyCache), NotifierSubscriber]
    {
      var s := new MemoryStorage(initial);
      var c := new RegoCache();
      s.subscribers := [CacheSubscriber(c), NotifierSubscriber];
      storage, policyCache, this.env, outside := s, c, env, {};
    }

    // ----------------------------------------------------------------------
    // The atomic sections, each one step of the cache protocol. They may be interleaved in any way: what a
    // section has handed out stays outside the store, with its fields, through all later ones.
    // ----------------------------------------------------------------------

    /** The storage read of a retrieve. */
    method ReadStored(id: Identity) returns (res: Result<PolicyObject>)
      requires Valid()
      modifies this`outside
      ensures Valid() && outside == old(outside) + (if res.Ok? then {res.value} else {})
      ensures match Abs().Stored(id)
              case None => res == Err(NotFound)
              case Some(p) => res.Ok? && fresh(res.value) && res.value.fields == p
    {
      res := storage.Policy(id);
      if res.Ok? {
        outside := outside + {res.value};
      }
    }

    /** The cache write of a retrieve, of a policy that was read in an earlier section. */
    method WriteCached(id: Identity, p: PolicyObject)
      requires Valid() && p in outside
      modifies policyCache
      ensures Valid() && Abs() == old(Abs()).WithCached(id, p.fields)
      ensures policyCache.cache == old(policyCache.cache)[QueryCacheKey(id) := p]
    {
      policyCache.Set(QueryCacheKey(id), p);
      assert storage.Store() == old(storage.Store());
    }

    /** A lock change of the stored policy. */
    method WriteLock(id: Identity, lock: bool) returns (res: Result<()>)
      requires Valid()
      modifies storage`pending, storage.policies.Values`fields
      ensures Valid() && Abs() == old(Abs()).WithLock(id, lock)
      ensures forall o :: o in outside ==> o.fields == old(o.fields)
      ensures res == if old(Abs()).Stored(id).Some? then Ok(()) else Err(NotFound)
    {
      res := storage.SetPolicyLock(id, lock);
      assert Values(policyCache.cache) == old(Values(policyCache.cache));
    }

    /** A save of a policy that nobody else holds. */
    method WriteStored(p: Policy)
      requires Valid()
      modifies storage
      ensures Valid() && Abs() == Calls.After(env, old(Abs()), Calls.SaveCall(p))
      ensures storage.Store() == old(storage.Store())[ConstructKey(p.Id()) := p]
      ensures storage.pending == old(storage.pending) + multiset{ConstructKey(p.Id())}
      ensures policyCache.cache == old(policyCache.cache)
      ensures storage.subscribers == old(storage.subscribers) && storage.taken == old(storage.taken)
      ensures fresh(storage.policies.Values - old(storage.policies.Values))
    {
      var pointer := new PolicyObject(p);
      storage.SavePolicy(pointer);
      assert forall o :: o in storage.policies.Values ==> o in old(storage.policies.Values) || o == pointer;
      assert Values(policyCache.cache) == old(Values(policyCache.cache));
    }

    /** The listener takes the event of a policy of this identity. */
    method Take(id: Identity)
      requires Valid() && ConstructKey(id) in storage.pending && storage.taken.None?
      modifies storage`pending, storage`taken
      ensures Valid() && Abs() == old(Abs()).EventTaken(ConstructKey(id))
    {
      storage.TakeChange(id);
    }

    /** It passes the event on; the cache is the first to be told. */
    method Purge(id: Identity, sends: bool) returns (res: Result<()>)
      requires Valid() && storage.taken == Some(ConstructKey(id))
      requires storage.subscribers == [CacheSubscriber(policyCache), NotifierSubscriber]
      modifies storage`taken, policyCache
      ensures Valid() && Abs() == old(Abs()).Purged()
      ensures res == if sends then Ok(()) else Err(Failure)
    {
      ghost var before := Abs();
      assert storage.subscribers[0].cache == policyCache && storage.subscribers[1].NotifierSubscriber?;
      assert Caches(storage.subscribers) == {policyCache};
      assert Told(storage.subscribers, sends, 0);
      res := storage.DeliverChange(id, sends);
      assert policyCache.cache == map[] && Values(policyCache.cache) == map[];
      assert storage.Store() == before.store;
    }

    /** One turn of the listener that nothing interrupts. */
    method Deliver(id: Identity, sends: bool) returns (res: Result<()>)
      requires Valid() && ConstructKey(id) in storage.pending && storage.taken.None?
      requires storage.subscribers == [CacheSubscriber(policyCache), NotifierSubscriber]
      modifies storage`pending, storage`taken, policyCache
      ensures Valid() && Abs() == Calls.Deliver(old(Abs()), ConstructKey(id))
      ensures res == if sends then Ok(()) else Err(Failure)
    {
      Take(id);
      res := Purge(id, sends);
    }

    /** Sections of three parties interleaved, on real objects: a retrieve reads before a lock and writes after
        the purge that the lock caused. The lock is stored, every event is delivered, and the copy that the
        retrieve held all along is still admitted. */
    method LateWrite(id: Identity, sends: bool)
      requires Valid() && storage.subscribers == [CacheSubscriber(policyCache), NotifierSubscriber]
      requires !Abs().Outstanding()
      requires Abs().Stored(id).Some? && !Abs().Stored(id).value.locked
      modifies this`outside, storage`pending, storage`taken, storage.policies.Values`fields, policyCache
      ensures Valid() && LockGate.IsLocked(Abs(), ConstructKey(id)) && !Abs().Outstanding()
      ensures Abs().Admitted(id) == Ok(old(Abs()).Stored(id).value)
    {
      LateWriteEffect(Abs(), id);
      var read := ReadStored(id);
      LockAndPurge(id, sends);
      hide Abs, Calls.Deliver, LockGate.IsLocked;
      WriteCached(id, read.value);
    }

    /** A lock and the delivery of its event. */
    method LockAndPurge(id: Identity, sends: bool)
      requires Valid() && storage.subscribers == [CacheSubscriber(policyCache), NotifierSubscriber]
      requires Abs().Stored(id).Some? && storage.taken.None?
      modifies storage`pending, storage`taken, storage.policies.Values`fields, policyCache
      ensures Valid() && Abs() == Calls.Deliver(old(Abs()).WithLock(id, true), ConstructKey(id))
      ensures forall o :: o in outside ==> o.fields == old(o.fields)
    {
      assert ConstructKey(id) in Abs().WithLock(id, true).pending && Abs().WithLock(id, true).taken.None?;
      hide Calls.Deliver;
      var lock := WriteLock(id, true);
      var told := Deliver(id, sends);
    }

    // ----------------------------------------------------------------------
    // The calls
    // ----------------------------------------------------------------------

    method RetrievePolicy(id: Identity) returns (res: Result<PolicyObject>)
      requires Valid()
      modifies this`outside, policyCache
      ensures Valid() && Abs() == Calls.Retrieve(old(Abs()), id).1
      ensures old(outside) <= outside && (res.Ok? ==> res.value in outside)
      ensures match Calls.Retrieve(old(Abs()), id).0
              case Ok(p) => res.Ok? && res.value.fields == p
              case Err(e) => res == Err(e)
      ensures res.Ok? ==> res.value in policyCache.cache.Values
    {
      var hit := policyCache.Get(QueryCacheKey(id));
      if hit.Some? {
        assert Abs().cache[QueryCacheKey(id)] == hit.value.fields;
        return Ok(hit.value);
      }
      res := ReadStored(id);
      if res.Ok? {
        WriteCached(id, res.value);
        assert policyCache.cache[QueryCacheKey(id)] == res.value;
      }
    }

    method Evaluate(id: Identity, input: string) returns (res: Result<string>)
      requires Valid()
      modifies this`outside, policyCache
      ensures Valid() && (res, Abs()) == Calls.Evaluate(env, old(Abs()), id, input)
      ensures old(outside) <= outside
    {
      var pol := RetrievePolicy(id);
      if pol.Err? {
        return Err(pol.error);
      }
      if pol.value.fields.locked {
        return Err(Forbidden);
      }
      match env.evaluate(id, pol.value.fields, input) {
        case None => return Err(Failure);
        case Some(output) =>
          if env.keep(id, input, output) == Calls.Refused {
            return Err(Failure);
          }
          return Ok(output);
      }
    }

    method LockHeld(p: PolicyObject) returns (res: Result<()>)
      requires Valid()
      modifies storage`pending, storage.policies.Values`fields
      ensures Valid() && (res, Abs()) == Calls.LockHeld(old(Abs()), old(p.fields))
      ensures forall o :: o in outside ==> o.fields == old(o.fields)
    {
      if p.fields.locked {
        return Err(Forbidden);
      }
      res := WriteLock(p.fields.Id(), true);
    }

    method Lock(id: Identity) returns (res: Result<()>)
      requires Valid()
      modifies this`outside, storage`pending, storage.policies.Values`fields
      ensures Valid() && (res, Abs()) == Calls.Lock(old(Abs()), id)
      ensures old(outside) <= outside && forall o :: o in old(outside) ==> o.fields == old(o.fields)
    {
      var pol := ReadStored(id);
      if pol.Err? {
        return Err(pol.error);
      }
      res := LockHeld(pol.value);
    }

    method Unlock(id: Identity) returns (res: Result<()>)
      requires Valid()
      modifies this`outside, storage`pending, storage.policies.Values`fields
      ensures Valid() && (res, Abs()) == Calls.Unlock(old(Abs()), id)
      ensures old(outside) <= outside && forall o :: o in old(outside) ==> o.fields == old(o.fields)
    {
      var pol := ReadStored(id);
      if pol.Err? {
        return Err(pol.error);
      }
      if !pol.value.fields.locked {
        return Err(Forbidden);
      }
      res := WriteLock(id, false);
    }

    method Validate(id: Identity, input: string) returns (res: Result<string>)
      requires Valid()
      modifies this`outside, policyCache, storage`pending, storage.policies.Values`fields
      ensures Valid() && (res, Abs()) == Calls.Validate(env, old(Abs()), id, input)
      ensures old(outside) <= outside && forall o :: o in old(outside) ==> o.fields == old(o.fields)
    {
      var pol := RetrievePolicy(id);
      if pol.Err? {
        return Err(pol.error);
      }
      if pol.value.fields.outputSchema == "" {
        return Err(BadRequest);
      }
      res := Evaluate(id, input);
      if res.Err? {
        return;
      }
      match env.accepts(pol.value.fields.outputSchema, res.value) {
        case None => return Err(Failure);
        case Some(accepted) =>
          if !accepted {
            if env.validationLock {
              var _ := LockHeld(pol.value);
            }
            return Err(Failure);
          }
      }
    }

    // ----------------------------------------------------------------------
    // Bundles
    // ----------------------------------------------------------------------

    method ExportBundle(lib: Bundles.Library, host: string, id: Identity) returns (res: Result<string>)
      requires Valid()
      modifies this`outside
      ensures Valid() && Abs() == old(Abs()) && old(outside) <= outside
      ensures res == Bundles.Export(lib, host, Abs().Stored(id))
    {
      hide Bundles.Bundle, Bundles.PolicyExportConfig, Bundles.Blank;
      var pol := ReadStored(id);
      if pol.Err? {
        return Err(pol.error);
      }
      var p := pol.value.fields;
      var cfg := Bundles.PolicyExportConfig(lib, p);
      if cfg.Err? {
        return Err(cfg.error);
      }
      var bundle := Bundles.CreatePolicyBundle(lib, host, p);
      if bundle.None? {
        return Err(Failure);
      }
      var signature := lib.sign(cfg.value, lib.digest(bundle.value));
      if signature.None? {
        return Err(Failure);
      }
      var archive := lib.zip([Bundles.File(Bundles.BUNDLE_FILE, bundle.value),
                              Bundles.File(Bundles.SIGNATURE_FILE, signature.value)]);
      res := if archive.None? then Err(Failure) else Ok(archive.value);
    }

    method PolicyPublicKey(lib: Bundles.Library, id: Identity) returns (res: Result<Bundles.PublicKey>)
      requires Valid()
      modifies this`outside
      ensures Valid() && Abs() == old(Abs()) && old(outside) <= outside
      ensures res == Bundles.PolicyPublicKey(lib, Abs().Stored(id))
    {
      var pol := ReadStored(id);
      if pol.Err? {
        return Err(pol.error);
      }
      var cfg := Bundles.PolicyExportConfig(lib, pol.value.fields);
      if cfg.Err? {
        return Err(cfg.error);
      }
      var k := lib.key(cfg.value);
      res := if k.None? then Err(Failure) else Ok(k.value);
    }

    method ImportBundle(lib: Bundles.Library, web: Bundles.Web, archive: string) returns (res: Result<Policy>)
      requires Valid()
      modifies storage
      ensures Valid() && res == Bundles.Import(lib, web, archive)
      ensures Abs() == if res.Ok? then Calls.After(env, old(Abs()), Calls.SaveCall(res.value)) else old(Abs())
      ensures res.Ok? ==>
                && storage.Store() == old(storage.Store())[ConstructKey(res.value.Id()) := res.value]
                && storage.pending == old(storage.pending) + multiset{ConstructKey(res.value.Id())}
      ensures res.Err? ==> storage.Store() == old(storage.Store()) && storage.pending == old(storage.pending)
      ensures policyCache.cache == old(policyCache.cache)
      ensures fresh(storage.policies.Values - old(storage.policies.Values))
    {
      var files := lib.unzip(archive);
      if files.None? || |files.value| != 2 {
        return Err(BadRequest);
      }
      if !Bundles.VerifyBundle(lib, web, files.value[0], files.value[1]) {
        return Err(Forbidden);
      }
      var inner := lib.unzip(files.value[0].content);
      if inner.None? {
        return Err(Failure);
      }
      res := Bundles.PolicyFromBundle(lib, inner.value);
      assert res == Bundles.Import(lib, web, archive);
      hide Bundles.Import, Bundles.VerifyBundle, Bundles.Rebuilt, Calls.After;
      if res.Ok? {
        WriteStored(res.value);
      }
    }

    /** What the automatic import does with one configuration. */
    method TryImport(lib: Bundles.Library, net: AutoImport.Network, url: string) returns (imported: bool)
      requires Valid()
      modifies storage
      ensures Valid() && imported == AutoImport.Tried(lib, net, url).Some?
      ensures Abs() == AutoImport.AfterTry(env, old(Abs()), AutoImport.Tried(lib, net, url))
    {
      var archive := net.fetch(url);
      if archive.None? {
        return false;
      }
      hide Bundles.Import, Calls.After;
      var res := ImportBundle(lib, net.web, archive.value);
      imported := res.Ok?;
    }

    /** One pass of the automatic import: a failed download or import never stops it. */
    method DoImport(lib: Bundles.Library, nets: nat -> AutoImport.Network, urls: seq<string>) returns (imported: nat)
      requires Valid()
      modifies storage
      ensures Valid() && imported == |AutoImport.Successes(lib, nets, urls)|
      ensures Abs() == Calls.AfterAll(env, old(Abs()), AutoImport.Saves(lib, nets, urls))
    {
      imported := 0;
      for i := 0 to |urls|
        invariant Valid() && imported == |AutoImport.Successes(lib, nets, urls[..i])|
        invariant Abs() == Calls.AfterAll(env, old(Abs()), AutoImport.Saves(lib, nets, urls[..i]))
      {
        assert urls[..i + 1] == urls[..i] + [urls[i]];
        hide Abs, Valid, AutoImport.Tried, AutoImport.AfterTry, AutoImport.Saves, AutoImport.Successes, Calls.AfterAll;
        AutoImport.OneMoreTried(lib, nets, urls[..i], urls[i], env, old(Abs()));
        var ok := TryImport(lib, nets(i), urls[i]);
        imported := imported + if ok then 1 else 0;
      }
      assert urls[..|urls|] == urls;
    }

    /** One turn of the automatic importer: claim the due configurations, then try each of them once. */
    method AutoImportTurn(collection: AutoImport.ImportCollection, clock: Polling.Clock, tick: nat, writes: string -> bool,
                          lib: Bundles.Library, nets: nat -> AutoImport.Network)
      returns (imported: nat, ghost claimed: seq<string>)
      requires Valid() && Polling.Monotone(clock)
      modifies storage, collection
      ensures Valid()
      ensures forall url :: url in claimed <==> url in AutoImport.Due(old(collection.autoImport), clock(tick))
      ensures forall i, j :: 0 <= i < j < |claimed| ==> claimed[i] != claimed[j]
      ensures imported == |AutoImport.Successes(lib, nets, claimed)|
      ensures Abs() == Calls.AfterAll(env, old(Abs()), AutoImport.Saves(lib, nets, claimed))
    {
      var urls, later, rearmed := collection.ActiveImportConfigs(clock, tick, writes);
      assert Abs() == old(Abs());
      claimed := urls;
      imported := DoImport(lib, nets, urls);
    }
  }
}
