/** The objects the memory storage and the rego cache hold and change in place. */
module Heap {
  import opened Wrappers
  import opened Policies
  import Lease = RefreshLease
  import opened Polling

  /** A pointer to a policy struct: copying the struct copies its value, and a write to one of its fields
      is seen through every pointer to it. */
  class PolicyObject {
    var fields: Policy

    constructor (p: Policy)
      ensures fields == p
    {
      fields := p;
    }
  }

  function Values(objects: map<string, PolicyObject>): map<string, Policy>
    reads objects.Values
  {
    map k | k in objects :: objects[k].fields
  }

  lemma KeyedUpdate(store: map<string, Policy>, key: string, p: Policy)
    requires Keyed(store) && ConstructKey(p.Id()) == key
    ensures Keyed(store[key := p])
  {
  }

  /** Writing one policy without touching its identity keeps every policy under its key. */
  lemma WrittenInPlace(before: map<string, Policy>, after: map<string, Policy>, key: string, p: Policy)
    requires Keyed(before) && key in before && p.Id() == before[key].Id()
    requires after.Keys == before.Keys && after[key] == p
    requires forall k :: k in before && k != key ==> after[k] == before[k]
    ensures after == before[key := p] && Keyed(after)
  {
    assert after == before[key := p];
    assert ConstructKey(p.Id()) == key;
  }

  /** No object sits under two keys. */
  ghost predicate Separate(objects: map<string, PolicyObject>) {
    forall k, q :: k in objects && q in objects && objects[k] == objects[q] ==> k == q
  }

  /** The rego cache. */
  class RegoCache {
    var cache: map<string, PolicyObject>

    constructor ()
      ensures cache == map[]
    {
      cache := map[];
    }

    method Set(key: string, policy: PolicyObject)
      modifies this
      ensures cache == old(cache)[key := policy]
      ensures Values(cache) == old(Values(cache))[key := policy.fields]
    {
      cache := cache[key := policy];
      assert Values(cache) == old(Values(cache))[key := policy.fields];
    }

    method Get(key: string) returns (policy: Option<PolicyObject>)
      ensures policy == if key in cache then Some(cache[key]) else None
    {
      policy := if key in cache then Some(cache[key]) else None;
    }

    method Purge()
      modifies this
      ensures cache == map[]
    {
      cache := map[];
    }

    method PolicyDataChange(repository: string, group: string, name: string, version: string) returns (res: Result<()>)
      modifies this
      ensures cache == map[] && res == Ok(())
    {
      Purge();
      return Ok(());
    }
  }

  /** Who is told of changes: a cache, or the notifier, which sends an event and may fail to. */
  datatype Subscriber = CacheSubscriber(cache: RegoCache) | NotifierSubscriber

  function Caches(subscribers: seq<Subscriber>): set<RegoCache> {
    set i | 0 <= i < |subscribers| && subscribers[i].CacheSubscriber? :: subscribers[i].cache
  }

  /** A failing subscriber keeps the later ones from being told. */
  predicate Told(subscribers: seq<Subscriber>, sends: bool, i: nat)
    requires i <= |subscribers|
  {
    sends || forall j :: 0 <= j < i ==> subscribers[j].CacheSubscriber?
  }

  /** The memory storage: its policy map, the changed policies of the senders that wait on its channel, and the
      one that its listener has taken and not passed on yet. */
  class MemoryStorage {
    var policies: map<string, PolicyObject>
    var pending: multiset<string>
    var taken: Option<string>
    var subscribers: seq<Subscriber>

    ghost predicate Valid()
      reads this, policies.Values
    {
      Separate(policies) && Keyed(Store())
    }

    ghost function Store(): map<string, Policy>
      reads this, policies.Values
    {
      Values(policies)
    }

    /** `initial` is the map a repository walk fills, one new object a file. */
    constructor (initial: map<string, PolicyObject>)
      requires Separate(initial) && Keyed(Values(initial))
      ensures Valid() && policies == initial && pending == multiset{} && taken == None && subscribers == []
    {
      policies, pending, taken, subscribers := initial, multiset{}, None, [];
    }

    /** The policy as a copy, so that later changes in place do not reach the caller. */
    method Policy(id: Identity) returns (res: Result<PolicyObject>)
      requires Valid()
      ensures res == Err(NotFound) <==> ConstructKey(id) !in policies
      ensures res.Ok? <==> ConstructKey(id) in policies
      ensures res.Ok? ==> fresh(res.value) && res.value.fields == Store()[ConstructKey(id)]
    {
      var key := ConstructKey(id);
      if key !in policies {
        return Err(NotFound);
      }
      var copy := new PolicyObject(policies[key].fields);
      return Ok(copy);
    }

    /** The caller's object itself becomes the stored one. */
    method SavePolicy(policy: PolicyObject)
      requires Valid()
      modifies this
      ensures Valid()
      ensures policies == old(policies)[ConstructKey(policy.fields.Id()) := policy]
      ensures Store() == old(Store())[ConstructKey(policy.fields.Id()) := policy.fields]
      ensures pending == old(pending) + multiset{ConstructKey(policy.fields.Id())}
      ensures taken == old(taken) && subscribers == old(subscribers)
    {
      var key := ConstructKey(policy.fields.Id());
      KeyedUpdate(Store(), key, policy.fields);
      assert forall k :: k in policies && policies[k] == policy ==> ConstructKey(Store()[k].Id()) == k;
      ghost var after := Store()[key := policy.fields];
      policies := policies[key := policy];
      pending := pending + multiset{key};
      assert Store() == after;
    }

    /** Writes the lock into the stored object. */
    method SetPolicyLock(id: Identity, lock: bool) returns (res: Result<()>)
      requires Valid()
      modifies this`pending, policies.Values`fields
      ensures Valid() && policies == old(policies)
      ensures ConstructKey(id) !in policies ==> res == Err(NotFound) && Store() == old(Store()) && pending == old(pending)
      ensures ConstructKey(id) in policies ==>
                && res == Ok(()) && pending == old(pending) + multiset{ConstructKey(id)}
                && Store() == old(Store())[ConstructKey(id) := old(Store())[ConstructKey(id)].(locked := lock)]
    {
      var key := ConstructKey(id);
      if key !in policies {
        return Err(NotFound);
      }
      var p := policies[key];
      ghost var before := Store();
      p.fields := p.fields.(locked := lock);
      pending := pending + multiset{key};
      forall k | k in policies && k != key
        ensures Store()[k] == before[k]
      {
        assert policies[k] != policies[key];
      }
      WrittenInPlace(before, Store(), key, before[key].(locked := lock));
      return Ok(());
    }

    /** The listener receives the event of a waiting sender. */
    method TakeChange(id: Identity)
      requires ConstructKey(id) in pending && taken.None?
      modifies this`pending, this`taken
      ensures pending == old(pending) - multiset{ConstructKey(id)} && taken == Some(ConstructKey(id))
    {
      pending, taken := pending - multiset{ConstructKey(id)}, Some(ConstructKey(id));
    }

    /** It passes the event to the subscribers, in order, until one fails; then it ends. */
    method DeliverChange(id: Identity, sends: bool) returns (res: Result<()>)
      requires taken == Some(ConstructKey(id))
      modifies this`taken, Caches(subscribers)
      ensures taken == None
      ensures res == if Told(subscribers, sends, |subscribers|) then Ok(()) else Err(Failure)
      ensures forall i :: 0 <= i < |subscribers| && subscribers[i].CacheSubscriber? && Told(subscribers, sends, i) ==>
                subscribers[i].cache.cache == map[]
    {
      taken := None;
      for i := 0 to |subscribers|
        invariant taken == None
        invariant Told(subscribers, sends, i)
        invariant forall j :: 0 <= j < i && subscribers[j].CacheSubscriber? ==> subscribers[j].cache.cache == map[]
      {
        match subscribers[i]
        case CacheSubscriber(cache) =>
          var _ := cache.PolicyDataChange(id.repository, id.name, id.version, id.group);
        case NotifierSubscriber =>
          if !sends {
            return Err(Failure);
          }
      }
      return Ok(());
    }

    method WriteTime(key: string, t: Time)
      requires Valid() && key in policies
      modifies policies.Values`fields
      ensures Valid() && policies == old(policies)
      ensures Store() == old(Store())[key := old(Store())[key].(nextDataRefreshTime := t)]
    {
      ghost var before := Store();
      policies[key].fields := policies[key].fields.(nextDataRefreshTime := t);
      forall k | k in policies && k != key
        ensures Store()[k] == before[k]
      {
        assert policies[k] != policies[key];
      }
      WrittenInPlace(before, Store(), key, before[key].(nextDataRefreshTime := t));
    }

    /** Writes the next refresh time into the stored object. No event is raised. */
    method UpdateNextRefreshTime(id: Identity, t: Time) returns (res: Result<()>)
      requires Valid()
      modifies policies.Values`fields
      ensures Valid() && policies == old(policies)
      ensures res == if ConstructKey(id) in policies then Ok(()) else Err(NotFound)
      ensures Store() == WithNextTime(old(Store()), id, t)
    {
      if ConstructKey(id) !in policies {
        return Err(NotFound);
      }
      WriteTime(ConstructKey(id), t);
      return Ok(());
    }

    /** One policy of a poll: check it, and if it is due copy and postpone it. */
    method ClaimIfDue(key: string, clock: Clock, tick: nat)
      returns (copy: Option<Policies.Policy>, later: nat, ghost visit: Visit)
      requires Valid() && key in policies && Monotone(clock)
      modifies policies.Values
      ensures Valid() && clock(tick) <= visit.due <= visit.at <= clock(later) && visit.key == key
      ensures copy == if IsDue(old(Store()), visit) then Some(old(Store())[key]) else None
      ensures Store() == AfterVisit(old(Store()), visit)
    {
      var p := policies[key];
      var due := clock(tick);
      copy, later, visit := None, tick + 1, Visit(key, due, due);
      if p.fields.nextDataRefreshTime < due && p.fields.nextDataRefreshTime > ZERO_TIME {
        var at := clock(tick + 1);
        copy, later, visit := Some(p.fields), tick + 2, Visit(key, due, at);
        WriteTime(key, at + Lease.REFRESH_POSTPONE_PERIOD);
      }
    }

    /** The poll of a refresher: visits every policy once, in any order, under the mutex; copies the due
        ones into the result and postpones them. */
    method GetRefreshPolicies(clock: Clock, tick: nat)
      returns (res: seq<Policies.Policy>, later: nat, ghost visits: seq<Visit>)
      requires Valid() && Monotone(clock)
      modifies policies.Values
      ensures Valid()
      ensures InOrder(visits, clock(tick), clock(later)) && Once(visits) && Keys(visits) == policies.Keys
      ensures Store() == AfterVisits(old(Store()), visits)
      ensures res == Copies(old(Store()), visits)
    {
      res, later, visits := [], tick, [];
      ghost var before := Store();
      var todo := policies.Keys;
      hide Copies, Keys, InOrder, Once, AfterVisits, Steps;
      NoVisits(before, clock(tick));
      while todo != {}
        invariant Valid() && todo <= policies.Keys
        invariant InOrder(visits, clock(tick), clock(later)) && Once(visits) && Keys(visits) == policies.Keys - todo
        invariant Store() == AfterVisits(before, visits)
        invariant forall k :: k in todo ==> Store()[k] == before[k]
        invariant res == Copies(before, visits)
        decreases todo
      {
        var key :| key in todo;
        var copy, next, visit := ClaimIfDue(key, clock, later);
        OneMoreVisit(before, visits, visit, 0);
        OneMoreInOrder(visits, visit, clock(tick), clock(later), clock(next));
        if copy.Some? {
          res := res + [copy.value];
        }
        visits := visits + [visit];
        todo, later := todo - {key}, next;
      }
    }
  }
}
