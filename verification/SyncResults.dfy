/** What a synchronisation achieves, and what it leaves alone. */
module SyncResults {
  import opened Wrappers
  import opened Policies
  import opened Strings
  import opened Heap
  import opened GitSync

  predicate DistinctIds(ps: seq<Policy>) {
    forall i, j :: 0 <= i < j < |ps| ==> ps[i].Id() != ps[j].Id()
  }

  ghost predicate IdsIn(ps: seq<Policy>, ids: iset<Identity>) {
    forall p :: p in ps ==> p.Id() in ids
  }

  ghost predicate InjectiveOn(ids: iset<Identity>) {
    forall a, b :: a in ids && b in ids && ConstructKey(a) == ConstructKey(b) ==> a == b
  }

  lemma DotFreeIsInjective(ids: iset<Identity>)
    requires forall a :: a in ids ==> SeparatorFree(a, '.')
    ensures InjectiveOn(ids)
  {
    forall a, b | a in ids && b in ids && ConstructKey(a) == ConstructKey(b)
      ensures a == b
    {
      KeyInjective(a, b, '.');
    }
  }

  // ------------------------------------------------------------------------
  // Rows after writes
  // ------------------------------------------------------------------------

  lemma FindRowIs(rows: seq<Policy>, id: Identity, i: nat)
    requires i <= |rows| && (i < |rows| ==> rows[i].Id() == id)
    requires forall j :: 0 <= j < i ==> rows[j].Id() != id
    ensures FindRow(rows, id) == i
  {
  }

  lemma FindAfterUpsert(rows: seq<Policy>, p: Policy, s: Stamp, id: Identity)
    ensures Find(UpsertOne(rows, p, s), id) == if id == p.Id() then Some(Row(p, s)) else Find(rows, id)
  {
    var i, after := FindRow(rows, p.Id()), UpsertOne(rows, p, s);
    assert Row(p, s).Id() == p.Id();
    if id == p.Id() {
      FindRowIs(after, id, i);
    } else {
      var j := FindRow(rows, id);
      if j == |rows| {
        FindRowIs(after, id, |after|);
      } else {
        FindRowIs(after, id, j);
      }
    }
  }

  lemma {:induction false} FindUnwritten(rows: seq<Policy>, ps: seq<Policy>, stamps: nat -> Stamp, id: Identity)
    requires forall i :: 0 <= i < |ps| ==> ps[i].Id() != id
    ensures Find(UpsertAll(rows, ps, stamps), id) == Find(rows, id)
    decreases |ps|
  {
    if ps != [] {
      FindUnwritten(rows, Front(ps), stamps, id);
      FindAfterUpsert(UpsertAll(rows, Front(ps), stamps), Last(ps), stamps(|ps| - 1), id);
    }
  }

  lemma {:induction false} FindWritten(rows: seq<Policy>, ps: seq<Policy>, stamps: nat -> Stamp, i: nat)
    requires DistinctIds(ps) && i < |ps|
    ensures Find(UpsertAll(rows, ps, stamps), ps[i].Id()) == Some(Row(ps[i], stamps(i)))
    decreases |ps|
  {
    FindAfterUpsert(UpsertAll(rows, Front(ps), stamps), Last(ps), stamps(|ps| - 1), ps[i].Id());
    if i < |ps| - 1 {
      FindWritten(rows, Front(ps), stamps, i);
    }
  }

  lemma {:induction false} OtherRowsStay(rows: seq<Policy>, ps: seq<Policy>, stamps: nat -> Stamp, r: Policy)
    requires r in rows && forall i :: 0 <= i < |ps| ==> ps[i].Id() != r.Id()
    ensures r in UpsertAll(rows, ps, stamps)
    decreases |ps|
  {
    if ps != [] {
      OtherRowsStay(rows, Front(ps), stamps, r);
      var before := UpsertAll(rows, Front(ps), stamps);
      var j :| 0 <= j < |before| && before[j] == r;
      assert UpsertOne(before, Last(ps), stamps(|ps| - 1))[j] == r;
    }
  }

  lemma {:induction false} IdsStayDistinct(rows: seq<Policy>, ps: seq<Policy>, stamps: nat -> Stamp, ids: iset<Identity>)
    requires DistinctIds(rows) && IdsIn(rows, ids) && IdsIn(ps, ids)
    ensures DistinctIds(UpsertAll(rows, ps, stamps)) && IdsIn(UpsertAll(rows, ps, stamps), ids)
    decreases |ps|
  {
    if ps != [] {
      IdsStayDistinct(rows, Front(ps), stamps, ids);
      OneStaysDistinct(UpsertAll(rows, Front(ps), stamps), Last(ps), stamps(|ps| - 1), ids);
    }
  }

  lemma OneStaysDistinct(rows: seq<Policy>, p: Policy, s: Stamp, ids: iset<Identity>)
    requires DistinctIds(rows) && IdsIn(rows, ids) && p.Id() in ids
    ensures DistinctIds(UpsertOne(rows, p, s)) && IdsIn(UpsertOne(rows, p, s), ids)
  {
    var i, after := FindRow(rows, p.Id()), UpsertOne(rows, p, s);
    assert Row(p, s).Id() == p.Id();
    assert forall j :: 0 <= j < |rows| ==> after[j].Id() == rows[j].Id();
    forall q | q in after
      ensures q.Id() in ids
    {
      var j :| 0 <= j < |after| && after[j] == q;
      if j < |rows| {
        assert rows[j] in rows;
      }
    }
  }

  /** Where identities are distinct, a row is the one its identity finds. */
  lemma FindIsTheRow(rows: seq<Policy>, r: Policy)
    requires DistinctIds(rows) && r in rows
    ensures Find(rows, r.Id()) == Some(r)
  {
    var j :| 0 <= j < |rows| && rows[j] == r;
    FindRowIs(rows, r.Id(), j);
  }

  // ------------------------------------------------------------------------
  // The rows by key
  // ------------------------------------------------------------------------

  lemma {:induction false} FetchedAreRows(rows: seq<Policy>)
    ensures forall k :: k in Fetched(rows) ==> Fetched(rows)[k] in rows && ConstructKey(Fetched(rows)[k].Id()) == k
    ensures forall r :: r in rows ==> ConstructKey(r.Id()) in Fetched(rows)
    decreases |rows|
  {
    if rows != [] {
      FetchedAreRows(Front(rows));
      assert rows == Front(rows) + [Last(rows)];
    }
  }

  /** When keys tell the identities apart, the row seen under a key is the row of the identity. */
  lemma FetchedIsFound(rows: seq<Policy>, ids: iset<Identity>, id: Identity)
    requires DistinctIds(rows) && IdsIn(rows, ids) && InjectiveOn(ids) && id in ids
    ensures ConstructKey(id) in Fetched(rows) <==> Find(rows, id).Some?
    ensures Find(rows, id).Some? ==> Fetched(rows)[ConstructKey(id)] == Find(rows, id).value
  {
    FetchedAreRows(rows);
    if Find(rows, id).Some? {
      var r := Find(rows, id).value;
      assert r in rows;
    }
    if ConstructKey(id) in Fetched(rows) {
      var c := Fetched(rows)[ConstructKey(id)];
      assert c.Id() == id;
      FindIsTheRow(rows, c);
    }
  }

  // ------------------------------------------------------------------------
  // Convergence
  // ------------------------------------------------------------------------

  /** The policies of a repository sit under the keys of their identities, so those differ. */
  lemma CandidatesAreDistinct(curr: map<string, Policy>, repo: map<string, Policy>, keys: seq<string>)
    requires Keyed(repo) && Selection(curr, repo, keys)
    ensures DistinctIds(Candidates(curr, repo, keys))
    ensures forall i :: 0 <= i < |keys| ==> Candidates(curr, repo, keys)[i].Id() == repo[keys[i]].Id()
  {
    forall i, j | 0 <= i < j < |keys|
      ensures Candidates(curr, repo, keys)[i].Id() != Candidates(curr, repo, keys)[j].Id()
    {
      assert ConstructKey(repo[keys[i]].Id()) == keys[i] && ConstructKey(repo[keys[j]].Id()) == keys[j];
    }
  }

  lemma NotACandidate(curr: map<string, Policy>, repo: map<string, Policy>, keys: seq<string>, k: string)
    requires Keyed(repo) && Selection(curr, repo, keys) && k in repo && !Selected(curr, repo, k)
    ensures forall i :: 0 <= i < |keys| ==> Candidates(curr, repo, keys)[i].Id() != repo[k].Id()
  {
    forall i | 0 <= i < |keys|
      ensures Candidates(curr, repo, keys)[i].Id() != repo[k].Id()
    {
      assert ConstructKey(repo[keys[i]].Id()) == keys[i] && ConstructKey(repo[k].Id()) == k;
    }
  }

  /** After a synchronisation every repository policy has an equal row, in every database and even where
      keys collide: `Equal` compares the identities too. */
  lemma SyncConverges(rows: seq<Policy>, repo: map<string, Policy>, keys: seq<string>, stamps: nat -> Stamp, k: string)
    requires Keyed(repo) && Selection(Fetched(rows), repo, keys) && k in repo
    ensures exists r :: r in Synced(rows, repo, keys, stamps) && Equal(r, repo[k])
    ensures DistinctIds(rows) ==>
              var r := Find(Synced(rows, repo, keys, stamps), repo[k].Id());
              r.Some? && Equal(r.value, repo[k])
  {
    var curr := Fetched(rows);
    var ps, after := Candidates(curr, repo, keys), Synced(rows, repo, keys, stamps);
    if Selected(curr, repo, k) {
      var i :| 0 <= i < |keys| && keys[i] == k;
      CandidatesAreDistinct(curr, repo, keys);
      FindWritten(rows, ps, stamps, i);
      assert after[FindRow(after, repo[k].Id())] in after;
    } else {
      var c := curr[k];
      FetchedAreRows(rows);
      NotACandidate(curr, repo, keys, k);
      OtherRowsStay(rows, ps, stamps, c);
      if DistinctIds(rows) {
        FindIsTheRow(rows, c);
        FindUnwritten(rows, ps, stamps, c.Id());
      }
    }
  }

  /** Field by field: after a synchronisation some row has the repository's source, data, both configurations,
      schema, file name and identity, for every policy of the repository. */
  lemma SyncConvergesInFields(rows: seq<Policy>, repo: map<string, Policy>, keys: seq<string>, stamps: nat -> Stamp, k: string)
    returns (r: Policy)
    requires Keyed(repo) && Selection(Fetched(rows), repo, keys) && k in repo
    ensures r in Synced(rows, repo, keys, stamps)
    ensures DistinctIds(rows) ==> Find(Synced(rows, repo, keys, stamps), repo[k].Id()) == Some(r)
    ensures r.rego == repo[k].rego && r.data == repo[k].data && r.dataConfig == repo[k].dataConfig
    ensures r.outputSchema == repo[k].outputSchema && r.exportConfig == repo[k].exportConfig && r.filename == repo[k].filename
    ensures r.repository == repo[k].repository && r.group == repo[k].group
    ensures r.name == repo[k].name && r.version == repo[k].version
  {
    SyncConverges(rows, repo, keys, stamps, k);
    var after := Synced(rows, repo, keys, stamps);
    if DistinctIds(rows) {
      r := Find(after, repo[k].Id()).value;
      assert after[FindRow(after, repo[k].Id())] in after;
    } else {
      r :| r in after && Equal(r, repo[k]);
    }
  }

  /** What a selected policy's row is after the writes: the policy as the repository has it, with the lock of the
      row seen under its key, the time of the write, and a refresh due at once if it has a data configuration. */
  lemma SelectedRow(rows: seq<Policy>, repo: map<string, Policy>, keys: seq<string>, stamps: nat -> Stamp, i: nat)
    requires Keyed(repo) && Selection(Fetched(rows), repo, keys) && i < |keys|
    ensures
      var p, curr := repo[keys[i]], Fetched(rows);
      Find(Synced(rows, repo, keys, stamps), p.Id()) ==
      Some(p.(locked := if keys[i] in curr then curr[keys[i]].locked else p.locked,
              lastUpdate := stamps(i).updated,
              nextDataRefreshTime := if p.dataConfig == "" then 0 else stamps(i).refresh))
  {
    CandidatesAreDistinct(Fetched(rows), repo, keys);
    FindWritten(rows, Candidates(Fetched(rows), repo, keys), stamps, i);
  }

  /** Identities that no selected policy has keep what they had. */
  lemma OthersUntouched(rows: seq<Policy>, repo: map<string, Policy>, keys: seq<string>, stamps: nat -> Stamp, id: Identity)
    requires Keyed(repo) && Selection(Fetched(rows), repo, keys)
    requires !Selected(Fetched(rows), repo, ConstructKey(id)) || repo[ConstructKey(id)].Id() != id
    ensures Find(Synced(rows, repo, keys, stamps), id) == Find(rows, id)
  {
    var ps := Candidates(Fetched(rows), repo, keys);
    forall i | 0 <= i < |keys|
      ensures ps[i].Id() != id
    {
      assert ConstructKey(repo[keys[i]].Id()) == keys[i];
    }
    FindUnwritten(rows, ps, stamps, id);
  }

  // ------------------------------------------------------------------------
  // Locks and idempotence
  // ------------------------------------------------------------------------

  /** A synchronisation between policies whose keys tell them apart never changes the lock of a row, and
      leaves a row that is equal to its repository policy, or has none, wholly as it was. */
  lemma SyncKeepsLocks(rows: seq<Policy>, repo: map<string, Policy>, keys: seq<string>, stamps: nat -> Stamp,
                       ids: iset<Identity>, id: Identity)
    requires Keyed(repo) && Selection(Fetched(rows), repo, keys)
    requires DistinctIds(rows) && IdsIn(rows, ids) && InjectiveOn(ids)
    requires forall k :: k in repo ==> repo[k].Id() in ids
    requires Find(rows, id).Some?
    ensures
      var before, after := Find(rows, id).value, Find(Synced(rows, repo, keys, stamps), id);
      && after.Some? && after.value.locked == before.locked
      && (ConstructKey(id) !in repo || Equal(before, repo[ConstructKey(id)]) ==> after.value == before)
  {
    var curr, k := Fetched(rows), ConstructKey(id);
    assert rows[FindRow(rows, id)] in rows;
    FetchedIsFound(rows, ids, id);
    if Selected(curr, repo, k) {
      assert repo[k].Id() == id;
      var i :| 0 <= i < |keys| && keys[i] == k;
      CandidatesAreDistinct(curr, repo, keys);
      FindWritten(rows, Candidates(curr, repo, keys), stamps, i);
    } else {
      OthersUntouched(rows, repo, keys, stamps, id);
    }
  }

  /** Synchronising again finds nothing to do. */
  lemma SyncIsIdempotent(rows: seq<Policy>, repo: map<string, Policy>, keys: seq<string>, stamps: nat -> Stamp,
                         ids: iset<Identity>, k: string)
    requires Keyed(repo) && Selection(Fetched(rows), repo, keys)
    requires DistinctIds(rows) && IdsIn(rows, ids) && InjectiveOn(ids)
    requires forall q :: q in repo ==> repo[q].Id() in ids
    ensures !Selected(Fetched(Synced(rows, repo, keys, stamps)), repo, k)
  {
    if k in repo {
      var ps := Candidates(Fetched(rows), repo, keys);
      var after := Synced(rows, repo, keys, stamps);
      CandidatesAreDistinct(Fetched(rows), repo, keys);
      assert IdsIn(ps, ids);
      IdsStayDistinct(rows, ps, stamps, ids);
      SyncConverges(rows, repo, keys, stamps, k);
      FetchedIsFound(after, ids, repo[k].Id());
    }
  }

  // ------------------------------------------------------------------------
  // Why keys must tell identities apart
  // ------------------------------------------------------------------------

  /** The parameters of one synchronisation among given identities. */
  ghost predicate SyncAmong(rows: seq<Policy>, repo: map<string, Policy>, keys: seq<string>, ids: iset<Identity>) {
    && Keyed(repo) && Selection(Fetched(rows), repo, keys)
    && DistinctIds(rows) && IdsIn(rows, ids)
    && forall k :: k in repo ==> repo[k].Id() in ids
  }

  ghost predicate LocksSafe(ids: iset<Identity>) {
    forall rows, repo, keys, stamps, id :: SyncAmong(rows, repo, keys, ids) && Find(rows, id).Some? ==>
      Find(Synced(rows, repo, keys, stamps), id).Some? &&
      Find(Synced(rows, repo, keys, stamps), id).value.locked == Find(rows, id).value.locked
  }

  function Plain(id: Identity, locked: bool): Policy {
    Policy("", id.repository, id.name, id.group, id.version, "", "", "", "", "", locked, ZERO_TIME, ZERO_TIME)
  }

  /** Two identities with one key: the lock of the first spreads to the row of the second. */
  lemma CollisionSpreadsLock(a: Identity, b: Identity, ids: iset<Identity>, stamps: nat -> Stamp)
    requires a in ids && b in ids && a != b && ConstructKey(a) == ConstructKey(b)
    ensures
      var k := ConstructKey(b);
      var rows, repo := [Plain(b, false), Plain(a, true)], map[k := Plain(b, false)];
      && SyncAmong(rows, repo, [k], ids)
      && Find(rows, b) == Some(Plain(b, false))
      && Find(Synced(rows, repo, [k], stamps), b) == Some(Row(Plain(b, true), stamps(0)))
  {
    var k := ConstructKey(b);
    var rows, repo := [Plain(b, false), Plain(a, true)], map[k := Plain(b, false)];
    assert Plain(a, true).Id() == a && Plain(b, false).Id() == b && Plain(b, true).Id() == b;
    assert Front(rows) == [Plain(b, false)] && Last(rows) == Plain(a, true);
    var curr := Fetched(rows);
    assert curr[k] == Plain(a, true);
    assert !Equal(curr[k], repo[k]);
    assert [k][0] == k;
    FindRowIs(rows, b, 0);
    var ps := Candidates(curr, repo, [k]);
    assert ps[0] == Plain(b, true);
    FindWritten(rows, ps, stamps, 0);
  }

  /** Synchronisations among ids never change a lock exactly when the keys tell ids apart. */
  lemma LocksSafeIffInjective(ids: iset<Identity>)
    ensures LocksSafe(ids) <==> InjectiveOn(ids)
  {
    if InjectiveOn(ids) {
      forall rows, repo, keys, stamps, id | SyncAmong(rows, repo, keys, ids) && Find(rows, id).Some?
        ensures
          Find(Synced(rows, repo, keys, stamps), id).Some? &&
          Find(Synced(rows, repo, keys, stamps), id).value.locked == Find(rows, id).value.locked
      {
        SyncKeepsLocks(rows, repo, keys, stamps, ids, id);
      }
    } else {
      var a, b :| a in ids && b in ids && ConstructKey(a) == ConstructKey(b) && a != b;
      CollisionSpreadsLock(a, b, ids, (i: nat) => Stamp(ZERO_TIME, ZERO_TIME));
    }
  }

  ghost predicate Idempotent(ids: iset<Identity>) {
    forall rows, repo, keys, stamps, k :: SyncAmong(rows, repo, keys, ids) ==>
      !Selected(Fetched(Synced(rows, repo, keys, stamps)), repo, k)
  }

  /** After the same synchronisation the policy is selected again: the other row still hides its own. */
  lemma CollisionIsSelectedAgain(a: Identity, b: Identity, ids: iset<Identity>, stamps: nat -> Stamp)
    requires a in ids && b in ids && a != b && ConstructKey(a) == ConstructKey(b)
    ensures
      var k := ConstructKey(b);
      var rows, repo := [Plain(b, false), Plain(a, true)], map[k := Plain(b, false)];
      SyncAmong(rows, repo, [k], ids) && Selected(Fetched(Synced(rows, repo, [k], stamps)), repo, k)
  {
    var k := ConstructKey(b);
    var rows, repo := [Plain(b, false), Plain(a, true)], map[k := Plain(b, false)];
    CollisionSpreadsLock(a, b, ids, stamps);
    assert Plain(a, true).Id() == a && Plain(b, true).Id() == b;
    assert Front(rows) == [Plain(b, false)] && Fetched(rows)[k] == Plain(a, true);
    var ps := Candidates(Fetched(rows), repo, [k]);
    assert ps == [Plain(b, true)] && Front(ps) == [];
    FindRowIs(rows, b, 0);
    assert UpsertAll(rows, Front(ps), stamps) == rows && Last(ps) == Plain(b, true);
    var after := Synced(rows, repo, [k], stamps);
    assert after == UpsertOne(rows, Plain(b, true), stamps(0));
    assert after == [Row(Plain(b, true), stamps(0)), Plain(a, true)];
    assert Last(after) == Plain(a, true) && Fetched(after)[k] == Plain(a, true);
  }

  /** Synchronisations among ids settle at once exactly when the keys tell ids apart. */
  lemma IdempotentIffInjective(ids: iset<Identity>)
    ensures Idempotent(ids) <==> InjectiveOn(ids)
  {
    if InjectiveOn(ids) {
      forall rows, repo, keys, stamps, k | SyncAmong(rows, repo, keys, ids)
        ensures !Selected(Fetched(Synced(rows, repo, keys, stamps)), repo, k)
      {
        SyncIsIdempotent(rows, repo, keys, stamps, ids, k);
      }
    } else {
      var a, b :| a in ids && b in ids && ConstructKey(a) == ConstructKey(b) && a != b;
      CollisionIsSelectedAgain(a, b, ids, (i: nat) => Stamp(ZERO_TIME, ZERO_TIME));
    }
  }

  // ------------------------------------------------------------------------
  // Changes between reading the rows and writing them
  // ------------------------------------------------------------------------

  /** The writes of a synchronisation that has compared the rows it had seen, on the rows there are by then. */
  function Written(seen: seq<Policy>, rows: seq<Policy>, repo: map<string, Policy>, keys: seq<string>,
                   stamps: nat -> Stamp): seq<Policy>
    requires forall i :: 0 <= i < |keys| ==> keys[i] in repo
  {
    UpsertAll(rows, Candidates(Fetched(seen), repo, keys), stamps)
  }

  /** The lock that the comparison carries over. */
  function SeenLock(seen: seq<Policy>, repo: map<string, Policy>, id: Identity): bool
    requires ConstructKey(id) in repo
  {
    match Find(seen, id)
    case Some(r) => r.locked
    case None => repo[ConstructKey(id)].locked
  }

  /** What the writes leave under an identity: the comparison's policy with the lock that was seen, or what there
      was by then. */
  lemma WrittenRow(seen: seq<Policy>, rows: seq<Policy>, repo: map<string, Policy>, keys: seq<string>,
                   stamps: nat -> Stamp, ids: iset<Identity>, id: Identity)
    requires Keyed(repo) && Selection(Fetched(seen), repo, keys)
    requires DistinctIds(seen) && IdsIn(seen, ids) && InjectiveOn(ids) && id in ids
    requires forall k :: k in repo ==> repo[k].Id() in ids
    ensures
      var after, k := Find(Written(seen, rows, repo, keys, stamps), id), ConstructKey(id);
      if Selected(Fetched(seen), repo, k) then
        after.Some? && after.value.locked == SeenLock(seen, repo, id) && Equal(after.value, repo[k])
      else after == Find(rows, id)
  {
    var curr, k := Fetched(seen), ConstructKey(id);
    var ps := Candidates(curr, repo, keys);
    FetchedIsFound(seen, ids, id);
    CandidatesAreDistinct(curr, repo, keys);
    if Selected(curr, repo, k) {
      assert repo[k].Id() == id;
      var i :| 0 <= i < |keys| && keys[i] == k;
      FindWritten(rows, ps, stamps, i);
    } else {
      forall i | 0 <= i < |ps|
        ensures ps[i].Id() != id
      {
        assert ConstructKey(repo[keys[i]].Id()) == keys[i];
      }
      FindUnwritten(rows, ps, stamps, id);
    }
  }

  /** Whatever happened to the rows in between, the lock of a row survives the writes if and only if its policy
      was not selected, or the lock is the one that was seen. */
  lemma LockSurvivesIff(seen: seq<Policy>, rows: seq<Policy>, repo: map<string, Policy>, keys: seq<string>,
                        stamps: nat -> Stamp, ids: iset<Identity>, id: Identity)
    requires Keyed(repo) && Selection(Fetched(seen), repo, keys)
    requires DistinctIds(seen) && IdsIn(seen, ids) && InjectiveOn(ids) && id in ids
    requires forall k :: k in repo ==> repo[k].Id() in ids
    requires Find(rows, id).Some?
    ensures
      var after := Find(Written(seen, rows, repo, keys, stamps), id);
      && after.Some?
      && (after.value.locked == Find(rows, id).value.locked <==>
          !Selected(Fetched(seen), repo, ConstructKey(id)) || Find(rows, id).value.locked == SeenLock(seen, repo, id))
  {
    WrittenRow(seen, rows, repo, keys, stamps, ids, id);
  }

  /** So a lock that is set after the rows were read is lost when the policy was modified in the repository. */
  lemma LockBetweenIsLost(was: Policy, modified: Policy, stamps: nat -> Stamp)
    requires was.Id() == modified.Id() && !Equal(was, modified) && !was.locked
    ensures
      var k, id := ConstructKey(modified.Id()), modified.Id();
      var repo, rows := map[k := modified], [was.(locked := true)];
      && Keyed(repo) && Selection(Fetched([was]), repo, [k])
      && Find(rows, id) == Some(was.(locked := true))
      && Find(Written([was], rows, repo, [k], stamps), id).Some?
      && !Find(Written([was], rows, repo, [k], stamps), id).value.locked
  {
    var k, id := ConstructKey(modified.Id()), modified.Id();
    var repo, rows := map[k := modified], [was.(locked := true)];
    assert Front([was]) == [] && Last([was]) == was;
    assert Fetched([was]) == map[k := was];
    assert [k][0] == k;
    assert was.(locked := true).Id() == id;
    LockSurvivesIff([was], rows, repo, [k], stamps, iset{id}, id);
  }
}
