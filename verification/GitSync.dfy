/** Synchronising the policy database with a policy repository. */
module GitSync {
  import opened Wrappers
  import opened Policies
  import opened Strings
  import opened Heap

  // ------------------------------------------------------------------------
  // Comparing
  // ------------------------------------------------------------------------

  /** Equal in everything a repository determines. */
  predicate Equal(p: Policy, q: Policy) {
    && p.rego == q.rego && p.data == q.data && p.dataConfig == q.dataConfig
    && p.outputSchema == q.outputSchema && p.exportConfig == q.exportConfig
    && p.repository == q.repository && p.name == q.name && p.version == q.version
    && p.filename == q.filename && p.group == q.group
  }

  /** They differ in one of the ten fields that a repository determines. */
  predicate Differs(p: Policy, q: Policy) {
    || p.rego != q.rego || p.data != q.data || p.dataConfig != q.dataConfig
    || p.outputSchema != q.outputSchema || p.exportConfig != q.exportConfig || p.filename != q.filename
    || p.repository != q.repository || p.group != q.group || p.name != q.name || p.version != q.version
  }

  /** The rows by key; of rows that share a key the last one is seen. */
  function Fetched(rows: seq<Policy>): map<string, Policy>
    decreases |rows|
  {
    if rows == [] then map[] else Fetched(Front(rows))[ConstructKey(Last(rows).Id()) := Last(rows)]
  }

  /** The repository policy under k is new or modified. */
  predicate Selected(curr: map<string, Policy>, repo: map<string, Policy>, k: string) {
    k in repo && (k in curr ==> !Equal(curr[k], repo[k]))
  }

  /** What is written for it: the repository's policy with the lock of the row seen under its key. */
  function Candidate(curr: map<string, Policy>, repo: map<string, Policy>, k: string): Policy
    requires k in repo
  {
    if k in curr then repo[k].(locked := curr[k].locked) else repo[k]
  }

  /** The keys of all selected policies, each once, in some order. */
  ghost predicate Selection(curr: map<string, Policy>, repo: map<string, Policy>, keys: seq<string>) {
    && (forall i :: 0 <= i < |keys| ==> Selected(curr, repo, keys[i]))
    && (forall i, j :: 0 <= i < j < |keys| ==> keys[i] != keys[j])
    && (forall k :: Selected(curr, repo, k) ==> k in keys)
  }

  function Candidates(curr: map<string, Policy>, repo: map<string, Policy>, keys: seq<string>): (ps: seq<Policy>)
    requires forall i :: 0 <= i < |keys| ==> keys[i] in repo
    ensures |ps| == |keys|
  {
    seq(|keys|, i requires 0 <= i < |keys| => Candidate(curr, repo, keys[i]))
  }

  // ------------------------------------------------------------------------
  // Writing
  // ------------------------------------------------------------------------

  /** The clock readings one write takes, as the database keeps them. */
  datatype Stamp = Stamp(updated: Time, refresh: Time)

  function NextDataRefreshTime(p: Policy, now: Time): Time {
    if p.dataConfig != "" then now else ZERO_TIME
  }

  function Row(p: Policy, s: Stamp): Policy {
    p.(lastUpdate := s.updated, nextDataRefreshTime := NextDataRefreshTime(p, s.refresh))
  }

  /** The first row of an identity, or the number of rows. */
  function FindRow(rows: seq<Policy>, id: Identity): (i: nat)
    ensures i <= |rows|
    ensures i < |rows| ==> rows[i].Id() == id
    ensures forall j :: 0 <= j < i ==> rows[j].Id() != id
  {
    if rows == [] || rows[0].Id() == id then 0 else 1 + FindRow(rows[1..], id)
  }

  function Find(rows: seq<Policy>, id: Identity): Option<Policy> {
    if FindRow(rows, id) < |rows| then Some(rows[FindRow(rows, id)]) else None
  }

  /** Update the first row that matches all four fields, or insert one. */
  function UpsertOne(rows: seq<Policy>, p: Policy, s: Stamp): seq<Policy> {
    var i := FindRow(rows, p.Id());
    if i < |rows| then rows[i := Row(p, s)] else rows + [Row(p, s)]
  }

  function UpsertAll(rows: seq<Policy>, ps: seq<Policy>, stamps: nat -> Stamp): seq<Policy>
    decreases |ps|
  {
    if ps == [] then rows else UpsertOne(UpsertAll(rows, Front(ps), stamps), Last(ps), stamps(|ps| - 1))
  }

  /** One synchronisation, the selected policies being written in the order of keys. */
  function Synced(rows: seq<Policy>, repo: map<string, Policy>, keys: seq<string>, stamps: nat -> Stamp): seq<Policy>
    requires forall i :: 0 <= i < |keys| ==> keys[i] in repo
  {
    UpsertAll(rows, Candidates(Fetched(rows), repo, keys), stamps)
  }

  // ------------------------------------------------------------------------
  // The loops
  // ------------------------------------------------------------------------

  class Collection {
    var rows: seq<Policy>

    constructor (rows: seq<Policy>)
      ensures this.rows == rows
    {
      this.rows := rows;
    }

    method FetchCurrPolicies() returns (curr: map<string, Policy>)
      ensures curr == Fetched(rows)
    {
      curr := map[];
      for i := 0 to |rows|
        invariant curr == Fetched(rows[..i])
      {
        var p := rows[i];
        assert Front(rows[..i + 1]) == rows[..i] && Last(rows[..i + 1]) == p;
        curr := curr[ConstructKey(p.Id()) := p];
      }
      assert rows[..|rows|] == rows;
    }

    method Upsert(policies: seq<Policy>, stamps: nat -> Stamp)
      modifies this
      ensures rows == UpsertAll(old(rows), policies, stamps)
    {
      for i := 0 to |policies|
        invariant rows == UpsertAll(old(rows), policies[..i], stamps)
      {
        assert Front(policies[..i + 1]) == policies[..i] && Last(policies[..i + 1]) == policies[i];
        rows := UpsertOne(rows, policies[i], stamps(i));
      }
      assert policies[..|policies|] == policies;
    }

    /** One synchronisation. The repository walk made one object a file, so no two keys share one. */
    method UpsertPolicies(repo: map<string, PolicyObject>, stamps: nat -> Stamp) returns (ghost keys: seq<string>)
      requires Separate(repo)
      modifies this, repo.Values
      ensures Selection(Fetched(old(rows)), old(Values(repo)), keys)
      ensures rows == Synced(old(rows), old(Values(repo)), keys, stamps)
    {
      var curr := FetchCurrPolicies();
      var forUpsert, ks := Compare(curr, repo);
      keys := ks;
      if |forUpsert| > 0 {
        Upsert(forUpsert, stamps);
      }
    }
  }

  /** The repository's policies after a comparison of all but those under todo. */
  function Compared(curr: map<string, Policy>, repo: map<string, Policy>, todo: set<string>): map<string, Policy> {
    map k | k in repo :: if k !in todo && Selected(curr, repo, k) then Candidate(curr, repo, k) else repo[k]
  }

  /** One policy of a comparison. The lock of a modified one is taken from its row, by a write into the
      repository's own object. */
  method CompareOne(curr: map<string, Policy>, repo: map<string, PolicyObject>, k: string) returns (picked: Option<Policy>)
    requires Separate(repo) && k in repo
    modifies repo[k]
    ensures picked == if Selected(curr, old(Values(repo)), k) then Some(Candidate(curr, old(Values(repo)), k)) else None
    ensures Values(repo) == old(Values(repo))[k := if picked.Some? then picked.value else old(repo[k].fields)]
  {
    ghost var was := Values(repo);
    var rPolicy := repo[k];
    if k !in curr {
      assert Values(repo) == was[k := rPolicy.fields];
      return Some(rPolicy.fields);
    }
    if Equal(curr[k], rPolicy.fields) {
      assert Values(repo) == was[k := rPolicy.fields];
      return None;
    }
    rPolicy.fields := rPolicy.fields.(locked := curr[k].locked);
    assert forall q :: q in repo && q != k ==> repo[q].fields == was[q];
    assert Values(repo) == was[k := rPolicy.fields];
    return Some(rPolicy.fields);
  }

  /** Selects the new and modified policies. */
  method Compare(curr: map<string, Policy>, repo: map<string, PolicyObject>)
    returns (forUpsert: seq<Policy>, ghost keys: seq<string>)
    requires Separate(repo)
    modifies repo.Values
    ensures Selection(curr, old(Values(repo)), keys)
    ensures forUpsert == Candidates(curr, old(Values(repo)), keys)
    ensures Values(repo) == Compared(curr, old(Values(repo)), {})
    ensures forall k :: k in keys <==> k in repo && (k in curr ==> Differs(curr[k], old(repo[k].fields)))
  {
    ghost var was := Values(repo);
    var todo := repo.Keys;
    forUpsert, keys := [], [];
    assert Picked(curr, was, todo, keys) && forUpsert == Candidates(curr, was, keys);
    assert was == Compared(curr, was, todo);
    while todo != {}
      invariant todo <= repo.Keys && Values(repo) == Compared(curr, was, todo)
      invariant Picked(curr, was, todo, keys)
      invariant forall i :: 0 <= i < |keys| ==> keys[i] in was
      invariant forUpsert == Candidates(curr, was, keys)
      decreases todo
    {
      var k :| k in todo;
      assert k in Values(repo) && Values(repo).Keys == repo.Keys && Values(repo)[k] == repo[k].fields;
      CompareMore(curr, was, todo, keys, k);
      hide Candidates, Candidate, Picked, Selected, Compared, Separate, Values;
      var picked := CompareOne(curr, repo, k);
      if picked.Some? {
        forUpsert, keys := forUpsert + [picked.value], keys + [k];
      }
      todo := todo - {k};
    }
    AllPicked(curr, was, keys);
    forall k
      ensures k in keys <==> k in repo && (k in curr ==> Differs(curr[k], was[k]))
    {
      SelectedIffDiffers(curr, was, k);
      assert k in keys <==> Selected(curr, was, k);
    }
  }

  /** A policy is selected exactly when its key is new or one of the ten fields differs. */
  lemma SelectedIffDiffers(curr: map<string, Policy>, repo: map<string, Policy>, k: string)
    ensures Selected(curr, repo, k) <==> k in repo && (k in curr ==> Differs(curr[k], repo[k]))
  {
  }

  ghost predicate Picked(curr: map<string, Policy>, repo: map<string, Policy>, todo: set<string>, keys: seq<string>) {
    && (forall i :: 0 <= i < |keys| ==> Selected(curr, repo, keys[i]) && keys[i] !in todo)
    && (forall i, j :: 0 <= i < j < |keys| ==> keys[i] != keys[j])
    && (forall k :: Selected(curr, repo, k) && k !in todo ==> k in keys)
  }

  /** One more policy compared: what happens to it depends on the policy under its key only. */
  lemma CompareMore(curr: map<string, Policy>, was: map<string, Policy>, todo: set<string>, keys: seq<string>, k: string)
    requires Picked(curr, was, todo, keys) && k in todo && k in was
    ensures forall i :: 0 <= i < |keys| ==> keys[i] in was
    ensures
      var now := Compared(curr, was, todo);
      && k in now && now[k] == was[k]
      && Selected(curr, now, k) == Selected(curr, was, k) && Candidate(curr, now, k) == Candidate(curr, was, k)
      && Compared(curr, was, todo - {k}) ==
         now[k := if Selected(curr, was, k) then Candidate(curr, was, k) else was[k]]
    ensures Selected(curr, was, k) ==>
              && Picked(curr, was, todo - {k}, keys + [k])
              && Candidates(curr, was, keys + [k]) == Candidates(curr, was, keys) + [Candidate(curr, was, k)]
    ensures !Selected(curr, was, k) ==> Picked(curr, was, todo - {k}, keys)
  {
    assert forall q :: q in keys ==> q in keys + [k];
    assert k in keys + [k];
  }

  lemma AllPicked(curr: map<string, Policy>, repo: map<string, Policy>, keys: seq<string>)
    requires Picked(curr, repo, {}, keys)
    ensures Selection(curr, repo, keys)
  {
  }
}
