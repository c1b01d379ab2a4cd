/** Reading policies out of a cloned repository. */
module Clone {
  import opened Wrappers
  import opened Policies
  import opened Strings
  import opened Heap
  import Bundles
  import BundleResults
  import Lease = RefreshLease
  import Polling

  const SEPARATOR := '/'
  const GIT_SUFFIX := ".git"

  datatype Read = Contents(text: string) | NotExist | ReadError

  /** The cloned files by path. data.json is looked up below the folder of the executable, all other
      files below the working directory. */
  datatype Tree = Tree(working: string -> Read, executable: string -> Read)

  /** getRepoName. */
  function RepoName(url: string): string {
    Last(Split(TrimSuffix(url, GIT_SUFFIX), SEPARATOR))
  }

  predicate IsPolicyFile(path: string) {
    Last(Split(path, SEPARATOR)) == Bundles.REGO
  }

  /** The identity that the last folders of a path give. */
  function PathId(parts: seq<string>, repository: string): Identity
    requires |parts| >= 4
  {
    Identity(repository, parts[|parts| - 4], parts[|parts| - 3], parts[|parts| - 2])
  }

  /** A file next to the policy: absent is empty. */
  function Beside(read: string -> Read, path: string, name: string): Option<string> {
    match read(TrimSuffix(path, Bundles.REGO) + name)
    case Contents(text) => Some(text)
    case NotExist => Some("")
    case ReadError => None
  }

  function CreatePolicy(tree: Tree, path: string, repository: string): Result<Policy> {
    var parts := Split(path, SEPARATOR);
    if |parts| < 4 then Err(Failure)
    else
      var id := PathId(parts, repository);
      var rego := tree.working(path);
      var data := Beside(tree.executable, path, Bundles.DATA);
      var config := Beside(tree.working, path, Bundles.DATA_CONFIG);
      var schema := Beside(tree.working, path, Bundles.OUTPUT_SCHEMA);
      var exporting := Beside(tree.working, path, Bundles.EXPORT_CONFIG);
      if !rego.Contents? || data.None? || config.None? || schema.None? || exporting.None? then Err(Failure)
      else
        Ok(Policy(Bundles.PolicyFilename(id), id.repository, id.name, id.group, id.version,
                  rego.text, data.value, config.value, schema.value, exporting.value, false, ZERO_TIME, ZERO_TIME))
  }

  /** The policies of the first files of a walk, by key; None when one of them cannot be read. */
  function Walked(tree: Tree, paths: seq<string>, repository: string): Option<map<string, Policy>>
    decreases |paths|
  {
    if paths == [] then Some(map[])
    else
      var before, path := Walked(tree, Front(paths), repository), Last(paths);
      if before.None? || !IsPolicyFile(path) then before
      else
        match CreatePolicy(tree, path, repository)
        case Err(_) => None
        case Ok(p) => Some(before.value[ConstructKey(p.Id()) := p])
  }

  lemma {:induction false} FailedWalkFails(tree: Tree, paths: seq<string>, repository: string, i: nat)
    requires i <= |paths| && Walked(tree, paths[..i], repository).None?
    ensures Walked(tree, paths, repository).None?
    decreases |paths|
  {
    if i == |paths| {
      assert paths[..i] == paths;
    } else {
      assert Front(paths)[..i] == paths[..i];
      FailedWalkFails(tree, Front(paths), repository, i);
    }
  }

  lemma WalkedMore(tree: Tree, paths: seq<string>, i: nat, repository: string)
    requires i < |paths|
    ensures Walked(tree, paths[..i + 1], repository) ==
            var before := Walked(tree, paths[..i], repository);
            if before.None? || !IsPolicyFile(paths[i]) then before
            else
              match CreatePolicy(tree, paths[i], repository)
              case Err(_) => None
              case Ok(p) => Some(before.value[ConstructKey(p.Id()) := p])
  {
    assert Front(paths[..i + 1]) == paths[..i] && Last(paths[..i + 1]) == paths[i];
  }

  /** IterateRepo over the regular files in the order of the walk: one new object a policy file. */
  method IterateRepo(tree: Tree, paths: seq<string>, repository: string) returns (res: Result<map<string, PolicyObject>>)
    ensures res.Ok? <==> Walked(tree, paths, repository).Some?
    ensures res.Ok? ==> Values(res.value) == Walked(tree, paths, repository).value
    ensures res.Ok? ==> Separate(res.value) && Keyed(Values(res.value)) && fresh(res.value.Values)
  {
    var policies: map<string, PolicyObject> := map[];
    hide CreatePolicy, Walked, IsPolicyFile;
    WalkStarts(tree, repository);
    assert paths[..0] == [];
    for i := 0 to |paths|
      invariant Walked(tree, paths[..i], repository) == Some(Values(policies))
      invariant Separate(policies) && Keyed(Values(policies)) && fresh(policies.Values)
    {
      WalkedMore(tree, paths, i, repository);
      if IsPolicyFile(paths[i]) {
        var policy := CreatePolicy(tree, paths[i], repository);
        if policy.Err? {
          FailedWalkFails(tree, paths, repository, i + 1);
          return Err(Failure);
        }
        policies := Added(policies, policy.value);
      }
    }
    assert paths[..|paths|] == paths;
    return Ok(policies);
  }

  lemma WalkStarts(tree: Tree, repository: string)
    ensures Walked(tree, [], repository) == Some(map[])
  {
  }

  method Added(policies: map<string, PolicyObject>, p: Policy) returns (more: map<string, PolicyObject>)
    requires Separate(policies) && Keyed(Values(policies))
    ensures Values(more) == Values(policies)[ConstructKey(p.Id()) := p]
    ensures Separate(more) && Keyed(Values(more)) && fresh(more.Values - policies.Values)
  {
    var pointer := new PolicyObject(p);
    more := policies[ConstructKey(p.Id()) := pointer];
    assert forall o :: o in more.Values ==> o in policies.Values || o == pointer;
    assert Values(more) == Values(policies)[ConstructKey(p.Id()) := p];
    KeyedUpdate(Values(policies), ConstructKey(p.Id()), p);
  }

  // ------------------------------------------------------------------------
  // What paths determine
  // ------------------------------------------------------------------------

  lemma {:induction false} JoinOfConcat(a: seq<string>, b: seq<string>)
    requires |a| > 0 && |b| > 0
    ensures Join(a + b, SEPARATOR) == Join(a, SEPARATOR) + [SEPARATOR] + Join(b, SEPARATOR)
    decreases |a|
  {
    assert (a + b)[0] == a[0] && (a + b)[1..] == a[1..] + b;
    if |a| == 1 {
      assert a[1..] + b == b;
    } else {
      JoinOfConcat(a[1..], b);
    }
  }

  lemma FilenameIsJoin(id: Identity)
    ensures Bundles.PolicyFilename(id) == Join([id.group, id.name, id.version, Bundles.REGO], SEPARATOR)
  {
    var all := [id.group, id.name, id.version, Bundles.REGO];
    assert all[1..] == [id.name, id.version, Bundles.REGO];
    assert all[1..][1..] == [id.version, Bundles.REGO];
    assert all[1..][1..][1..] == [Bundles.REGO];
    assert Join([Bundles.REGO], SEPARATOR) == Bundles.REGO;
    assert Join([id.version, Bundles.REGO], SEPARATOR) == id.version + "/" + Bundles.REGO;
    assert Join([id.name, id.version, Bundles.REGO], SEPARATOR) == id.name + "/" + (id.version + "/" + Bundles.REGO);
    assert Join(all, SEPARATOR) == id.group + "/" + (id.name + "/" + (id.version + "/" + Bundles.REGO));
  }

  /** The file name of a policy is the end of its path, and the parts of its identity, as far as they come
      from the path, contain no slash. */
  lemma FilenameEndsPath(tree: Tree, path: string, repository: string)
    requires IsPolicyFile(path) && CreatePolicy(tree, path, repository).Ok?
    ensures
      var p := CreatePolicy(tree, path, repository).value;
      && HasSuffix(path, p.filename)
      && p.repository == repository && SEPARATOR !in p.group && SEPARATOR !in p.name && SEPARATOR !in p.version
  {
    var parts := Split(path, SEPARATOR);
    var n := |parts|;
    var id := PathId(parts, repository);
    JoinOfSplit(path, SEPARATOR);
    SplitPartsAreFree(path, SEPARATOR);
    FilenameIsJoin(id);
    assert parts[n - 4..] == [id.group, id.name, id.version, Bundles.REGO];
    if n > 4 {
      JoinOfConcat(parts[..n - 4], parts[n - 4..]);
      assert parts == parts[..n - 4] + parts[n - 4..];
    } else {
      assert parts == parts[n - 4..];
    }
  }

  /** The policy file of a group, name and version, in any folder, gives the policy of that identity. */
  lemma PathGivesIdentity(tree: Tree, folder: string, id: Identity)
    requires SEPARATOR !in id.group && SEPARATOR !in id.name && SEPARATOR !in id.version
    requires CreatePolicy(tree, folder + "/" + Bundles.PolicyFilename(id), id.repository).Ok?
    ensures IsPolicyFile(folder + "/" + Bundles.PolicyFilename(id))
    ensures CreatePolicy(tree, folder + "/" + Bundles.PolicyFilename(id), id.repository).value.Id() == id
  {
    var tail := [id.group, id.name, id.version, Bundles.REGO];
    FilenameIsJoin(id);
    assert AllFree(tail, SEPARATOR);
    SplitOfJoin(tail, SEPARATOR);
    SplitOfConcat(folder, Bundles.PolicyFilename(id), SEPARATOR);
  }

  /** The repository name is the last segment of the clone URL, with or without the suffix, and has no slash. */
  lemma RepoNameOfURL(folder: string, name: string)
    requires '/' !in name && !HasSuffix(folder + "/" + name, ".git")
    ensures RepoName(folder + "/" + name + ".git") == name
    ensures RepoName(folder + "/" + name) == name
  {
    var url := folder + "/" + name;
    assert (url + GIT_SUFFIX)[|url|..] == GIT_SUFFIX && (url + GIT_SUFFIX)[..|url|] == url;
    SplitOfConcat(folder, name, SEPARATOR);
    SplitOfFree(name, SEPARATOR);
  }

  lemma RepoNameHasNoSlash(url: string)
    ensures SEPARATOR !in RepoName(url)
  {
    SplitPartsAreFree(TrimSuffix(url, GIT_SUFFIX), SEPARATOR);
  }

  /** Of several files with one key, the last of the walk stays; every policy file leaves its key. */
  lemma {:induction false} LastFileStays(tree: Tree, paths: seq<string>, repository: string, i: nat)
    requires Walked(tree, paths, repository).Some? && i < |paths| && IsPolicyFile(paths[i])
    ensures CreatePolicy(tree, paths[i], repository).Ok?
    ensures
      var p := CreatePolicy(tree, paths[i], repository).value;
      var key, policies := ConstructKey(p.Id()), Walked(tree, paths, repository).value;
      && key in policies
      && ((forall j :: i < j < |paths| && IsPolicyFile(paths[j]) && CreatePolicy(tree, paths[j], repository).Ok? ==>
             ConstructKey(CreatePolicy(tree, paths[j], repository).value.Id()) != key) ==> policies[key] == p)
    decreases |paths|
  {
    hide CreatePolicy, IsPolicyFile;
    if i < |paths| - 1 {
      LastFileStays(tree, Front(paths), repository, i);
      assert forall j :: 0 <= j < |paths| - 1 ==> Front(paths)[j] == paths[j];
      assert paths[|paths| - 1] == Last(paths);
    }
  }

  /** No policy of a repository has a refresh schedule, so where the storage is filled from one nothing is ever
      claimed for a refresh. */
  lemma {:induction false} WalkedIsUnscheduled(tree: Tree, paths: seq<string>, repository: string)
    requires Walked(tree, paths, repository).Some?
    ensures forall k :: k in Walked(tree, paths, repository).value ==>
              Walked(tree, paths, repository).value[k].nextDataRefreshTime == ZERO_TIME
    decreases |paths|
  {
    if paths != [] {
      WalkedIsUnscheduled(tree, Front(paths), repository);
    }
  }

  lemma RepositoryIsNeverRefreshed(tree: Tree, paths: seq<string>, repository: string,
                                   env: Lease.RefreshEnv, now: Time, steps: seq<Lease.Step>)
    requires Walked(tree, paths, repository).Some?
    requires
      var store := Walked(tree, paths, repository).value;
      Lease.Legal(env, Lease.State(Polling.Times(store), Polling.Configs(store), now, map[], map[]), steps)
    ensures forall step :: step in steps ==> step.Import?
  {
    var store := Walked(tree, paths, repository).value;
    WalkedIsUnscheduled(tree, paths, repository);
    Lease.UnscheduledStaysSo(env, Lease.State(Polling.Times(store), Polling.Configs(store), now, map[], map[]), steps);
  }

  /** A policy as it comes from a repository, with no optional file that is blank but not empty, is what
      exporting and importing it gives back. */
  lemma RepositoryPolicyIsNormalized(tree: Tree, path: string, repository: string)
    requires CreatePolicy(tree, path, repository).Ok?
    ensures
      var p := CreatePolicy(tree, path, repository).value;
      BundleResults.Normalized(p) == p <==>
      && (Bundles.Blank(p.data) ==> p.data == "") && (Bundles.Blank(p.dataConfig) ==> p.dataConfig == "")
      && (Bundles.Blank(p.outputSchema) ==> p.outputSchema == "") && (Bundles.Blank(p.exportConfig) ==> p.exportConfig == "")
  {
    var p := CreatePolicy(tree, path, repository).value;
    assert p.Id() == PathId(Split(path, SEPARATOR), repository);
    hide Bundles.Blank;
  }

  // ------------------------------------------------------------------------
  // What a policy file becomes, file by file
  // ------------------------------------------------------------------------

  lemma PolicyFileEnds(path: string)
    requires IsPolicyFile(path) && path != "policy.rego"
    ensures exists folder :: path == folder + "/" + "policy.rego"
  {
    var parts := Split(path, SEPARATOR);
    JoinOfSplit(path, SEPARATOR);
    assert parts == Front(parts) + [Last(parts)];
    assert Join([Last(parts)], SEPARATOR) == Last(parts);
    if |parts| > 1 {
      JoinOfConcat(Front(parts), [Last(parts)]);
      assert path == Join(Front(parts), SEPARATOR) + "/" + "policy.rego";
    }
  }

  /** A policy file is one of that name, in the top folder or in any other. */
  lemma PolicyFileIff(path: string)
    ensures IsPolicyFile(path) <==> path == "policy.rego" || exists folder :: path == folder + "/" + "policy.rego"
  {
    if IsPolicyFile(path) && path != "policy.rego" {
      PolicyFileEnds(path);
    }
    SplitOfFree("policy.rego", SEPARATOR);
    hide Split, Join;
    forall folder | path == folder + "/" + "policy.rego"
      ensures IsPolicyFile(path)
    {
      SplitOfConcat(folder, "policy.rego", SEPARATOR);
    }
  }

  /** A file that is not there is empty. */
  function TextOf(r: Read): string {
    match r
    case Contents(text) => text
    case _ => ""
  }

  /** The files of a policy in a folder: its source, and beside it the data below the folder of the executable
      and the other files below the working directory. The walk fails exactly on a path that is too short, an
      unreadable source, or another file that is there and unreadable. */
  lemma CreatedFromFiles(tree: Tree, folder: string, repository: string)
    ensures
      var path := folder + "/policy.rego";
      var data, config := tree.executable(folder + "/data.json"), tree.working(folder + "/data-config.json");
      var schema, exporting := tree.working(folder + "/output-schema.json"), tree.working(folder + "/export-config.json");
      var res := CreatePolicy(tree, path, repository);
      && (res.Ok? <==>
            && |Split(path, '/')| >= 4 && tree.working(path).Contents?
            && !data.ReadError? && !config.ReadError? && !schema.ReadError? && !exporting.ReadError?)
      && (res.Ok? ==>
            && res.value.rego == tree.working(path).text && res.value.data == TextOf(data)
            && res.value.dataConfig == TextOf(config) && res.value.outputSchema == TextOf(schema)
            && res.value.exportConfig == TextOf(exporting) && !res.value.locked
            && res.value.lastUpdate == 0 && res.value.nextDataRefreshTime == 0)
  {
    var path := folder + "/policy.rego";
    assert path == folder + "/" + Bundles.REGO;
    TrimSuffixIs(folder + "/", Bundles.REGO);
    assert path == (folder + "/") + Bundles.REGO;
    assert folder + "/" + Bundles.DATA == folder + "/data.json";
    assert folder + "/" + Bundles.DATA_CONFIG == folder + "/data-config.json";
    assert folder + "/" + Bundles.OUTPUT_SCHEMA == folder + "/output-schema.json";
    assert folder + "/" + Bundles.EXPORT_CONFIG == folder + "/export-config.json";
    hide TrimSuffix, Split;
  }

  /** Nothing is in the result of a walk but the policies of its files. */
  lemma {:induction false} WalkedOnlyFiles(tree: Tree, paths: seq<string>, repository: string, k: string)
    requires Walked(tree, paths, repository).Some? && k in Walked(tree, paths, repository).value
    ensures exists i :: 0 <= i < |paths| && IsPolicyFile(paths[i]) &&
              CreatePolicy(tree, paths[i], repository) == Ok(Walked(tree, paths, repository).value[k]) &&
              ConstructKey(Walked(tree, paths, repository).value[k].Id()) == k
    decreases |paths|
  {
    hide CreatePolicy, IsPolicyFile;
    var before := Walked(tree, Front(paths), repository).value;
    var p := Walked(tree, paths, repository).value[k];
    if k in before && before[k] == p {
      WalkedOnlyFiles(tree, Front(paths), repository, k);
      var i :| 0 <= i < |Front(paths)| && IsPolicyFile(Front(paths)[i]) &&
               CreatePolicy(tree, Front(paths)[i], repository) == Ok(p) && ConstructKey(p.Id()) == k;
      assert paths[i] == Front(paths)[i];
    } else {
      assert Last(paths) == paths[|paths| - 1];
    }
  }

  /** A walk fails exactly when one of its policy files does not become a policy. */
  lemma {:induction false} WalkFailsIff(tree: Tree, paths: seq<string>, repository: string)
    ensures Walked(tree, paths, repository).None? <==>
            exists i :: 0 <= i < |paths| && IsPolicyFile(paths[i]) && CreatePolicy(tree, paths[i], repository).Err?
    decreases |paths|
  {
    hide CreatePolicy, IsPolicyFile;
    if paths != [] {
      WalkFailsIff(tree, Front(paths), repository);
      assert forall i :: 0 <= i < |paths| - 1 ==> Front(paths)[i] == paths[i];
      assert Last(paths) == paths[|paths| - 1];
    }
  }
}
