/** The stored policy, its four-part identity and the two keys built from that identity. */
module Policies {
  import opened Strings

  /** Nanoseconds; the zero time of Go is 0. */
  type Time = int
  const ZERO_TIME: Time := 0

  datatype Identity = Identity(repository: string, group: string, name: string, version: string)

  datatype Policy = Policy(
    filename: string,
    repository: string,
    name: string,
    group: string,
    version: string,
    rego: string,
    data: string,
    dataConfig: string,
    outputSchema: string,
    exportConfig: string,
    locked: bool,
    lastUpdate: Time,
    nextDataRefreshTime: Time)
  {
    function Id(): Identity {
      Identity(repository, group, name, version)
    }

    /** Equal in every field but the refresh schedule, the one field evaluation never reads. */
    predicate Agrees(other: Policy) {
      this.(nextDataRefreshTime := ZERO_TIME) == other.(nextDataRefreshTime := ZERO_TIME)
    }
  }

  function Key(id: Identity, sep: char): string {
    id.repository + [sep] + id.group + [sep] + id.name + [sep] + id.version
  }

  /** Key of the policy maps. */
  function ConstructKey(id: Identity): string {
    Key(id, '.')
  }

  /** Key of the rego cache. */
  function QueryCacheKey(id: Identity): string {
    Key(id, ',')
  }

  /** The first three parts do not contain the separator; the version may. */
  predicate SeparatorFree(id: Identity, sep: char) {
    sep !in id.repository && sep !in id.group && sep !in id.name
  }

  lemma KeyInjective(a: Identity, b: Identity, sep: char)
    requires SeparatorFree(a, sep) && SeparatorFree(b, sep)
    requires Key(a, sep) == Key(b, sep)
    ensures a == b
  {
    var restA, restB := a.group + [sep] + a.name + [sep] + a.version, b.group + [sep] + b.name + [sep] + b.version;
    assert Key(a, sep) == a.repository + [sep] + restA && Key(b, sep) == b.repository + [sep] + restB;
    CutAtFirst(a.repository, restA, b.repository, restB, sep);
    var tailA, tailB := a.name + [sep] + a.version, b.name + [sep] + b.version;
    assert restA == a.group + [sep] + tailA && restB == b.group + [sep] + tailB;
    CutAtFirst(a.group, tailA, b.group, tailB, sep);
    CutAtFirst(a.name, a.version, b.name, b.version, sep);
  }

  lemma KeyParts(id: Identity, sep: char)
    ensures Split(Key(id, sep), sep) ==
            Split(id.repository, sep) + Split(id.group, sep) + Split(id.name, sep) + Split(id.version, sep)
  {
    var tail := id.name + [sep] + id.version;
    var rest := id.group + [sep] + tail;
    assert Key(id, sep) == id.repository + [sep] + rest;
    SplitOfConcat(id.repository, rest, sep);
    SplitOfConcat(id.group, tail, sep);
    SplitOfConcat(id.name, id.version, sep);
  }

  /** A separator inside one part may as well be the boundary to the next one: two different identities share
      a key at each of the three boundaries, for all parts. */
  lemma KeyCollides(a: string, b: string, c: string, d: string, e: string, sep: char)
    ensures Key(Identity(a + [sep] + b, c, d, e), sep) == Key(Identity(a, b + [sep] + c, d, e), sep)
    ensures Key(Identity(a, b + [sep] + c, d, e), sep) == Key(Identity(a, b, c + [sep] + d, e), sep)
    ensures Key(Identity(a, b, c + [sep] + d, e), sep) == Key(Identity(a, b, c, d + [sep] + e), sep)
    ensures |a| < |a + [sep] + b| && |b| < |b + [sep] + c| && |c| < |c + [sep] + d|
  {
    var key := a + [sep] + b + [sep] + c + [sep] + d + [sep] + e;
    assert Key(Identity(a + [sep] + b, c, d, e), sep) == key;
    assert Key(Identity(a, b + [sep] + c, d, e), sep) == key;
    assert Key(Identity(a, b, c + [sep] + d, e), sep) == key;
    assert Key(Identity(a, b, c, d + [sep] + e), sep) == key;
  }

  /** Another identity has the key as well. */
  ghost predicate Ambiguous(id: Identity, sep: char) {
    exists other :: other != id && Key(other, sep) == Key(id, sep)
  }

  /** An identity has its key to itself exactly when none of its four parts contains the separator. */
  lemma AmbiguousIffSeparatorInside(id: Identity, sep: char)
    ensures Ambiguous(id, sep) <==> !SeparatorFree(id, sep) || sep in id.version
  {
    if SeparatorFree(id, sep) && sep !in id.version {
      forall other | Key(other, sep) == Key(id, sep)
        ensures other == id
      {
        SplitOfFree(id.repository, sep);
        SplitOfFree(id.group, sep);
        SplitOfFree(id.name, sep);
        SplitOfFree(id.version, sep);
        KeyParts(id, sep);
        KeyParts(other, sep);
        OnePartIsFree(other.repository, sep);
        OnePartIsFree(other.group, sep);
        OnePartIsFree(other.name, sep);
        KeyInjective(other, id, sep);
      }
    } else if sep in id.repository {
      var x, y := Cut(id.repository, sep);
      KeyCollides(x, y, id.group, id.name, id.version, sep);
      var other := Identity(x, y + [sep] + id.group, id.name, id.version);
      assert other != id && Key(other, sep) == Key(id, sep);
    } else if sep in id.group {
      var x, y := Cut(id.group, sep);
      KeyCollides(id.repository, x, y, id.name, id.version, sep);
      var other := Identity(id.repository, x, y + [sep] + id.name, id.version);
      assert other != id && Key(other, sep) == Key(id, sep);
    } else if sep in id.name {
      var x, y := Cut(id.name, sep);
      KeyCollides(id.repository, id.group, x, y, id.version, sep);
      var other := Identity(id.repository, id.group, x, y + [sep] + id.version);
      assert other != id && Key(other, sep) == Key(id, sep);
    } else {
      var x, y := Cut(id.version, sep);
      KeyCollides(id.repository, id.group, id.name, x, y, sep);
      var other := Identity(id.repository, id.group, id.name + [sep] + x, y);
      assert other != id && Key(other, sep) == Key(id, sep);
    }
  }

  lemma Cut(s: string, sep: char) returns (x: string, y: string)
    requires sep in s
    ensures s == x + [sep] + y
  {
    var i :| 0 <= i < |s| && s[i] == sep;
    x, y := s[..i], s[i + 1..];
  }

  lemma OnePartIsFree(s: string, sep: char)
    requires |Split(s, sep)| == 1
    ensures sep !in s
  {
    JoinOfSplit(s, sep);
    SplitPartsAreFree(s, sep);
  }

  /** Every policy of the map sits under the key of its identity. */
  ghost predicate Keyed(store: map<string, Policy>) {
    forall k :: k in store ==> ConstructKey(store[k].Id()) == k
  }
}
