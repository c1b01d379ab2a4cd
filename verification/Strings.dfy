/** Splitting, joining and trimming, as the Go strings package does for a one-element separator. */
module Strings {

  function Front<T>(xs: seq<T>): seq<T>
    requires xs != []
  {
    xs[..|xs| - 1]
  }

  function Last<T>(xs: seq<T>): T
    requires xs != []
  {
    xs[|xs| - 1]
  }

  /** strings.Split: always at least one part, and empty parts are kept. */
  function Split<T(==)>(s: seq<T>, sep: T): (parts: seq<seq<T>>)
    ensures |parts| > 0
  {
    if s == [] then [[]] else Prepend(s[0], Split(s[1..], sep), sep)
  }

  /** The parts of [x] + s, given the parts of s. */
  function Prepend<T(==)>(x: T, parts: seq<seq<T>>, sep: T): (r: seq<seq<T>>)
    requires |parts| > 0
    ensures |r| > 0
  {
    if x == sep then [[]] + parts else [[x] + parts[0]] + parts[1..]
  }

  /** strings.Join. */
  function Join<T>(parts: seq<seq<T>>, sep: T): seq<T>
    requires |parts| > 0
  {
    if |parts| == 1 then parts[0] else parts[0] + [sep] + Join(parts[1..], sep)
  }

  predicate AllFree<T(==)>(parts: seq<seq<T>>, sep: T) {
    forall i :: 0 <= i < |parts| ==> sep !in parts[i]
  }

  predicate HasSuffix<T(==)>(s: seq<T>, suffix: seq<T>) {
    |suffix| <= |s| && s[|s| - |suffix|..] == suffix
  }

  /** strings.TrimSuffix. */
  function TrimSuffix<T(==)>(s: seq<T>, suffix: seq<T>): seq<T> {
    if HasSuffix(s, suffix) then s[..|s| - |suffix|] else s
  }

  /** The part before the first occurrence of an element, as strings.Cut gives it. */
  function Before<T(==)>(s: seq<T>, x: T): (r: seq<T>)
    ensures r <= s
    ensures r == s <==> x !in s
  {
    if s == [] || s[0] == x then []
    else
      assert s == [s[0]] + s[1..];
      [s[0]] + Before(s[1..], x)
  }

  function TrimLeft<T(==)>(s: seq<T>, cut: T): seq<T> {
    if s != [] && s[0] == cut then TrimLeft(s[1..], cut) else s
  }

  function TrimRight<T(==)>(s: seq<T>, cut: T): seq<T> {
    if s != [] && s[|s| - 1] == cut then TrimRight(s[..|s| - 1], cut) else s
  }

  /** strings.Trim with a one-element cutset. */
  function Trim<T(==)>(s: seq<T>, cut: T): seq<T> {
    TrimRight(TrimLeft(s, cut), cut)
  }

  /** A sequence that neither starts nor ends with the cut element is left alone. */
  lemma TrimIsIdentity<T>(s: seq<T>, cut: T)
    requires s != [] ==> s[0] != cut && s[|s| - 1] != cut
    ensures Trim(s, cut) == s
  {
  }

  lemma FirstCutNotLater<T>(a: seq<T>, x: seq<T>, b: seq<T>, y: seq<T>, sep: T)
    requires sep !in a
    requires a + [sep] + x == b + [sep] + y
    ensures |a| <= |b|
  {
    assert (b + [sep] + y)[|b|] == sep;
  }

  /** The first separator of a + [sep] + x is the one written, when a is free of it. */
  lemma CutAtFirst<T>(a: seq<T>, x: seq<T>, b: seq<T>, y: seq<T>, sep: T)
    requires sep !in a && sep !in b
    requires a + [sep] + x == b + [sep] + y
    ensures a == b && x == y
  {
    FirstCutNotLater(a, x, b, y, sep);
    FirstCutNotLater(b, y, a, x, sep);
    var s, t := a + [sep] + x, b + [sep] + y;
    assert a == s[..|a|] && b == t[..|b|];
    assert x == s[|a| + 1..] && y == t[|b| + 1..];
  }

  lemma {:induction false} SplitOfFree<T>(s: seq<T>, sep: T)
    requires sep !in s
    ensures Split(s, sep) == [s]
  {
    if s != [] {
      SplitOfFree(s[1..], sep);
      assert s == [s[0]] + s[1..];
    }
  }

  lemma PrependOfConcat<T>(x: T, parts: seq<seq<T>>, more: seq<seq<T>>, sep: T)
    requires |parts| > 0
    ensures Prepend(x, parts + more, sep) == Prepend(x, parts, sep) + more
  {
    if x == sep {
      assert [[]] + (parts + more) == ([[]] + parts) + more;
    } else {
      assert (parts + more)[1..] == parts[1..] + more;
    }
  }

  lemma {:induction false} SplitOfConcat<T>(a: seq<T>, b: seq<T>, sep: T)
    ensures Split(a + [sep] + b, sep) == Split(a, sep) + Split(b, sep)
  {
    var s := a + [sep] + b;
    if a == [] {
      assert s[0] == sep && s[1..] == b;
    } else {
      assert s[0] == a[0] && s[1..] == a[1..] + [sep] + b;
      SplitOfConcat(a[1..], b, sep);
      PrependOfConcat(a[0], Split(a[1..], sep), Split(b, sep), sep);
    }
  }

  lemma {:induction false} SplitPartsAreFree<T>(s: seq<T>, sep: T)
    ensures AllFree(Split(s, sep), sep)
  {
    if s != [] {
      SplitPartsAreFree(s[1..], sep);
    }
  }

  /** Join undoes Split on every sequence. */
  lemma {:induction false} JoinOfSplit<T>(s: seq<T>, sep: T)
    ensures Join(Split(s, sep), sep) == s
  {
    if s != [] {
      var rest := Split(s[1..], sep);
      JoinOfSplit(s[1..], sep);
      if s[0] == sep {
        assert ([[]] + rest)[1..] == rest;
      } else {
        var parts := [[s[0]] + rest[0]] + rest[1..];
        if |rest| > 1 {
          assert parts[1..] == rest[1..];
        }
      }
    }
  }

  /** Split undoes Join exactly on lists whose parts are free of the separator. */
  lemma {:induction false} SplitOfJoin<T>(parts: seq<seq<T>>, sep: T)
    requires |parts| > 0 && AllFree(parts, sep)
    ensures Split(Join(parts, sep), sep) == parts
  {
    SplitOfFree(parts[0], sep);
    if |parts| > 1 {
      SplitOfConcat(parts[0], Join(parts[1..], sep), sep);
      SplitOfJoin(parts[1..], sep);
      assert parts == [parts[0]] + parts[1..];
    } else {
      assert parts == [parts[0]];
    }
  }

  lemma {:induction false} TrimLeftIs<T>(s: seq<T>, cut: T) returns (i: nat)
    ensures i <= |s| && TrimLeft(s, cut) == s[i..]
    ensures forall k :: 0 <= k < i ==> s[k] == cut
    ensures i < |s| ==> s[i] != cut
  {
    i := 0;
    if s != [] && s[0] == cut {
      var rest := s[1..];
      var j := TrimLeftIs(rest, cut);
      assert rest[j..] == s[j + 1..];
      assert forall k :: 1 <= k < j + 1 ==> s[k] == rest[k - 1];
      i := j + 1;
    }
  }

  lemma {:induction false} TrimRightIs<T>(s: seq<T>, cut: T) returns (j: nat)
    ensures j <= |s| && TrimRight(s, cut) == s[..j]
    ensures forall k :: j <= k < |s| ==> s[k] == cut
    ensures j > 0 ==> s[j - 1] != cut
    decreases |s|
  {
    j := |s|;
    if s != [] && s[|s| - 1] == cut {
      j := TrimRightIs(s[..|s| - 1], cut);
      assert s[..|s| - 1][..j] == s[..j];
    }
  }

  /** Trimming takes away nothing but the cut element, and all of it at both ends. */
  lemma TrimIs<T>(s: seq<T>, cut: T) returns (i: nat, j: nat)
    ensures i <= j <= |s| && Trim(s, cut) == s[i..j]
    ensures forall k :: 0 <= k < i || j <= k < |s| ==> s[k] == cut
    ensures i < j ==> s[i] != cut && s[j - 1] != cut
  {
    i := TrimLeftIs(s, cut);
    var left := s[i..];
    var n := TrimRightIs(left, cut);
    j := i + n;
    hide TrimLeft, TrimRight;
    assert left[..n] == s[i..j];
    forall k | j <= k < |s|
      ensures s[k] == cut
    {
      assert left[k - i] == s[k];
    }
    if i < j {
      assert left[n - 1] == s[j - 1];
    }
  }

  /** A suffix is trimmed once, and text without it is left alone. */
  lemma TrimSuffixIs<T>(s: seq<T>, suffix: seq<T>)
    ensures TrimSuffix(s + suffix, suffix) == s
    ensures TrimSuffix(s, suffix) == s || s == TrimSuffix(s, suffix) + suffix
    ensures (exists r :: s == r + suffix) ==> s == TrimSuffix(s, suffix) + suffix
  {
    assert (s + suffix)[|s|..] == suffix && (s + suffix)[..|s|] == s;
  }
}
