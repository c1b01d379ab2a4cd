/** Translation between did:web identifiers and URLs, after section "Read (Resolve)" of the did:web
    Method Specification. */
module DidWeb {
  import opened Wrappers
  import opened Strings
  import opened Escaping

  const DID_SEPARATOR: byte := ':'
  const URL_SEPARATOR: byte := '/'
  const DEFAULT_URL_PATH: Bytes := ".well-known"
  const DOCUMENT: Bytes := "did.json"
  const SCHEME: Bytes := "did"
  const METHOD: Bytes := "web"

  /** An https URL. */
  datatype Url = Url(host: Bytes, path: Bytes)

  datatype Did = Did(scheme: Bytes, kind: Bytes, path: Bytes) {
    function ToString(): Bytes {
      scheme + [DID_SEPARATOR] + kind + [DID_SEPARATOR] + path
    }
  }

  // ------------------------------------------------------------------------
  // What the two translations mean
  // ------------------------------------------------------------------------

  /** The path segments that name a DID: the non-empty ones before the first default path. */
  function Kept(parts: seq<Bytes>): seq<Bytes> {
    if parts == [] || parts[0] == DEFAULT_URL_PATH then []
    else if parts[0] == [] then Kept(parts[1..])
    else [parts[0]] + Kept(parts[1..])
  }

  function Segments(path: Bytes): seq<Bytes> {
    Kept(Split(TrimSuffix(path, DOCUMENT), URL_SEPARATOR))
  }

  function EscapeAll(parts: seq<Bytes>): (r: seq<Bytes>)
    ensures |r| == |parts|
  {
    seq(|parts|, i requires 0 <= i < |parts| => QueryEscape(parts[i]))
  }

  /** The method-specific identifier of a URL, before colons are trimmed. */
  function Specific(u: Url): Bytes {
    Join([QueryEscape(u.host)] + EscapeAll(Segments(u.path)), DID_SEPARATOR)
  }

  function UrlToDid(u: Url): Did {
    Did(SCHEME, METHOD, Trim(Specific(u), DID_SEPARATOR))
  }

  function PathOf(segments: seq<Bytes>): Bytes {
    if segments == [] then DEFAULT_URL_PATH + [URL_SEPARATOR] + DOCUMENT
    else [URL_SEPARATOR] + Join(segments + [DOCUMENT], URL_SEPARATOR)
  }

  function DidToUrl(did: Bytes): Result<Url> {
    var ss := Split(did, DID_SEPARATOR);
    if |ss| < 3 || ss[0] != SCHEME || ss[1] != METHOD then Err(Failure)
    else
      match PathUnescape(ss[2])
      case None => Err(Failure)
      case Some(host) => Ok(Url(host, PathOf(ss[3..])))
  }

  // ------------------------------------------------------------------------
  // The loops that compute them
  // ------------------------------------------------------------------------

  method DidToUrlLoop(did: Bytes) returns (res: Result<Url>)
    ensures res == DidToUrl(did)
  {
    var ss := Split(did, DID_SEPARATOR);
    if |ss| < 3 {
      return Err(Failure);
    }
    if ss[0] != SCHEME || ss[1] != METHOD {
      return Err(Failure);
    }
    var path := DEFAULT_URL_PATH;
    if |ss| > 3 {
      path := [];
      for i := 3 to |ss|
        invariant path == Slashed(ss[3..i])
      {
        SlashedMore(ss[3..i], ss[i]);
        assert ss[3..i + 1] == ss[3..i] + [ss[i]];
        path := path + [URL_SEPARATOR] + ss[i];
      }
      assert ss[3..|ss|] == ss[3..];
      SlashedIsJoin(ss[3..]);
    }
    path := path + [URL_SEPARATOR] + DOCUMENT;
    var host := PathUnescape(ss[2]);
    if host.None? {
      return Err(Failure);
    }
    return Ok(Url(host.value, path));
  }

  /** Each part behind a slash. */
  function Slashed(parts: seq<Bytes>): Bytes {
    if parts == [] then [] else [URL_SEPARATOR] + parts[0] + Slashed(parts[1..])
  }

  lemma {:induction false} SlashedMore(parts: seq<Bytes>, part: Bytes)
    ensures Slashed(parts + [part]) == Slashed(parts) + [URL_SEPARATOR] + part
  {
    if parts != [] {
      SlashedMore(parts[1..], part);
      assert (parts + [part])[1..] == parts[1..] + [part];
    }
  }

  lemma {:induction false} SlashedIsJoin(parts: seq<Bytes>)
    requires parts != []
    ensures Slashed(parts) + [URL_SEPARATOR] + DOCUMENT == PathOf(parts)
  {
    var all := parts + [DOCUMENT];
    assert all[0] == parts[0] && all[1..] == parts[1..] + [DOCUMENT];
    if |parts| == 1 {
      assert all[1..] == [DOCUMENT] && parts[1..] == [];
      assert Join([DOCUMENT], URL_SEPARATOR) == DOCUMENT;
      assert Join(all, URL_SEPARATOR) == parts[0] + [URL_SEPARATOR] + DOCUMENT;
      assert Slashed(parts) == [URL_SEPARATOR] + parts[0] + [];
    } else {
      var tail := parts[1..];
      SlashedIsJoin(tail);
      assert Slashed(parts) + [URL_SEPARATOR] + DOCUMENT ==
             [URL_SEPARATOR] + parts[0] + (Slashed(tail) + [URL_SEPARATOR] + DOCUMENT);
      assert PathOf(parts) == [URL_SEPARATOR] + (parts[0] + [URL_SEPARATOR] + Join(tail + [DOCUMENT], URL_SEPARATOR));
    }
  }

  method UrlToDidLoop(u: Url) returns (did: Did)
    ensures did == UrlToDid(u)
  {
    var p := TrimSuffix(u.path, DOCUMENT);
    var sp := Split(p, URL_SEPARATOR);
    var path := QueryEscape(u.host);
    var i := 0;
    while i < |sp| && sp[i] != DEFAULT_URL_PATH
      invariant 0 <= i <= |sp|
      invariant Colons(path, Kept(sp[i..])) == Colons(QueryEscape(u.host), Kept(sp))
    {
      assert sp[i..][1..] == sp[i + 1..];
      if sp[i] != [] {
        path := path + [DID_SEPARATOR] + QueryEscape(sp[i]);
      }
      i := i + 1;
    }
    ColonsIsJoin(QueryEscape(u.host), Kept(sp));
    return Did(SCHEME, METHOD, Trim(path, DID_SEPARATOR));
  }

  /** The text followed by each part, escaped, behind a colon. */
  function Colons(text: Bytes, parts: seq<Bytes>): Bytes
    decreases |parts|
  {
    if parts == [] then text else Colons(text + [DID_SEPARATOR] + QueryEscape(parts[0]), parts[1..])
  }

  lemma {:induction false} ColonsIsJoin(text: Bytes, parts: seq<Bytes>)
    ensures Colons(text, parts) == Join([text] + EscapeAll(parts), DID_SEPARATOR)
    decreases |parts|
  {
    if parts != [] {
      var next := text + [DID_SEPARATOR] + QueryEscape(parts[0]);
      ColonsIsJoin(next, parts[1..]);
      assert EscapeAll(parts) == [QueryEscape(parts[0])] + EscapeAll(parts[1..]);
      JoinMerges(text, QueryEscape(parts[0]), EscapeAll(parts[1..]), DID_SEPARATOR);
      assert [text] + EscapeAll(parts) == [text, QueryEscape(parts[0])] + EscapeAll(parts[1..]);
    }
  }

  lemma JoinMerges(a: Bytes, b: Bytes, rest: seq<Bytes>, sep: byte)
    ensures Join([a, b] + rest, sep) == Join([a + [sep] + b] + rest, sep)
  {
    var parts := [a, b] + rest;
    assert parts[1..] == [b] + rest;
    assert ([b] + rest)[1..] == rest;
    if rest != [] {
      assert ([a + [sep] + b] + rest)[1..] == rest;
      assert Join(parts, sep) == a + [sep] + (b + [sep] + Join(rest, sep));
    }
  }

  // ------------------------------------------------------------------------
  // Segments
  // ------------------------------------------------------------------------

  /** A list of segments as Segments gives it. */
  predicate Names(parts: seq<Bytes>) {
    forall i :: 0 <= i < |parts| ==> parts[i] != [] && parts[i] != DEFAULT_URL_PATH && URL_SEPARATOR !in parts[i]
  }

  lemma {:induction false} KeptAreNames(parts: seq<Bytes>)
    requires AllFree(parts, URL_SEPARATOR)
    ensures Names(Kept(parts)) && |Kept(parts)| <= |parts|
  {
    if parts != [] {
      KeptAreNames(parts[1..]);
    }
  }

  lemma SegmentsAreNames(path: Bytes)
    ensures Names(Segments(path))
  {
    SplitPartsAreFree(TrimSuffix(path, DOCUMENT), URL_SEPARATOR);
    KeptAreNames(Split(TrimSuffix(path, DOCUMENT), URL_SEPARATOR));
  }

  /** Nothing is dropped exactly from lists of names. */
  lemma {:induction false} KeptAllIffNames(parts: seq<Bytes>)
    requires AllFree(parts, URL_SEPARATOR)
    ensures |Kept(parts)| == |parts| <==> Names(parts)
    ensures Names(parts) ==> Kept(parts) == parts
  {
    if parts != [] {
      KeptAllIffNames(parts[1..]);
      KeptAreNames(parts[1..]);
      assert parts == [parts[0]] + parts[1..];
      assert forall i :: 0 <= i < |parts| - 1 ==> parts[1..][i] == parts[i + 1];
      if Names(parts[1..]) && parts[0] != [] && parts[0] != DEFAULT_URL_PATH {
        assert Names(parts);
      }
    }
  }

  lemma {:induction false} KeptIgnoresLastEmpty(parts: seq<Bytes>)
    ensures Kept(parts + [[]]) == Kept(parts)
  {
    if parts != [] {
      KeptIgnoresLastEmpty(parts[1..]);
      assert (parts + [[]])[1..] == parts[1..] + [[]];
    }
  }

  lemma {:induction false} JoinLast(parts: seq<Bytes>, last: Bytes, sep: byte)
    ensures Join(parts + [last], sep) == (if parts == [] then last else Join(parts, sep) + [sep] + last)
  {
    if |parts| == 1 {
      assert (parts + [last])[1..] == [last];
    } else if |parts| > 1 {
      JoinLast(parts[1..], last, sep);
      assert (parts + [last])[1..] == parts[1..] + [last];
    }
  }

  lemma SplitBehindSlash(s: Bytes)
    ensures Split([URL_SEPARATOR] + s, URL_SEPARATOR) == [[]] + Split(s, URL_SEPARATOR)
  {
    assert ([URL_SEPARATOR] + s)[1..] == s;
  }

  lemma TrimDocument(front: Bytes)
    ensures TrimSuffix(front + DOCUMENT, DOCUMENT) == front
  {
    var path := front + DOCUMENT;
    assert path[|path| - |DOCUMENT|..] == DOCUMENT;
  }

  /** The segments of a path built from slash-free parts are what Kept leaves of the parts. */
  lemma SegmentsOfPath(parts: seq<Bytes>)
    requires AllFree(parts, URL_SEPARATOR)
    ensures Segments(PathOf(parts)) == Kept(parts)
  {
    if parts == [] {
      var path := PathOf(parts);
      var front := DEFAULT_URL_PATH + [URL_SEPARATOR] + [];
      assert path == front + DOCUMENT;
      TrimDocument(front);
      SplitOfConcat(DEFAULT_URL_PATH, [], URL_SEPARATOR);
      SplitOfFree(DEFAULT_URL_PATH, URL_SEPARATOR);
    } else {
      var path, joined := PathOf(parts), Join(parts, URL_SEPARATOR);
      JoinLast(parts, DOCUMENT, URL_SEPARATOR);
      var trimmed := [URL_SEPARATOR] + (joined + [URL_SEPARATOR] + []);
      assert path == trimmed + DOCUMENT;
      TrimDocument(trimmed);
      SplitBehindSlash(joined + [URL_SEPARATOR] + []);
      SplitOfConcat(joined, [], URL_SEPARATOR);
      SplitOfJoin(parts, URL_SEPARATOR);
      assert Split(trimmed, URL_SEPARATOR) == [[]] + (parts + [[]]);
      assert ([[]] + (parts + [[]]))[1..] == parts + [[]];
      KeptIgnoresLastEmpty(parts);
    }
  }

  // ------------------------------------------------------------------------
  // Injectivity
  // ------------------------------------------------------------------------

  /** What stands between the colons of a DID made from a URL. */
  function Fields(u: Url): seq<Bytes> {
    [QueryEscape(u.host)] + EscapeAll(Segments(u.path))
  }

  lemma EscapesAreFree(parts: seq<Bytes>)
    ensures AllFree(EscapeAll(parts), DID_SEPARATOR) && AllFree(EscapeAll(parts), URL_SEPARATOR)
  {
    forall i | 0 <= i < |parts|
      ensures DID_SEPARATOR !in QueryEscape(parts[i]) && URL_SEPARATOR !in QueryEscape(parts[i])
    {
      EscapeIsEscaped(parts[i]);
    }
  }

  lemma FieldsAreFree(u: Url)
    ensures AllFree(Fields(u), DID_SEPARATOR)
    ensures forall i :: 1 <= i < |Fields(u)| ==> Fields(u)[i] != []
    ensures Fields(u)[0] == [] <==> u.host == []
  {
    EscapesAreFree(Segments(u.path));
    EscapeIsEscaped(u.host);
    SegmentsAreNames(u.path);
    forall i | 1 <= i < |Fields(u)|
      ensures Fields(u)[i] != []
    {
      EscapeIsEscaped(Segments(u.path)[i - 1]);
    }
  }

  /** A join of non-empty separator-free parts does not end with the separator, nor start with it. */
  lemma {:induction false} JoinEnds(parts: seq<Bytes>, sep: byte)
    requires |parts| > 0 && AllFree(parts, sep)
    requires forall i :: 0 <= i < |parts| ==> parts[i] != []
    ensures var s := Join(parts, sep); s != [] && s[0] != sep && s[|s| - 1] != sep
  {
    assert parts[0][0] in parts[0] && parts[0][|parts[0]| - 1] in parts[0];
    if |parts| > 1 {
      JoinEnds(parts[1..], sep);
    }
  }

  /** The final trim removes something only from a URL without a host, whose identifier starts with a colon. */
  lemma TrimNeededIffNoHost(u: Url)
    ensures Trim(Specific(u), DID_SEPARATOR) == Specific(u) <==> u.host != [] || Segments(u.path) == []
  {
    FieldsAreFree(u);
    if u.host != [] {
      JoinEnds(Fields(u), DID_SEPARATOR);
      TrimIsIdentity(Specific(u), DID_SEPARATOR);
    } else if Segments(u.path) != [] {
      assert Specific(u)[0] == DID_SEPARATOR;
      TrimLeaves(Specific(u), DID_SEPARATOR);
    }
  }

  lemma {:induction false} TrimLeftLeaves(s: Bytes, cut: byte)
    ensures |TrimLeft(s, cut)| <= |s| && (TrimLeft(s, cut) != [] ==> TrimLeft(s, cut)[0] != cut)
  {
    if s != [] && s[0] == cut {
      TrimLeftLeaves(s[1..], cut);
    }
  }

  lemma {:induction false} TrimRightLeaves(s: Bytes, cut: byte)
    requires s != [] ==> s[0] != cut
    ensures |TrimRight(s, cut)| <= |s| && (TrimRight(s, cut) != [] ==> TrimRight(s, cut)[0] != cut)
  {
    if s != [] && s[|s| - 1] == cut {
      TrimRightLeaves(s[..|s| - 1], cut);
    }
  }

  lemma TrimLeaves(s: Bytes, cut: byte)
    ensures Trim(s, cut) != [] ==> Trim(s, cut)[0] != cut
  {
    TrimLeftLeaves(s, cut);
    TrimRightLeaves(TrimLeft(s, cut), cut);
  }

  lemma EscapeAllInjective(a: seq<Bytes>, b: seq<Bytes>)
    requires EscapeAll(a) == EscapeAll(b)
    ensures a == b
  {
    forall i | 0 <= i < |a|
      ensures a[i] == b[i]
    {
      assert EscapeAll(a)[i] == EscapeAll(b)[i];
      EscapeInjective(a[i], b[i]);
    }
  }

  /** Two URLs have the same DID exactly when they have the same host and the same segments. */
  lemma SameDidIffSameSegments(u: Url, v: Url)
    requires u.host != [] && v.host != []
    ensures UrlToDid(u) == UrlToDid(v) <==> u.host == v.host && Segments(u.path) == Segments(v.path)
  {
    TrimNeededIffNoHost(u);
    TrimNeededIffNoHost(v);
    if UrlToDid(u) == UrlToDid(v) {
      FieldsAreFree(u);
      FieldsAreFree(v);
      SplitOfJoin(Fields(u), DID_SEPARATOR);
      SplitOfJoin(Fields(v), DID_SEPARATOR);
      assert Fields(u)[0] == Fields(v)[0] && Fields(u)[1..] == Fields(v)[1..];
      EscapeInjective(u.host, v.host);
      assert Fields(u)[1..] == EscapeAll(Segments(u.path)) && Fields(v)[1..] == EscapeAll(Segments(v.path));
      EscapeAllInjective(Segments(u.path), Segments(v.path));
    }
  }

  // ------------------------------------------------------------------------
  // From a URL to its DID and back
  // ------------------------------------------------------------------------

  lemma SplitOfDid(specific: Bytes)
    ensures Split(Did(SCHEME, METHOD, specific).ToString(), DID_SEPARATOR) == [SCHEME, METHOD] + Split(specific, DID_SEPARATOR)
  {
    var s := Did(SCHEME, METHOD, specific).ToString();
    var rest := METHOD + [DID_SEPARATOR] + specific;
    assert s == SCHEME + [DID_SEPARATOR] + rest;
    SplitOfConcat(SCHEME, rest, DID_SEPARATOR);
    SplitOfFree(SCHEME, DID_SEPARATOR);
    SplitOfConcat(METHOD, specific, DID_SEPARATOR);
    SplitOfFree(METHOD, DID_SEPARATOR);
  }

  lemma AcceptedFields(did: Bytes, host: Bytes, rest: seq<Bytes>)
    requires Split(did, DID_SEPARATOR) == [SCHEME, METHOD] + ([host] + rest)
    ensures DidToUrl(did) == match PathUnescape(host)
                             case None => Err(Failure)
                             case Some(h) => Ok(Url(h, PathOf(rest)))
  {
    var ss := [SCHEME, METHOD] + ([host] + rest);
    assert ss[2] == host && ss[3..] == rest;
  }

  /** The DID of any URL with a host is accepted; its URL has the host with spaces turned into plus
      signs and the segments escaped. */
  lemma DidOfUrlIsAccepted(u: Url)
    requires u.host != []
    ensures DidToUrl(UrlToDid(u).ToString()) == Ok(Url(SpacesToPluses(u.host), PathOf(EscapeAll(Segments(u.path)))))
  {
    TrimNeededIffNoHost(u);
    FieldsAreFree(u);
    SplitOfJoin(Fields(u), DID_SEPARATOR);
    SplitOfDid(Specific(u));
    AcceptedFields(UrlToDid(u).ToString(), QueryEscape(u.host), EscapeAll(Segments(u.path)));
    UnescapeOfEscape(u.host);
  }

  /** How a path reads behind a host: a missing first slash is supplied. */
  function Rooted(path: Bytes): Bytes {
    if path != [] && path[0] == URL_SEPARATOR then path else [URL_SEPARATOR] + path
  }

  predicate AllUnreserved(parts: seq<Bytes>) {
    forall i :: 0 <= i < |parts| ==> Unreserved(parts[i])
  }

  /** The default path, or a slash before each of one or more unreserved names and before the document name. */
  ghost predicate CanonicalPath(path: Bytes) {
    || Rooted(path) == [URL_SEPARATOR] + DEFAULT_URL_PATH + [URL_SEPARATOR] + DOCUMENT
    || exists parts :: parts != [] && Names(parts) && AllUnreserved(parts) &&
                       Rooted(path) == Slashed(parts) + [URL_SEPARATOR] + DOCUMENT
  }

  lemma RootedPathOf(parts: seq<Bytes>)
    ensures Rooted(PathOf(parts)) ==
            if parts == [] then [URL_SEPARATOR] + DEFAULT_URL_PATH + [URL_SEPARATOR] + DOCUMENT
            else Slashed(parts) + [URL_SEPARATOR] + DOCUMENT
  {
    if parts == [] {
      assert PathOf(parts)[0] == '.';
      assert [URL_SEPARATOR] + PathOf(parts) == [URL_SEPARATOR] + DEFAULT_URL_PATH + [URL_SEPARATOR] + DOCUMENT;
    } else {
      SlashedIsJoin(parts);
    }
  }

  /** Canonical paths are those that the printer makes of their own unreserved segments. */
  lemma CanonicalPathIffPrinted(path: Bytes)
    ensures CanonicalPath(path) <==> Rooted(path) == Rooted(PathOf(Segments(path))) && AllUnreserved(Segments(path))
  {
    RootedPathOf([]);
    SegmentsAreNames(path);
    RootedPathOf(Segments(path));
    if Rooted(path) == Rooted(PathOf([])) {
      PrintedSegments(path, []);
    } else if CanonicalPath(path) {
      var parts :| parts != [] && Names(parts) && AllUnreserved(parts) &&
                   Rooted(path) == Slashed(parts) + [URL_SEPARATOR] + DOCUMENT;
      RootedPathOf(parts);
      PrintedSegments(path, parts);
    }
  }

  lemma PrintedSegments(path: Bytes, parts: seq<Bytes>)
    requires Names(parts) && Rooted(path) == Rooted(PathOf(parts))
    ensures Segments(path) == parts
  {
    SegmentsOfNames(parts);
    SegmentsOfRooted(PathOf(parts));
    SegmentsOfRooted(path);
  }

  lemma EscapeAllIsIdentityIffUnreserved(parts: seq<Bytes>)
    ensures EscapeAll(parts) == parts <==> AllUnreserved(parts)
  {
    if AllUnreserved(parts) {
      forall i | 0 <= i < |parts|
        ensures QueryEscape(parts[i]) == parts[i]
      {
        EscapeIsIdentityIffUnreserved(parts[i]);
      }
    } else {
      var i :| 0 <= i < |parts| && !Unreserved(parts[i]);
      EscapeIsIdentityIffUnreserved(parts[i]);
      assert EscapeAll(parts)[i] != parts[i];
    }
  }

  lemma DefaultEscapesToItself()
    ensures QueryEscape(DEFAULT_URL_PATH) == DEFAULT_URL_PATH
  {
    hide QueryEscape;
    EscapeIsIdentityIffUnreserved(DEFAULT_URL_PATH);
  }

  /** Escaped names are names. */
  lemma EscapedNames(parts: seq<Bytes>)
    requires Names(parts)
    ensures Names(EscapeAll(parts))
  {
    EscapesAreFree(parts);
    forall i | 0 <= i < |parts|
      ensures QueryEscape(parts[i]) != [] && QueryEscape(parts[i]) != DEFAULT_URL_PATH
    {
      EscapeIsEscaped(parts[i]);
      DefaultEscapesToItself();
      if QueryEscape(parts[i]) == DEFAULT_URL_PATH {
        EscapeInjective(parts[i], DEFAULT_URL_PATH);
      }
    }
  }

  lemma SegmentsOfNames(parts: seq<Bytes>)
    requires Names(parts)
    ensures Segments(PathOf(parts)) == parts
  {
    SegmentsOfPath(parts);
    KeptAllIffNames(parts);
  }

  lemma TrimSuffixBehind(s: Bytes, c: byte, suffix: Bytes)
    requires suffix != [] && suffix[0] != c
    ensures TrimSuffix([c] + s, suffix) == [c] + TrimSuffix(s, suffix)
  {
    var t := [c] + s;
    if |suffix| <= |s| {
      assert t[|t| - |suffix|..] == s[|s| - |suffix|..];
      assert HasSuffix(t, suffix) <==> HasSuffix(s, suffix);
      assert t[..|t| - |suffix|] == [c] + s[..|s| - |suffix|];
    } else if |suffix| == |t| {
      assert t[|t| - |suffix|..][0] == c;
    }
  }

  /** A first slash makes no difference to the segments. */
  lemma SegmentsOfRooted(path: Bytes)
    ensures Segments(Rooted(path)) == Segments(path)
  {
    if Rooted(path) != path {
      TrimSuffixBehind(path, URL_SEPARATOR, DOCUMENT);
      SplitBehindSlash(TrimSuffix(path, DOCUMENT));
      var parts := Split(TrimSuffix(path, DOCUMENT), URL_SEPARATOR);
      assert ([[]] + parts)[1..] == parts;
    }
  }

  /** A URL comes back, up to the first slash of its path, exactly when its host has no space and its
      path is canonical. */
  lemma UrlRoundTripsIffCanonical(u: Url)
    requires u.host != []
    ensures
      var back := DidToUrl(UrlToDid(u).ToString());
      back.Ok? &&
      (back.value.host == u.host && Rooted(back.value.path) == Rooted(u.path) <==> ' ' !in u.host && CanonicalPath(u.path))
  {
    var segments := Segments(u.path);
    CanonicalPathIffPrinted(u.path);
    DidOfUrlIsAccepted(u);
    PlusesIsIdentityIffSpaceFree(u.host);
    SegmentsAreNames(u.path);
    EscapeAllIsIdentityIffUnreserved(segments);
    if Rooted(PathOf(EscapeAll(segments))) == Rooted(u.path) {
      EscapedNames(segments);
      SegmentsOfNames(EscapeAll(segments));
      SegmentsOfRooted(PathOf(EscapeAll(segments)));
      SegmentsOfRooted(u.path);
      assert EscapeAll(segments) == segments;
    }
  }

  // ------------------------------------------------------------------------
  // From a DID to its URL and back
  // ------------------------------------------------------------------------

  /** A canonically escaped host, and non-empty unreserved segments other than the default path.
      A DID that ends where the host should be is the one odd case. */
  predicate CanonicalDid(did: Bytes) {
    var ss := Split(did, DID_SEPARATOR);
    |ss| >= 3 &&
    if ss[2] == [] then |ss| == 3
    else Canonical(ss[2]) && Names(ss[3..]) && AllUnreserved(ss[3..])
  }

  lemma UnescapeEmpty(s: Bytes)
    requires PathUnescape(s).Some?
    ensures PathUnescape(s).value == [] <==> s == []
  {
  }

  lemma {:induction false} JoinInjective(a: seq<Bytes>, b: seq<Bytes>, sep: byte)
    requires |a| > 0 && |b| > 0 && AllFree(a, sep) && AllFree(b, sep)
    ensures Join(a, sep) == Join(b, sep) <==> a == b
  {
    SplitOfJoin(a, sep);
    SplitOfJoin(b, sep);
  }

  lemma DidIsItsFields(did: Bytes)
    requires DidToUrl(did).Ok?
    ensures
      var ss := Split(did, DID_SEPARATOR);
      ss == [SCHEME, METHOD] + ss[2..] && did == Did(SCHEME, METHOD, Join(ss[2..], DID_SEPARATOR)).ToString()
  {
    var ss := Split(did, DID_SEPARATOR);
    JoinOfSplit(did, DID_SEPARATOR);
    assert ss == [ss[0], ss[1]] + ss[2..];
    assert ss[1..][1..] == ss[2..];
  }

  lemma EscapedSegmentsMatchIffCanonical(parts: seq<Bytes>)
    ensures EscapeAll(Segments(PathOf(parts))) == parts <==> Names(parts) && AllUnreserved(parts)
  {
    var segments := Segments(PathOf(parts));
    if EscapeAll(segments) == parts {
      EscapesAreFree(segments);
      SegmentsOfPath(parts);
      KeptAllIffNames(parts);
      EscapeAllIsIdentityIffUnreserved(parts);
    } else if Names(parts) && AllUnreserved(parts) {
      SegmentsOfNames(parts);
      EscapeAllIsIdentityIffUnreserved(parts);
    }
  }

  lemma HostedDidRoundTrips(did: Bytes)
    requires DidToUrl(did).Ok? && DidToUrl(did).value.host != []
    ensures UrlToDid(DidToUrl(did).value).ToString() == did <==> CanonicalDid(did)
  {
    var ss, u := Split(did, DID_SEPARATOR), DidToUrl(did).value;
    DidIsItsFields(did);
    TrimNeededIffNoHost(u);
    FieldsAreFree(u);
    SplitPartsAreFree(did, DID_SEPARATOR);
    assert AllFree(ss[2..], DID_SEPARATOR);
    JoinInjective(Fields(u), ss[2..], DID_SEPARATOR);
    SameSpecific(Specific(u), Join(ss[2..], DID_SEPARATOR));
    UnescapeEmpty(ss[2]);
    CanonicalIffReescapes(ss[2]);
    EscapedSegmentsMatchIffCanonical(ss[3..]);
    assert ss[2..] == [ss[2]] + ss[3..];
    assert Fields(u)[0] == QueryEscape(u.host) && Fields(u)[1..] == EscapeAll(Segments(u.path));
    assert ss[2..][0] == ss[2] && ss[2..][1..] == ss[3..];
  }

  lemma SameSpecific(a: Bytes, b: Bytes)
    ensures Did(SCHEME, METHOD, a).ToString() == Did(SCHEME, METHOD, b).ToString() <==> a == b
  {
    var prefix := SCHEME + [DID_SEPARATOR] + METHOD + [DID_SEPARATOR];
    assert Did(SCHEME, METHOD, a).ToString() == prefix + a && Did(SCHEME, METHOD, b).ToString() == prefix + b;
    assert (prefix + a)[|prefix|..] == a && (prefix + b)[|prefix|..] == b;
  }

  /** A DID comes back from its URL exactly when it is canonical. */
  lemma DidRoundTripsIffCanonical(did: Bytes)
    requires DidToUrl(did).Ok?
    ensures UrlToDid(DidToUrl(did).value).ToString() == did <==> CanonicalDid(did)
  {
    var ss, u := Split(did, DID_SEPARATOR), DidToUrl(did).value;
    UnescapeEmpty(ss[2]);
    if u.host != [] {
      HostedDidRoundTrips(did);
    } else {
      DidIsItsFields(did);
      SameSpecific(UrlToDid(u).path, Join(ss[2..], DID_SEPARATOR));
      TrimLeaves(Specific(u), DID_SEPARATOR);
      assert ss[2..][0] == [];
      if |ss| == 3 {
        assert ss[3..] == [];
        SegmentsOfPath([]);
        assert Specific(u) == [];
      } else {
        assert Join(ss[2..], DID_SEPARATOR)[0] == DID_SEPARATOR;
      }
    }
  }

  /** A path segment outside the unreserved set, such as a user name behind an at sign, is escaped once
      more on every trip. */
  lemma AtSignDoesNotRoundTrip(host: Bytes)
    requires host != []
    ensures
      var u := Url(host, PathOf(["@a"]));
      && Segments(u.path) == ["@a"]
      && DidToUrl(UrlToDid(u).ToString()) == Ok(Url(SpacesToPluses(host), PathOf(["%40a"])))
  {
    var u := Url(host, PathOf(["@a"]));
    AtSignEscapes();
    assert EscapeAll(["@a"]) == ["%40a"];
    hide PathOf, UrlToDid, DidToUrl, QueryEscape, Segments;
    SegmentsOfNames(["@a"]);
    DidOfUrlIsAccepted(u);
  }

  lemma AtSignEscapes()
    ensures QueryEscape("@a") == "%40a"
  {
    EscapeHead('@', "a");
    EscapeHead('a', []);
    assert ['@'] + "a" == "@a" && ['a'] + [] == "a";
  }

  // ------------------------------------------------------------------------
  // The answers in text
  // ------------------------------------------------------------------------

  /** No part is the default path. */
  predicate NoDefault(parts: seq<Bytes>) {
    forall i :: 0 <= i < |parts| ==> parts[i] != ".well-known"
  }

  /** The parts of a path that count are the non-empty ones, in order, up to the first default path. */
  lemma {:induction false} KeptMore(parts: seq<Bytes>, part: Bytes, rest: seq<Bytes>)
    requires NoDefault(parts)
    ensures Kept([]) == []
    ensures part != ".well-known" ==> Kept(parts + [part]) == Kept(parts) + (if part == [] then [] else [part])
    ensures Kept(parts + [".well-known"] + rest) == Kept(parts)
    decreases |parts|
  {
    var a, b := parts + [part], parts + [".well-known"] + rest;
    if parts == [] {
      assert a == [part] && a[1..] == [];
      assert b[0] == ".well-known";
    } else {
      KeptMore(parts[1..], part, rest);
      assert a[0] == parts[0] && a[1..] == parts[1..] + [part];
      assert b[0] == parts[0] && b[1..] == parts[1..] + [".well-known"] + rest;
    }
  }

  lemma DidPrefix(specific: Bytes)
    ensures Did(SCHEME, METHOD, specific).ToString() == "did:web:" + specific
  {
    assert "did" + ":" + "web" + ":" == "did:web:";
  }

  /** The text of a DID: the escaped host and the escaped parts of the path behind colons. */
  lemma DidText(u: Url)
    requires u.host != []
    ensures UrlToDid(u).ToString() ==
            "did:web:" + Join<byte>([QueryEscape(u.host)] + EscapeAll(Kept(Split<byte>(TrimSuffix<byte>(u.path, "did.json"), '/'))), ':')
  {
    TrimNeededIffNoHost(u);
    DidPrefix(Specific(u));
  }

  lemma DefaultPath()
    ensures PathOf([]) == ".well-known/did.json"
  {
    assert ".well-known" + "/" + "did.json" == ".well-known/did.json";
  }

  lemma PartsPath(parts: seq<Bytes>)
    requires parts != []
    ensures PathOf(parts) == Slashed(parts) + "/did.json"
  {
    SlashedIsJoin(parts);
    assert Slashed(parts) + [URL_SEPARATOR] + DOCUMENT == Slashed(parts) + "/did.json";
  }

  /** The text of a URL: the host of a DID unescaped, and its parts as they are behind slashes, or the default
      path when there are none. */
  lemma UrlOfText(host: Bytes, parts: seq<Bytes>)
    requires ':' !in host && AllFree(parts, ':')
    ensures DidToUrl("did:web:" + Join<byte>([host] + parts, ':')) ==
            match PathUnescape(host)
            case None => Err(Failure)
            case Some(h) => Ok(Url(h, if parts == [] then ".well-known/did.json" else Slashed(parts) + "/did.json"))
  {
    var all := [host] + parts;
    var specific := Join<byte>(all, ':');
    assert AllFree(all, ':');
    hide Join, Split, DidToUrl, PathOf, Slashed, PathUnescape;
    SplitOfDid(specific);
    DidPrefix(specific);
    SplitOfJoin<byte>(all, ':');
    AcceptedFields("did:web:" + specific, host, parts);
    if parts == [] {
      DefaultPath();
    } else {
      PartsPath(parts);
    }
  }

  /** Anything else is refused. */
  lemma OtherTextIsRefused(did: Bytes)
    requires DidToUrl(did).Ok?
    ensures exists host, parts :: ':' !in host && AllFree(parts, ':') && did == "did:web:" + Join<byte>([host] + parts, ':')
  {
    var ss := Split(did, DID_SEPARATOR);
    DidIsItsFields(did);
    DidPrefix(Join<byte>(ss[2..], ':'));
    SplitPartsAreFree(did, DID_SEPARATOR);
    assert ss[2..] == [ss[2]] + ss[3..];
    assert AllFree(ss[3..], ':');
    assert did == "did:web:" + Join<byte>([ss[2]] + ss[3..], ':');
  }
}
