/** What a bundle carries from the exporting service to the importing one. */
module BundleResults {
  import opened Wrappers
  import opened Policies
  import opened Strings
  import opened Escaping
  import opened Bundles

  // ------------------------------------------------------------------------
  // The URL of the key
  // ------------------------------------------------------------------------

  lemma JoinFirst(part: string, parts: seq<string>)
    requires |parts| > 0
    ensures Join([part] + parts, '/') == part + "/" + Join(parts, '/')
  {
    assert ([part] + parts)[1..] == parts;
  }

  lemma KeyURLParts(id: Identity)
    ensures KeyURL("", id) ==
            "" + "/" + ("policy" + "/" + (id.repository + "/" + (id.group + "/" + (id.name + "/" + (id.version + "/" + "key")))))
  {
    var tail := id.name + "/" + (id.version + "/" + "key");
    assert tail == id.name + "/" + id.version + "/key";
    assert KeyURL("", id) == "/policy/" + id.repository + "/" + id.group + "/" + tail;
  }

  lemma KeyPath(id: Identity)
    ensures KeyURL("", id) == Join(["", "policy", id.repository, id.group, id.name, id.version, "key"], '/')
  {
    var p6 := ["key"];
    assert Join(p6, '/') == "key";
    hide Join, KeyURL;
    KeyURLParts(id);
    var p5, p4 := [id.version, "key"], [id.name, id.version, "key"];
    var p3, p2 := [id.group] + p4, [id.repository] + [id.group, id.name, id.version, "key"];
    var p1 := ["policy"] + p2;
    assert [id.version] + p6 == p5;
    JoinFirst(id.version, p6);
    assert [id.name] + p5 == p4;
    JoinFirst(id.name, p5);
    JoinFirst(id.group, p4);
    assert p2 == [id.repository] + p3;
    JoinFirst(id.repository, p3);
    JoinFirst("policy", p2);
    assert [""] + p1 == ["", "policy", id.repository, id.group, id.name, id.version, "key"];
    JoinFirst("", p1);
  }

  /** Text that no step of requesting a URL cuts or refuses. */
  predicate Uncut(text: string) {
    forall c :: c in text ==> c != '#' && c != '?' && !IsControl(c)
  }

  /** A part that a URL carries as it is: it is not cut or refused either, and nothing in it separates segments
      or is decoded. */
  predicate Plain(part: string) {
    Uncut(part) && '/' !in part && '%' !in part
  }

  predicate PlainIdentity(id: Identity) {
    Plain(id.repository) && Plain(id.group) && Plain(id.name) && Plain(id.version)
  }

  lemma KeySegments(id: Identity)
    requires PlainIdentity(id)
    ensures Split(KeyURL("", id), '/') == ["", "policy", id.repository, id.group, id.name, id.version, "key"]
  {
    var parts := ["", "policy", id.repository, id.group, id.name, id.version, "key"];
    KeyPath(id);
    assert AllFree(parts, '/');
    SplitOfJoin(parts, '/');
  }

  lemma UncutParts(host: string, id: Identity)
    ensures Uncut(KeyURL(host, id)) <==>
            Uncut(host) && Uncut(id.repository) && Uncut(id.group) && Uncut(id.name) && Uncut(id.version)
  {
    var texts := [host, "/policy/", id.repository, "/", id.group, "/", id.name, "/", id.version, "/key"];
    assert Uncut("/policy/") && Uncut("/") && Uncut("/key");
    assert forall c :: c in KeyURL(host, id) <==>
             c in host || c in "/policy/" || c in id.repository || c in "/" || c in id.group || c in id.name || c in id.version || c in "/key";
  }

  lemma DecodedPlain(id: Identity)
    requires PlainIdentity(id)
    ensures Decoded([id.repository, id.group, id.name, id.version]) == Some(id)
  {
    UnescapeOfPlain(id.repository);
    UnescapeOfPlain(id.group);
    UnescapeOfPlain(id.name);
    UnescapeOfPlain(id.version);
  }

  lemma UncutText(url: string)
    requires Uncut(url)
    ensures Before(url, '#') == url && Before(url, '?') == url
    ensures forall i :: 0 <= i < |url| ==> !IsControl(url[i])
  {
    assert forall i :: 0 <= i < |url| ==> url[i] in url;
  }

  /** The URL of a plain identity resolves to it. */
  lemma PlainKeyURLResolves(host: string, id: Identity)
    requires Uncut(host) && PlainIdentity(id)
    ensures Route(host, KeyURL(host, id)) == Some(id)
  {
    var url := KeyURL(host, id);
    assert url == host + KeyURL("", id);
    assert url[|host|..] == KeyURL("", id);
    UncutParts(host, id);
    var parts := ["", "policy", id.repository, id.group, id.name, id.version, "key"];
    assert parts[2..6] == [id.repository, id.group, id.name, id.version];
    hide KeyURL, Split, Decoded, Uncut, Before, IsControl;
    UncutText(url);
    KeySegments(id);
    DecodedPlain(id);
  }

  /** Decoding never lengthens an identity, and when it does not shorten it either it changes nothing. */
  lemma DecodedShortens(raw: Identity, id: Identity)
    requires Decoded([raw.repository, raw.group, raw.name, raw.version]) == Some(id)
    ensures |KeyURL("", id)| <= |KeyURL("", raw)|
    ensures |KeyURL("", id)| == |KeyURL("", raw)| ==>
              raw == id && '%' !in id.repository && '%' !in id.group && '%' !in id.name && '%' !in id.version
  {
    UnescapeShortens(raw.repository);
    UnescapeShortens(raw.group);
    UnescapeShortens(raw.name);
    UnescapeShortens(raw.version);
  }

  /** What a path with the right segments looks like. */
  lemma PathOfSegments(path: string, parts: seq<string>)
    requires Split(path, '/') == parts && |parts| == 7 && parts[0] == "" && parts[1] == "policy" && parts[6] == "key"
    ensures
      var raw := Identity(parts[2], parts[3], parts[4], parts[5]);
      && path == KeyURL("", raw) && parts[2..6] == [raw.repository, raw.group, raw.name, raw.version]
      && '/' !in raw.repository && '/' !in raw.group && '/' !in raw.name && '/' !in raw.version
  {
    var raw := Identity(parts[2], parts[3], parts[4], parts[5]);
    JoinOfSplit(path, '/');
    SplitPartsAreFree(path, '/');
    KeyPath(raw);
    assert parts == ["", "policy", raw.repository, raw.group, raw.name, raw.version, "key"];
  }

  /** A URL that resolves to its identity was neither cut nor decoded: either would have shortened it. */
  lemma ResolvedIsPlain(host: string, id: Identity)
    requires Route(host, KeyURL(host, id)) == Some(id)
    ensures Uncut(host) && PlainIdentity(id)
  {
    var url := KeyURL(host, id);
    var withQuery := Before(url, '#');
    var target := Before(withQuery, '?');
    var path := target[|host|..];
    var parts := Split(path, '/');
    var raw := Identity(parts[2], parts[3], parts[4], parts[5]);
    PathOfSegments(path, parts);
    DecodedShortens(raw, id);
    assert |url| == |host| + |KeyURL("", id)|;
    assert |target| <= |withQuery| <= |url|;
    assert target == withQuery == url;
    forall c | c in url
      ensures c != '#' && c != '?' && !IsControl(c)
    {
      var i :| 0 <= i < |url| && url[i] == c;
    }
    UncutParts(host, id);
  }

  /** The URL in a bundle leads back to the policy the bundle was made of exactly when neither the host nor a
      part of the identity contains a character with a meaning in URLs, or a control character. */
  lemma KeyURLResolvesIffPlain(host: string, id: Identity)
    ensures Route(host, KeyURL(host, id)) == Some(id) <==> Uncut(host) && PlainIdentity(id)
  {
    if Route(host, KeyURL(host, id)) == Some(id) {
      ResolvedIsPlain(host, id);
    }
    if Uncut(host) && PlainIdentity(id) {
      PlainKeyURLResolves(host, id);
    }
  }

  // ------------------------------------------------------------------------
  // The pass over the files
  // ------------------------------------------------------------------------

  predicate DistinctNames(files: seq<File>) {
    forall i, j :: 0 <= i < j < |files| ==> files[i].name != files[j].name
  }

  predicate Known(name: string) {
    name in [METADATA, REGO, DATA, DATA_CONFIG, OUTPUT_SCHEMA, EXPORT_CONFIG]
  }

  function KnownFiles(files: seq<File>): seq<File>
    decreases |files|
  {
    if files == [] then []
    else if Known(Last(files).name) then KnownFiles(Front(files)) + [Last(files)]
    else KnownFiles(Front(files))
  }

  lemma {:induction false} KnownFilesAre(files: seq<File>)
    ensures forall f :: f in KnownFiles(files) <==> f in files && Known(f.name)
    decreases |files|
  {
    hide Known;
    if files != [] {
      KnownFilesAre(Front(files));
      assert files == Front(files) + [Last(files)];
    }
  }

  lemma {:induction false} LastOfKnown(files: seq<File>, name: string)
    requires Known(name)
    ensures LastOf(KnownFiles(files), name) == LastOf(files, name)
    decreases |files|
  {
    hide Known;
    if files != [] {
      LastOfKnown(Front(files), name);
      LastOfMore(KnownFiles(Front(files)), Last(files), name);
    }
  }

  /** Files of other names have no effect. */
  lemma UnknownFilesIgnored(lib: Library, files: seq<File>)
    ensures Rebuilt(lib, KnownFiles(files)) == Rebuilt(lib, files)
  {
    KnownFilesAre(files);
    LastOfKnown(files, METADATA);
    LastOfKnown(files, REGO);
    LastOfKnown(files, DATA);
    LastOfKnown(files, DATA_CONFIG);
    LastOfKnown(files, OUTPUT_SCHEMA);
    LastOfKnown(files, EXPORT_CONFIG);
  }

  lemma TheFileOfItsName(files: seq<File>, f: File, g: File)
    requires DistinctNames(files) && f in files && g in files && f.name == g.name
    ensures f == g
  {
  }

  /** A policy takes the same from both files. */
  predicate SamePart(lib: Library, f: File, g: File) {
    if f.name == METADATA then
      var a, b := lib.decode(f.content), lib.decode(g.content);
      a.Some? && b.Some? && a.value.(publicKeyURL := "") == b.value.(publicKeyURL := "")
    else f.content == g.content
  }

  /** Files that share a known name agree. */
  ghost predicate Consistent(lib: Library, files: seq<File>) {
    forall f, g :: f in files && g in files && f.name == g.name && Known(f.name) ==> SamePart(lib, f, g)
  }

  ghost predicate SameInAnyOrder(lib: Library, files: seq<File>) {
    forall others :: multiset(others) == multiset(files) ==> Rebuilt(lib, others) == Rebuilt(lib, files)
  }

  lemma SameFiles(files: seq<File>, others: seq<File>)
    requires multiset(files) == multiset(others)
    ensures forall f :: f in files <==> f in others
  {
    forall f
      ensures f in files <==> f in others
    {
      assert f in files <==> f in multiset(files);
      assert f in others <==> f in multiset(others);
    }
  }

  lemma SameLast(lib: Library, files: seq<File>, others: seq<File>, name: string)
    requires Consistent(lib, files) && Known(name) && forall f :: f in files <==> f in others
    ensures LastOf(files, name).Some? == LastOf(others, name).Some?
    ensures LastOf(files, name).Some? ==>
              SamePart(lib, File(name, LastOf(files, name).value), File(name, LastOf(others, name).value))
  {
  }

  lemma ConsistentInAnyOrder(lib: Library, files: seq<File>, others: seq<File>)
    requires Readable(lib, files) && Consistent(lib, files) && multiset(others) == multiset(files)
    ensures Rebuilt(lib, others) == Rebuilt(lib, files)
  {
    SameFiles(files, others);
    hide Consistent, LastOf;
    SameLast(lib, files, others, METADATA);
    SameLast(lib, files, others, REGO);
    SameLast(lib, files, others, DATA);
    SameLast(lib, files, others, DATA_CONFIG);
    SameLast(lib, files, others, OUTPUT_SCHEMA);
    SameLast(lib, files, others, EXPORT_CONFIG);
  }

  function MovedLast(files: seq<File>, i: nat): seq<File>
    requires i < |files|
  {
    files[..i] + files[i + 1..] + [files[i]]
  }

  lemma MovedLastIsPermutation(files: seq<File>, i: nat)
    requires i < |files|
    ensures multiset(MovedLast(files, i)) == multiset(files)
  {
    assert files == files[..i] + [files[i]] + files[i + 1..];
  }

  /** What the policy took for the name of the file is what the file says. */
  predicate TakenFrom(lib: Library, p: Policy, f: File) {
    match f.name
    case "metadata.json" =>
      var m := lib.decode(f.content);
      m.Some? && p.Id() == m.value.id && p.locked == m.value.locked && p.lastUpdate == m.value.lastUpdate
    case "policy.rego" => p.rego == f.content
    case "data.json" => p.data == f.content
    case "data-config.json" => p.dataConfig == f.content
    case "output-schema.json" => p.outputSchema == f.content
    case "export-config.json" => p.exportConfig == f.content
    case _ => true
  }

  lemma LastIsTaken(lib: Library, files: seq<File>)
    requires files != [] && Rebuilt(lib, files).Ok?
    ensures TakenFrom(lib, Rebuilt(lib, files).value, Last(files))
  {
    var f := Last(files);
    assert f in files && LastOf(files, f.name) == Some(f.content);
  }

  lemma TakenAlike(lib: Library, p: Policy, f: File, g: File)
    requires f.name == g.name && Known(f.name) && TakenFrom(lib, p, f) && TakenFrom(lib, p, g)
    ensures SamePart(lib, f, g)
  {
  }

  /** A readable file list rebuilds to the same policy in every order exactly when files that share a known
      name agree. */
  lemma OrderIrrelevantIff(lib: Library, files: seq<File>)
    requires Readable(lib, files)
    ensures SameInAnyOrder(lib, files) <==> Consistent(lib, files)
  {
    if SameInAnyOrder(lib, files) {
      forall f, g | f in files && g in files && f.name == g.name && Known(f.name)
        ensures SamePart(lib, f, g)
      {
        var i :| 0 <= i < |files| && files[i] == f;
        var j :| 0 <= j < |files| && files[j] == g;
        hide Rebuilt, TakenFrom, SamePart, Known, LastOf;
        MovedLastIsPermutation(files, i);
        MovedLastIsPermutation(files, j);
        ReadableRebuilds(lib, files);
        LastIsTaken(lib, MovedLast(files, i));
        LastIsTaken(lib, MovedLast(files, j));
        TakenAlike(lib, Rebuilt(lib, files).value, f, g);
      }
    }
    if Consistent(lib, files) {
      forall others | multiset(others) == multiset(files)
        ensures Rebuilt(lib, others) == Rebuilt(lib, files)
      {
        ConsistentInAnyOrder(lib, files, others);
      }
    }
  }

  lemma ReadableRebuilds(lib: Library, files: seq<File>)
    requires Readable(lib, files)
    ensures Rebuilt(lib, files).Ok?
  {
  }

  /** With distinct names the order of the files is irrelevant. */
  lemma OrderIrrelevant(lib: Library, files: seq<File>, others: seq<File>)
    requires DistinctNames(files) && multiset(files) == multiset(others)
    ensures Rebuilt(lib, files) == Rebuilt(lib, others)
  {
    SameFiles(files, others);
    if Readable(lib, files) {
      forall f, g | f in files && g in files && f.name == g.name && Known(f.name)
        ensures SamePart(lib, f, g)
      {
        TheFileOfItsName(files, f, g);
      }
      ConsistentInAnyOrder(lib, files, others);
    }
  }

  /** Without distinct names it is not: the later of two sources wins. */
  lemma LaterFileWins(lib: Library, a: string, b: string)
    requires a != b
    ensures Rebuilt(lib, [File(REGO, a), File(REGO, b)]) == Ok(NO_POLICY.(rego := b))
    ensures Rebuilt(lib, [File(REGO, b), File(REGO, a)]) == Ok(NO_POLICY.(rego := a))
  {
    assert Front([File(REGO, a), File(REGO, b)]) == [File(REGO, a)];
    assert Front([File(REGO, b), File(REGO, a)]) == [File(REGO, b)];
  }

  // ------------------------------------------------------------------------
  // Round trips
  // ------------------------------------------------------------------------

  function Kept(content: string): string {
    if Blank(content) then "" else content
  }

  /** What a bundle carries of a policy: blank optional files are empty, the file name follows from the
      identity, and there is no refresh schedule. */
  function Normalized(p: Policy): Policy {
    p.(filename := PolicyFilename(p.Id()),
       data := Kept(p.data),
       dataConfig := Kept(p.dataConfig),
       outputSchema := Kept(p.outputSchema),
       exportConfig := Kept(p.exportConfig),
       nextDataRefreshTime := ZERO_TIME)
  }

  lemma LastOfOptional(files: seq<File>, file: string, content: string, name: string)
    ensures LastOf(files + Optional(file, content), name) ==
            if file == name && !Blank(content) then Some(content) else LastOf(files, name)
  {
    hide Blank;
    if Blank(content) {
      assert files + Optional(file, content) == files;
    } else {
      LastOfMore(files, File(file, content), name);
    }
  }

  /** The last file of each name in a bundle. */
  lemma BundleTexts(metadata: string, p: Policy, name: string)
    ensures
      LastOf(BundleFiles(metadata, p), name) ==
      if name == EXPORT_CONFIG && !Blank(p.exportConfig) then Some(p.exportConfig)
      else if name == OUTPUT_SCHEMA && !Blank(p.outputSchema) then Some(p.outputSchema)
      else if name == DATA_CONFIG && !Blank(p.dataConfig) then Some(p.dataConfig)
      else if name == DATA && !Blank(p.data) then Some(p.data)
      else if name == REGO then Some(p.rego)
      else if name == METADATA then Some(metadata)
      else None
  {
    var f0 := [File(METADATA, metadata), File(REGO, p.rego)];
    var f1 := f0 + Optional(DATA, p.data);
    var f2 := f1 + Optional(DATA_CONFIG, p.dataConfig);
    var f3 := f2 + Optional(OUTPUT_SCHEMA, p.outputSchema);
    assert BundleFiles(metadata, p) == f3 + Optional(EXPORT_CONFIG, p.exportConfig);
    assert Front(f0) == [File(METADATA, metadata)];
    hide Optional, Blank;
    LastOfOptional(f0, DATA, p.data, name);
    LastOfOptional(f1, DATA_CONFIG, p.dataConfig, name);
    LastOfOptional(f2, OUTPUT_SCHEMA, p.outputSchema, name);
    LastOfOptional(f3, EXPORT_CONFIG, p.exportConfig, name);
  }

  lemma BundleMetadata(metadata: string, p: Policy, f: File)
    requires f in BundleFiles(metadata, p) && f.name == METADATA
    ensures f.content == metadata
  {
  }

  /** Rebuilding the files of a bundle gives the normalized policy. */
  lemma RebuiltBundle(lib: Library, host: string, p: Policy, metadata: string)
    requires lib.decode(metadata) == Some(MetadataOf(host, p))
    ensures Rebuilt(lib, BundleFiles(metadata, p)) == Ok(Normalized(p))
  {
    var files := BundleFiles(metadata, p);
    forall f | f in files && f.name == METADATA
      ensures lib.decode(f.content).Some?
    {
      BundleMetadata(metadata, p, f);
    }
    assert Readable(lib, files);
    hide Readable, BundleFiles, LastOf, Blank;
    BundleTexts(metadata, p, METADATA);
    BundleTexts(metadata, p, REGO);
    BundleTexts(metadata, p, DATA);
    BundleTexts(metadata, p, DATA_CONFIG);
    BundleTexts(metadata, p, OUTPUT_SCHEMA);
    BundleTexts(metadata, p, EXPORT_CONFIG);
  }

  lemma OptionalKept(name: string, content: string)
    ensures Optional(name, Kept(content)) == Optional(name, content)
  {
  }

  /** The normalized policy has the same bundle. */
  lemma NormalizedHasSameBundle(lib: Library, host: string, p: Policy)
    ensures Bundle(lib, host, Normalized(p)) == Bundle(lib, host, p)
    ensures Normalized(Normalized(p)) == Normalized(p)
  {
    OptionalKept(DATA, p.data);
    OptionalKept(DATA_CONFIG, p.dataConfig);
    OptionalKept(OUTPUT_SCHEMA, p.outputSchema);
    OptionalKept(EXPORT_CONFIG, p.exportConfig);
    assert Normalized(p).Id() == p.Id();
  }

  /** Two policies have the same bundle exactly when they differ in nothing but what normalizing removes. */
  lemma SameBundleIffSameNormalized(lib: Library, host: string, p: Policy, q: Policy)
    requires lib.Lawful() && Bundle(lib, host, p).Some? && Bundle(lib, host, q).Some?
    ensures Bundle(lib, host, p) == Bundle(lib, host, q) <==> Normalized(p) == Normalized(q)
  {
    var mp, mq := lib.encode(MetadataOf(host, p)).value, lib.encode(MetadataOf(host, q)).value;
    NormalizedHasSameBundle(lib, host, p);
    NormalizedHasSameBundle(lib, host, q);
    RebuiltBundle(lib, host, p, mp);
    RebuiltBundle(lib, host, q, mq);
    assert lib.unzip(Bundle(lib, host, p).value) == Some(BundleFiles(mp, p));
    assert lib.unzip(Bundle(lib, host, q).value) == Some(BundleFiles(mq, q));
  }

  /** The key that the web holds under a URL accepts the signature of a bundle. */
  predicate Accepted(lib: Library, web: Web, url: string, bundle: string, signature: string) {
    var keys := web(url);
    && keys.Some? && |keys.value| > 0
    && match keys.value[0].keyType
       case EC => lib.verifyECDSA(keys.value[0], lib.digest(lib.digest(bundle)), signature)
       case OKP => lib.verifyED25519(keys.value[0], lib.digest(bundle), signature)
       case RSA => lib.verifyPSS(keys.value[0], lib.digest(lib.digest(bundle)), signature)
       case OtherType => false
  }

  /** A bundle whose metadata comes first verifies exactly when the key under the URL accepts the signature. */
  lemma VerifiesIffAccepted(lib: Library, web: Web, bundle: string, signature: string, files: seq<File>, metadata: Metadata)
    requires lib.unzip(bundle) == Some(files) && files != [] && files[0].name == METADATA
    requires lib.decode(files[0].content) == Some(metadata)
    ensures VerifyBundle(lib, web, File(BUNDLE_FILE, bundle), File(SIGNATURE_FILE, signature)) <==>
            Accepted(lib, web, metadata.publicKeyURL, bundle, signature)
  {
  }

  /** Whatever the web holds, importing an exported archive stores the normalized policy or is refused,
      and it depends only on whether the first key under the policy's URL accepts the signature. */
  lemma ImportOfExport(lib: Library, host: string, p: Policy, web: Web)
    requires lib.Lawful() && Export(lib, host, Some(p)).Ok?
    ensures
      var bundle := Bundle(lib, host, p).value;
      var signature := lib.sign(PolicyExportConfig(lib, p).value, lib.digest(bundle)).value;
      Import(lib, web, Export(lib, host, Some(p)).value) ==
      if Accepted(lib, web, KeyURL(host, p.Id()), bundle, signature) then Ok(Normalized(p)) else Err(Forbidden)
  {
    var metadata := lib.encode(MetadataOf(host, p)).value;
    var bundle := Bundle(lib, host, p).value;
    var signature := lib.sign(PolicyExportConfig(lib, p).value, lib.digest(bundle)).value;
    var files := [File(BUNDLE_FILE, bundle), File(SIGNATURE_FILE, signature)];
    assert lib.unzip(Export(lib, host, Some(p)).value) == Some(files);
    assert lib.unzip(bundle) == Some(BundleFiles(metadata, p));
    assert BundleFiles(metadata, p)[0] == File(METADATA, metadata);
    assert lib.decode(metadata) == Some(MetadataOf(host, p));
    hide VerifyBundle, Accepted, Rebuilt, BundleFiles, Normalized, Bundle, Export, KeyURL, PolicyExportConfig;
    VerifiesIffAccepted(lib, web, bundle, signature, BundleFiles(metadata, p), MetadataOf(host, p));
    RebuiltBundle(lib, host, p, metadata);
  }

  /** The exporting host serves the signer's key for the stored export configuration. */
  lemma ServedKey(lib: Library, host: string, p: Policy, store: map<string, Policy>)
    requires PolicyExportConfig(lib, p).Ok? && Uncut(host) && PlainIdentity(p.Id())
    requires ConstructKey(p.Id()) in store && store[ConstructKey(p.Id())].exportConfig == p.exportConfig
    ensures
      var k := lib.key(PolicyExportConfig(lib, p).value);
      Serve(lib, host, store, KeyURL(host, p.Id())) == if k.Some? then Some([k.value]) else None
  {
    PlainKeyURLResolves(host, p.Id());
    hide Route, KeyURL;
    assert PolicyExportConfig(lib, store[ConstructKey(p.Id())]) == PolicyExportConfig(lib, p);
  }

  /** A signature is accepted under its own key exactly when the key's type is supported. */
  lemma GenuineIsAccepted(lib: Library, cfg: ExportConfig, payload: string)
    requires lib.Lawful() && lib.sign(cfg, payload).Some? && lib.key(cfg).Some?
    ensures VerifySignature(lib, lib.key(cfg).value, payload, lib.sign(cfg, payload).value) <==>
            lib.key(cfg).value.keyType != OtherType
  {
    assert lib.Genuine(lib.key(cfg).value, payload, lib.sign(cfg, payload).value);
  }

  /** From export to import through the exporting host: while the stored export configuration is what it was
      at export, the import stores the normalized policy exactly when the signer has the key and its type
      is one of the three supported. */
  lemma ImportThroughHost(lib: Library, host: string, p: Policy, store: map<string, Policy>)
    requires lib.Lawful() && Export(lib, host, Some(p)).Ok? && Uncut(host) && PlainIdentity(p.Id())
    requires ConstructKey(p.Id()) in store && store[ConstructKey(p.Id())].exportConfig == p.exportConfig
    ensures
      var web := (url: string) => Serve(lib, host, store, url);
      var k := lib.key(PolicyExportConfig(lib, p).value);
      Import(lib, web, Export(lib, host, Some(p)).value) ==
      if k.Some? && k.value.keyType != OtherType then Ok(Normalized(p)) else Err(Forbidden)
  {
    var web := (url: string) => Serve(lib, host, store, url);
    var cfg := PolicyExportConfig(lib, p).value;
    ServedKey(lib, host, p, store);
    ImportOfExport(lib, host, p, web);
    if lib.key(cfg).Some? {
      GenuineIsAccepted(lib, cfg, lib.digest(Bundle(lib, host, p).value));
    }
    hide Import, Export, Bundle, KeyURL, Serve, Normalized, VerifySignature, PolicyExportConfig;
  }

  /** When the exporting host no longer has the policy or its export configuration, the archive is refused. */
  lemma RevokedBundleIsRefused(lib: Library, host: string, p: Policy, store: map<string, Policy>)
    requires lib.Lawful() && Export(lib, host, Some(p)).Ok? && Uncut(host) && PlainIdentity(p.Id())
    requires ConstructKey(p.Id()) in store ==> Blank(store[ConstructKey(p.Id())].exportConfig)
    ensures Import(lib, (url: string) => Serve(lib, host, store, url), Export(lib, host, Some(p)).value) == Err(Forbidden)
  {
    PlainKeyURLResolves(host, p.Id());
    ImportOfExport(lib, host, p, (url: string) => Serve(lib, host, store, url));
    hide Import, Export, Bundle, KeyURL, Route, Normalized;
  }

  /** An imported policy exports as the original does, from the same host. */
  lemma ReexportOfImport(lib: Library, host: string, p: Policy, web: Web)
    requires lib.Lawful() && Export(lib, host, Some(p)).Ok?
    requires Import(lib, web, Export(lib, host, Some(p)).value).Ok?
    ensures
      var q := Import(lib, web, Export(lib, host, Some(p)).value).value;
      Bundle(lib, host, q) == Bundle(lib, host, p) && Export(lib, host, Some(q)) == Export(lib, host, Some(p))
  {
    ImportOfExport(lib, host, p, web);
    NormalizedHasSameBundle(lib, host, p);
  }

  /** In a bundle with distinct names, the metadata whose key is checked is the metadata that is stored. */
  lemma CheckedMetadataIsStored(lib: Library, web: Web, archive: string)
    requires Import(lib, web, archive).Ok?
    requires DistinctNames(lib.unzip(lib.unzip(archive).value[0].content).value)
    ensures
      var files := lib.unzip(lib.unzip(archive).value[0].content).value;
      var metadata := lib.decode(files[0].content).value;
      var p := Import(lib, web, archive).value;
      && p.Id() == metadata.id && p.locked == metadata.locked && p.lastUpdate == metadata.lastUpdate
      && web(metadata.publicKeyURL).Some?
  {
    var files := lib.unzip(lib.unzip(archive).value[0].content).value;
    TheFileOfItsName(files, files[0], File(METADATA, LastOf(files, METADATA).value));
  }
}
