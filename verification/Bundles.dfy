/** Signed policy bundles: the archive an export makes, the key its URL leads to, and what an import
    makes of the archive. */
module Bundles {
  import opened Wrappers
  import opened Policies
  import opened Strings
  import opened Escaping

  /** A file of a zip archive. */
  datatype File = File(name: string, content: string)

  const BUNDLE_FILE := "policy_bundle.zip"
  const SIGNATURE_FILE := "signature.raw"

  const METADATA := "metadata.json"
  const REGO := "policy.rego"
  const DATA := "data.json"
  const DATA_CONFIG := "data-config.json"
  const OUTPUT_SCHEMA := "output-schema.json"
  const EXPORT_CONFIG := "export-config.json"

  datatype Metadata = Metadata(id: Identity, locked: bool, lastUpdate: Time, publicKeyURL: string)

  /** The signer's namespace and key. */
  datatype ExportConfig = ExportConfig(namespace: string, key: string)

  datatype KeyType = EC | OKP | RSA | OtherType

  datatype PublicKey = PublicKey(keyType: KeyType, material: string)

  /** Zip, JSON, SHA-256, the signer service and the signature algorithms: code of others. The verify
      functions include reading a key of their type out of its JWK. */
  datatype Library = Library(
    zip: seq<File> -> Option<string>,
    unzip: string -> Option<seq<File>>,
    encode: Metadata -> Option<string>,
    decode: string -> Option<Metadata>,
    parseExport: string -> Option<ExportConfig>,
    digest: string -> string,
    sign: (ExportConfig, string) -> Option<string>,
    key: ExportConfig -> Option<PublicKey>,
    verifyECDSA: (PublicKey, string, string) -> bool,
    verifyED25519: (PublicKey, string, string) -> bool,
    verifyPSS: (PublicKey, string, string) -> bool)
  {
    /** Unzipping undoes zipping, decoding undoes encoding, and a signature is genuine under its own key.
        Nothing else is known of them. */
    ghost predicate Lawful() {
      && (forall files :: zip(files).Some? ==> unzip(zip(files).value) == Some(files))
      && (forall m :: encode(m).Some? ==> decode(encode(m).value) == Some(m))
      && (forall cfg, payload :: sign(cfg, payload).Some? && key(cfg).Some? ==>
            Genuine(key(cfg).value, payload, sign(cfg, payload).value))
    }

    /** How the signer signs: it hashes the payload itself for EC and RSA keys. */
    predicate Genuine(k: PublicKey, payload: string, signature: string) {
      match k.keyType
      case EC => verifyECDSA(k, digest(payload), signature)
      case OKP => verifyED25519(k, payload, signature)
      case RSA => verifyPSS(k, digest(payload), signature)
      case OtherType => true
    }
  }

  // ------------------------------------------------------------------------
  // Export
  // ------------------------------------------------------------------------

  /** White space as unicode.IsSpace defines it. */
  predicate IsSpace(c: char) {
    || '\t' <= c <= '\r' || c == ' ' || c == '\U{85}' || c == '\U{A0}' || c == '\U{1680}'
    || '\U{2000}' <= c <= '\U{200A}' || c == '\U{2028}' || c == '\U{2029}' || c == '\U{202F}'
    || c == '\U{205F}' || c == '\U{3000}'
  }

  /** strings.TrimSpace leaves nothing. */
  predicate Blank(s: string) {
    forall i :: 0 <= i < |s| ==> IsSpace(s[i])
  }

  function PolicyExportConfig(lib: Library, p: Policy): Result<ExportConfig> {
    if Blank(p.exportConfig) then Err(Forbidden)
    else
      match lib.parseExport(p.exportConfig)
      case None => Err(Failure)
      case Some(cfg) => Ok(cfg)
  }

  /** policyPublicKeyURL. */
  function KeyURL(host: string, id: Identity): string {
    host + "/policy/" + id.repository + "/" + id.group + "/" + id.name + "/" + id.version + "/key"
  }

  function MetadataOf(host: string, p: Policy): Metadata {
    Metadata(p.Id(), p.locked, p.lastUpdate, KeyURL(host, p.Id()))
  }

  /** A file that is left out when its content is blank. */
  function Optional(name: string, content: string): seq<File> {
    if Blank(content) then [] else [File(name, content)]
  }

  function BundleFiles(metadata: string, p: Policy): seq<File> {
    [File(METADATA, metadata), File(REGO, p.rego)]
    + Optional(DATA, p.data)
    + Optional(DATA_CONFIG, p.dataConfig)
    + Optional(OUTPUT_SCHEMA, p.outputSchema)
    + Optional(EXPORT_CONFIG, p.exportConfig)
  }

  function Bundle(lib: Library, host: string, p: Policy): Option<string> {
    match lib.encode(MetadataOf(host, p))
    case None => None
    case Some(metadata) => lib.zip(BundleFiles(metadata, p))
  }

  /** createPolicyBundle, appending one file after another. */
  method CreatePolicyBundle(lib: Library, host: string, p: Policy) returns (bundle: Option<string>)
    ensures bundle == Bundle(lib, host, p)
  {
    var metadata := lib.encode(MetadataOf(host, p));
    if metadata.None? {
      return None;
    }
    var files := [File(METADATA, metadata.value)];
    files := files + [File(REGO, p.rego)];
    if !Blank(p.data) {
      files := files + [File(DATA, p.data)];
    }
    if !Blank(p.dataConfig) {
      files := files + [File(DATA_CONFIG, p.dataConfig)];
    }
    if !Blank(p.outputSchema) {
      files := files + [File(OUTPUT_SCHEMA, p.outputSchema)];
    }
    if !Blank(p.exportConfig) {
      files := files + [File(EXPORT_CONFIG, p.exportConfig)];
    }
    assert files == BundleFiles(metadata.value, p);
    bundle := lib.zip(files);
  }

  /** The bundle and the signature of its digest, in one archive. */
  function Export(lib: Library, host: string, stored: Option<Policy>): Result<string> {
    if stored.None? then Err(NotFound)
    else
      var p := stored.value;
      match PolicyExportConfig(lib, p)
      case Err(e) => Err(e)
      case Ok(cfg) =>
        match Bundle(lib, host, p)
        case None => Err(Failure)
        case Some(bundle) =>
          match lib.sign(cfg, lib.digest(bundle))
          case None => Err(Failure)
          case Some(signature) =>
            match lib.zip([File(BUNDLE_FILE, bundle), File(SIGNATURE_FILE, signature)])
            case None => Err(Failure)
            case Some(archive) => Ok(archive)
  }

  // ------------------------------------------------------------------------
  // The key behind the URL
  // ------------------------------------------------------------------------

  function PolicyPublicKey(lib: Library, stored: Option<Policy>): Result<PublicKey> {
    if stored.None? then Err(NotFound)
    else
      match PolicyExportConfig(lib, stored.value)
      case Err(e) => Err(e)
      case Ok(cfg) =>
        match lib.key(cfg)
        case None => Err(Failure)
        case Some(k) => Ok(k)
  }

  /** ASCII control characters, which the URL parser refuses. */
  predicate IsControl(c: char) {
    c < ' ' || c == '\U{7F}'
  }

  /** The route of a request for a public key, at the host of that name, made with the text of a URL: the
      fragment is dropped, control characters are refused, the query is dropped, and of a path with the right
      seven segments four are percent-decoded. */
  function Route(host: string, url: string): Option<Identity> {
    var withQuery := Before(url, '#');
    var target := Before(withQuery, '?');
    if (exists i :: 0 <= i < |withQuery| && IsControl(withQuery[i])) || !(host <= target) then None
    else
      var parts := Split(target[|host|..], '/');
      if |parts| == 7 && parts[0] == "" && parts[1] == "policy" && parts[6] == "key" then Decoded(parts[2..6])
      else None
  }

  function Decoded(parts: seq<string>): Option<Identity>
    requires |parts| == 4
  {
    var repository, group := PathUnescape(parts[0]), PathUnescape(parts[1]);
    var name, version := PathUnescape(parts[2]), PathUnescape(parts[3]);
    if repository.None? || group.None? || name.None? || version.None? then None
    else Some(Identity(repository.value, group.value, name.value, version.value))
  }

  /** Fetching a key set from a host that holds the given policies; a JWK is a set of one key. */
  function Serve(lib: Library, host: string, store: map<string, Policy>, url: string): Option<seq<PublicKey>> {
    match Route(host, url)
    case None => None
    case Some(id) =>
      var key := ConstructKey(id);
      match PolicyPublicKey(lib, if key in store then Some(store[key]) else None)
      case Err(_) => None
      case Ok(k) => Some([k])
  }

  // ------------------------------------------------------------------------
  // Import
  // ------------------------------------------------------------------------

  /** Key sets by URL, as they are while an import runs. */
  type Web = string -> Option<seq<PublicKey>>

  /** ECDSA and RSA keys sign the digest of the payload, which is a digest already. */
  predicate VerifySignature(lib: Library, k: PublicKey, payload: string, signature: string) {
    match k.keyType
    case EC => lib.verifyECDSA(k, lib.digest(payload), signature)
    case OKP => lib.verifyED25519(k, payload, signature)
    case RSA => lib.verifyPSS(k, lib.digest(payload), signature)
    case OtherType => false
  }

  predicate VerifyBundle(lib: Library, web: Web, bundle: File, signature: File) {
    && bundle.name == BUNDLE_FILE
    && signature.name == SIGNATURE_FILE
    && var files := lib.unzip(bundle.content);
    && files.Some? && |files.value| > 0 && files.value[0].name == METADATA
    && var metadata := lib.decode(files.value[0].content);
    && metadata.Some?
    && var keys := web(metadata.value.publicKeyURL);
    && keys.Some? && |keys.value| > 0
    && VerifySignature(lib, keys.value[0], lib.digest(bundle.content), signature.content)
  }

  /** Content of the last file of the name. */
  function LastOf(files: seq<File>, name: string): (content: Option<string>)
    ensures content.Some? ==> File(name, content.value) in files
    ensures content.None? ==> forall f :: f in files ==> f.name != name
    decreases |files|
  {
    if files == [] then None
    else
      assert files == Front(files) + [Last(files)];
      if Last(files).name == name then Some(Last(files).content)
      else LastOf(Front(files), name)
  }

  function TextOf(files: seq<File>, name: string): string {
    match LastOf(files, name)
    case None => ""
    case Some(content) => content
  }

  /** Every metadata file decodes. */
  predicate Readable(lib: Library, files: seq<File>) {
    forall f :: f in files && f.name == METADATA ==> lib.decode(f.content).Some?
  }

  function PolicyFilename(id: Identity): string {
    id.group + "/" + id.name + "/" + id.version + "/" + REGO
  }

  const NO_POLICY := Policy("", "", "", "", "", "", "", "", "", "", false, ZERO_TIME, ZERO_TIME)

  function WithMetadata(p: Policy, m: Metadata): Policy {
    p.(repository := m.id.repository, group := m.id.group, name := m.id.name, version := m.id.version,
       locked := m.locked, lastUpdate := m.lastUpdate, filename := PolicyFilename(m.id))
  }

  /** Each part of the policy comes from the last file of its name. */
  function Rebuilt(lib: Library, files: seq<File>): Result<Policy> {
    if !Readable(lib, files) then Err(Failure)
    else
      var p := NO_POLICY.(
        rego := TextOf(files, REGO),
        data := TextOf(files, DATA),
        dataConfig := TextOf(files, DATA_CONFIG),
        outputSchema := TextOf(files, OUTPUT_SCHEMA),
        exportConfig := TextOf(files, EXPORT_CONFIG));
      match LastOf(files, METADATA)
      case None => Ok(p)
      case Some(metadata) => Ok(WithMetadata(p, lib.decode(metadata).value))
  }

  /** What one more file changes in the policy. */
  function WithFile(lib: Library, p: Policy, f: File): Result<Policy> {
    match f.name
    case "metadata.json" =>
      (match lib.decode(f.content)
       case None => Err(Failure)
       case Some(m) => Ok(WithMetadata(p, m)))
    case "policy.rego" => Ok(p.(rego := f.content))
    case "data.json" => Ok(p.(data := f.content))
    case "data-config.json" => Ok(p.(dataConfig := f.content))
    case "output-schema.json" => Ok(p.(outputSchema := f.content))
    case "export-config.json" => Ok(p.(exportConfig := f.content))
    case _ => Ok(p)
  }

  lemma LastOfMore(files: seq<File>, f: File, name: string)
    ensures LastOf(files + [f], name) == if f.name == name then Some(f.content) else LastOf(files, name)
  {
    assert Front(files + [f]) == files;
  }

  lemma RebuiltMore(lib: Library, files: seq<File>, f: File)
    requires Rebuilt(lib, files).Ok?
    ensures Rebuilt(lib, files + [f]) == WithFile(lib, Rebuilt(lib, files).value, f)
  {
    assert forall g :: g in files + [f] <==> g in files || g == f;
    LastOfMore(files, f, METADATA);
    LastOfMore(files, f, REGO);
    LastOfMore(files, f, DATA);
    LastOfMore(files, f, DATA_CONFIG);
    LastOfMore(files, f, OUTPUT_SCHEMA);
    LastOfMore(files, f, EXPORT_CONFIG);
    hide LastOf;
  }

  lemma {:induction false} NeverReadable(lib: Library, files: seq<File>, i: nat)
    requires i <= |files| && !Readable(lib, files[..i])
    ensures Rebuilt(lib, files) == Err(Failure)
  {
    var f :| f in files[..i] && f.name == METADATA && lib.decode(f.content).None?;
    assert f in files;
  }

  /** policyFromBundle after unzipping: one pass that fills in a policy. */
  method PolicyFromBundle(lib: Library, files: seq<File>) returns (res: Result<Policy>)
    ensures res == Rebuilt(lib, files)
  {
    var p := NO_POLICY;
    for i := 0 to |files|
      invariant Rebuilt(lib, files[..i]) == Ok(p)
    {
      var f := files[i];
      assert files[..i + 1] == files[..i] + [f];
      RebuiltMore(lib, files[..i], f);
      if WithFile(lib, p, f).Err? {
        NeverReadable(lib, files, i + 1);
      }
      hide Rebuilt, Readable, LastOf;
      match f.name {
        case "metadata.json" =>
          var metadata := lib.decode(f.content);
          if metadata.None? {
            return Err(Failure);
          }
          p := WithMetadata(p, metadata.value);
        case "policy.rego" => p := p.(rego := f.content);
        case "data.json" => p := p.(data := f.content);
        case "data-config.json" => p := p.(dataConfig := f.content);
        case "output-schema.json" => p := p.(outputSchema := f.content);
        case "export-config.json" => p := p.(exportConfig := f.content);
        case _ =>
      }
    }
    assert files[..|files|] == files;
    return Ok(p);
  }

  /** The policy that importing an archive stores. */
  function Import(lib: Library, web: Web, archive: string): Result<Policy> {
    match lib.unzip(archive)
    case None => Err(BadRequest)
    case Some(files) =>
      if |files| != 2 then Err(BadRequest)
      else if !VerifyBundle(lib, web, files[0], files[1]) then Err(Forbidden)
      else
        match lib.unzip(files[0].content)
        case None => Err(Failure)
        case Some(inner) => Rebuilt(lib, inner)
  }
}
