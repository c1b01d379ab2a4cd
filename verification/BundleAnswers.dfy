/** What exports, key requests and imports answer, told from the libraries' functions and the literal names. */
module BundleAnswers {
  import opened Wrappers
  import opened Policies
  import opened Strings
  import opened Escaping
  import opened Bundles
  import opened BundleResults

  /** White space, by code point. */
  lemma SpaceTable(c: char)
    ensures IsSpace(c) <==>
            || c as int in {9, 10, 11, 12, 13, 32, 0x85, 0xA0, 0x1680, 0x2028, 0x2029, 0x202F, 0x205F, 0x3000}
            || 0x2000 <= c as int <= 0x200A
  {
  }

  // ------------------------------------------------------------------------
  // Import
  // ------------------------------------------------------------------------

  /** An archive that does not unzip to two files is malformed. */
  lemma MalformedImport(lib: Library, web: Web, archive: string)
    ensures Import(lib, web, archive) == Err(BadRequest) <==>
            lib.unzip(archive).None? || |lib.unzip(archive).value| != 2
  {
  }

  /** No import succeeds, and none fails otherwise than forbidden, unless the two files have their names, the
      metadata comes first and decodes, there is a key under the URL it gives, and the verification of that
      key's type accepts the signature: of the digest of the digest for EC and RSA keys, of the digest for OKP
      keys. A key of any other type is refused. */
  lemma ForgedImportIsRefused(lib: Library, web: Web, archive: string)
    requires lib.unzip(archive).Some? && |lib.unzip(archive).value| == 2
    requires Import(lib, web, archive) != Err(Forbidden)
    ensures
      var bundle, signature := lib.unzip(archive).value[0], lib.unzip(archive).value[1];
      var files := lib.unzip(bundle.content);
      && bundle.name == "policy_bundle.zip" && signature.name == "signature.raw"
      && files.Some? && files.value != [] && files.value[0].name == "metadata.json"
      && var metadata := lib.decode(files.value[0].content);
      && metadata.Some?
      && var keys := web(metadata.value.publicKeyURL);
      && keys.Some? && keys.value != []
      && var k := keys.value[0];
      && (k.keyType == EC ==> lib.verifyECDSA(k, lib.digest(lib.digest(bundle.content)), signature.content))
      && (k.keyType == OKP ==> lib.verifyED25519(k, lib.digest(bundle.content), signature.content))
      && (k.keyType == RSA ==> lib.verifyPSS(k, lib.digest(lib.digest(bundle.content)), signature.content))
      && k.keyType != OtherType
  {
  }

  /** When all of that holds, the import is not forbidden: it gives what the bundle's files rebuild to, and
      fails only on metadata that does not decode. */
  lemma SignedImportSucceeds(lib: Library, web: Web, archive: string, bundle: File, signature: File, files: seq<File>,
                             metadata: Metadata, keys: seq<PublicKey>)
    requires lib.unzip(archive) == Some([bundle, signature])
    requires bundle.name == "policy_bundle.zip" && signature.name == "signature.raw"
    requires lib.unzip(bundle.content) == Some(files) && files != [] && files[0].name == "metadata.json"
    requires lib.decode(files[0].content) == Some(metadata)
    requires web(metadata.publicKeyURL) == Some(keys) && keys != []
    requires
      var k := keys[0];
      || (k.keyType == EC && lib.verifyECDSA(k, lib.digest(lib.digest(bundle.content)), signature.content))
      || (k.keyType == OKP && lib.verifyED25519(k, lib.digest(bundle.content), signature.content))
      || (k.keyType == RSA && lib.verifyPSS(k, lib.digest(lib.digest(bundle.content)), signature.content))
    ensures Import(lib, web, archive) == Rebuilt(lib, files)
    ensures Import(lib, web, archive).Ok? <==>
            forall f :: f in files && f.name == "metadata.json" ==> lib.decode(f.content).Some?
  {
  }

  /** The parts of the policy that the files rebuild to, by the literal names of the files. */
  lemma RebuiltParts(lib: Library, files: seq<File>)
    ensures Rebuilt(lib, files).Ok? <==> forall f :: f in files && f.name == "metadata.json" ==> lib.decode(f.content).Some?
    ensures Rebuilt(lib, files).Err? ==> Rebuilt(lib, files) == Err(Failure)
    ensures Rebuilt(lib, []) == Ok(Policy("", "", "", "", "", "", "", "", "", "", false, 0, 0))
  {
  }

  /** The policy with the parts that the metadata gives. */
  function Described(p: Policy, m: Metadata): Policy {
    p.(repository := m.id.repository, group := m.id.group, name := m.id.name, version := m.id.version,
       locked := m.locked, lastUpdate := m.lastUpdate,
       filename := m.id.group + "/" + m.id.name + "/" + m.id.version + "/policy.rego")
  }

  /** What becomes of a policy and one more file. */
  function Taken(lib: Library, p: Policy, f: File): Result<Policy> {
    if f.name == "policy.rego" then Ok(p.(rego := f.content))
    else if f.name == "data.json" then Ok(p.(data := f.content))
    else if f.name == "data-config.json" then Ok(p.(dataConfig := f.content))
    else if f.name == "output-schema.json" then Ok(p.(outputSchema := f.content))
    else if f.name == "export-config.json" then Ok(p.(exportConfig := f.content))
    else if f.name != "metadata.json" then Ok(p)
    else if lib.decode(f.content).None? then Err(Failure)
    else Ok(Described(p, lib.decode(f.content).value))
  }

  lemma FilenameIs(id: Identity)
    ensures PolicyFilename(id) == id.group + "/" + id.name + "/" + id.version + "/policy.rego"
  {
  }

  lemma WithFileIsTaken(lib: Library, p: Policy, f: File)
    ensures WithFile(lib, p, f) == Taken(lib, p, f)
  {
    if lib.decode(f.content).Some? {
      FilenameIs(lib.decode(f.content).value.id);
      hide PolicyFilename;
    }
  }

  /** One more file changes the part of its name and nothing else, and files of other names nothing at all. */
  lemma OneMoreFile(lib: Library, files: seq<File>, f: File)
    requires Rebuilt(lib, files).Ok?
    ensures Rebuilt(lib, files + [f]) == Taken(lib, Rebuilt(lib, files).value, f)
  {
    RebuiltMore(lib, files, f);
    hide Rebuilt, WithFile, Taken;
    WithFileIsTaken(lib, Rebuilt(lib, files).value, f);
  }

  // ------------------------------------------------------------------------
  // Export
  // ------------------------------------------------------------------------

  predicate OnlySpace(s: string) {
    forall c :: c in s ==> IsSpace(c)
  }

  lemma BlankIsOnlySpace(s: string)
    ensures Blank(s) <==> OnlySpace(s)
  {
    if Blank(s) {
      forall c | c in s
        ensures IsSpace(c)
      {
        var i :| 0 <= i < |s| && s[i] == c;
      }
    }
  }

  /** What a key request answers: the signer's key for the stored export configuration. */
  lemma PublicKeyAnswers(lib: Library, stored: Option<Policy>)
    ensures
      var res := PolicyPublicKey(lib, stored);
      && (stored.None? ==> res == Err(NotFound))
      && (stored.Some? && OnlySpace(stored.value.exportConfig) ==> res == Err(Forbidden))
      && (stored.Some? && !OnlySpace(stored.value.exportConfig) ==>
            var cfg := lib.parseExport(stored.value.exportConfig);
            res == if cfg.Some? && lib.key(cfg.value).Some? then Ok(lib.key(cfg.value).value) else Err(Failure))
  {
    if stored.Some? {
      BlankIsOnlySpace(stored.value.exportConfig);
    }
  }

  /** The literal metadata of a policy on a host. */
  function PolicyMetadata(host: string, p: Policy): Metadata {
    Metadata(Identity(p.repository, p.group, p.name, p.version), p.locked, p.lastUpdate,
             host + "/policy/" + p.repository + "/" + p.group + "/" + p.name + "/" + p.version + "/key")
  }

  /** The literal files of a bundle, with the optional ones that are not blank. */
  function Files(metadata: string, p: Policy): seq<File> {
    [File("metadata.json", metadata), File("policy.rego", p.rego)]
    + (if OnlySpace(p.data) then [] else [File("data.json", p.data)])
    + (if OnlySpace(p.dataConfig) then [] else [File("data-config.json", p.dataConfig)])
    + (if OnlySpace(p.outputSchema) then [] else [File("output-schema.json", p.outputSchema)])
    + (if OnlySpace(p.exportConfig) then [] else [File("export-config.json", p.exportConfig)])
  }

  lemma BundleFilesAre(metadata: string, p: Policy)
    ensures BundleFiles(metadata, p) == Files(metadata, p)
  {
    BlankIsOnlySpace(p.data);
    BlankIsOnlySpace(p.dataConfig);
    BlankIsOnlySpace(p.outputSchema);
    BlankIsOnlySpace(p.exportConfig);
    hide Blank, OnlySpace;
  }

  /** An export without a policy, or without an export configuration, says so. */
  lemma RefusedExport(lib: Library, host: string, stored: Option<Policy>)
    ensures Export(lib, host, stored) == Err(NotFound) <==> stored.None?
    ensures Export(lib, host, stored) == Err(Forbidden) <==> stored.Some? && OnlySpace(stored.value.exportConfig)
  {
    if stored.Some? {
      BlankIsOnlySpace(stored.value.exportConfig);
      hide Blank, OnlySpace, Bundle;
    }
  }

  /** An export succeeds with an archive exactly when its configuration decodes, its metadata encodes, its
      files zip to a bundle, the signer signs the digest of the bundle with the configured key, and bundle and
      signature zip to the archive. */
  lemma ExportsIff(lib: Library, host: string, p: Policy, archive: string)
    ensures Export(lib, host, Some(p)) == Ok(archive) <==>
            exists cfg, metadata, bundle, signature ::
              ExportedFrom(lib, host, p, archive, cfg, metadata, bundle, signature)
  {
    BlankIsOnlySpace(p.exportConfig);
    assert MetadataOf(host, p) == PolicyMetadata(host, p);
    if Export(lib, host, Some(p)) == Ok(archive) {
      var cfg, metadata := lib.parseExport(p.exportConfig).value, lib.encode(MetadataOf(host, p)).value;
      BundleFilesAre(metadata, p);
      var bundle := Bundle(lib, host, p).value;
      assert ExportedFrom(lib, host, p, archive, cfg, metadata, bundle, lib.sign(cfg, lib.digest(bundle)).value);
    }
    forall cfg, metadata, bundle, signature | ExportedFrom(lib, host, p, archive, cfg, metadata, bundle, signature)
      ensures Export(lib, host, Some(p)) == Ok(archive)
    {
      BundleFilesAre(metadata, p);
    }
  }

  predicate ExportedFrom(lib: Library, host: string, p: Policy, archive: string,
                         cfg: ExportConfig, metadata: string, bundle: string, signature: string)
  {
    && !OnlySpace(p.exportConfig) && lib.parseExport(p.exportConfig) == Some(cfg)
    && lib.encode(PolicyMetadata(host, p)) == Some(metadata)
    && lib.zip(Files(metadata, p)) == Some(bundle)
    && lib.sign(cfg, lib.digest(bundle)) == Some(signature)
    && lib.zip([File("policy_bundle.zip", bundle), File("signature.raw", signature)]) == Some(archive)
  }
}
