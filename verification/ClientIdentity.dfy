/**
  Loading a client identity: certificate chain, private key and peer trust anchors.

  Parsing, key loading and the key-pair check belong to foreign libraries. They are the function
  fields of `Crypto`, so every statement below holds for whatever those libraries answer.
 */
module ClientIdentity {
  import opened Wrappers

  type Byte = b: int | 0 <= b < 256
  type Bytes = seq<Byte>
  type Path = string

  /** The part of the client-identity section that the loaders consult. */
  datatype Config = Config(certPath: Path, keyPath: Path, rootCaPath: Option<Path>, exclusiveRoots: bool)

  /** The foreign operations. `None` and `false` stand for the library's error. */
  datatype Crypto = Crypto(
    parseCertificates: Bytes -> Option<seq<Bytes>>,
    parsePrivateKey: Bytes -> Option<Bytes>,
    loadSigningKey: Bytes -> Option<Bytes>,
    keysMatch: (seq<Bytes>, Bytes) -> bool,
    acceptsAnchor: Bytes -> bool,
    webPkiRoots: seq<Bytes>)

  /** What the reads of one load returned; `None` is a file that was unreadable or never read. */
  datatype Files = Files(cert: Option<Bytes>, key: Option<Bytes>, ca: Option<Bytes>)

  datatype IdentityMaterial = IdentityMaterial(certPem: Bytes, keyPem: Bytes, chain: seq<Bytes>, key: Bytes)
  datatype CertifiedKey = CertifiedKey(chain: seq<Bytes>, signingKey: Bytes)
  type Anchors = seq<Bytes>
  datatype Credentials = Credentials(key: CertifiedKey, anchors: Anchors)

  datatype LoadError =
    | CertUnreadable | KeyUnreadable | CertUnparsable | NoCertificates | KeyUnparsable
    | KeyUnusable | KeyMismatch
    | CaUnreadable | CaUnparsable | CaWithoutCertificates | CaRejected | NoAnchors
    | ClientUnbuildable

  /** Build the key a handshake presents, checking that it belongs to the leaf. */
  function CertifiedKeyFromMaterial(c: Crypto, material: IdentityMaterial): Result<CertifiedKey, LoadError>
  {
    match c.loadSigningKey(material.key)
    case None => Failure(KeyUnusable)
    case Some(signingKey) =>
      if c.keysMatch(material.chain, signingKey)
      then Success(CertifiedKey(material.chain, signingKey))
      else Failure(KeyMismatch)
  }

  function LoadIdentityMaterial(c: Crypto, certFile: Option<Bytes>, keyFile: Option<Bytes>)
    : Result<IdentityMaterial, LoadError>
  {
    if certFile.None? then Failure(CertUnreadable)
    else if keyFile.None? then Failure(KeyUnreadable)
    else
      match c.parseCertificates(certFile.value)
      case None => Failure(CertUnparsable)
      case Some(chain) =>
        if chain == [] then Failure(NoCertificates)
        else
          match c.parsePrivateKey(keyFile.value)
          case None => Failure(KeyUnparsable)
          case Some(key) =>
            var material := IdentityMaterial(certFile.value, keyFile.value, chain, key);
            var _ :- CertifiedKeyFromMaterial(c, material);
            Success(material)
  }

  /** The shared bundle loader: readable, parsed, non-empty, every certificate usable as an anchor. */
  function LoadRootStore(c: Crypto, caFile: Option<Bytes>): Result<Anchors, LoadError>
  {
    if caFile.None? then Failure(CaUnreadable)
    else
      match c.parseCertificates(caFile.value)
      case None => Failure(CaUnparsable)
      case Some(certs) =>
        if certs == [] then Failure(CaWithoutCertificates)
        else if exists i :: 0 <= i < |certs| && !c.acceptsAnchor(certs[i]) then Failure(CaRejected)
        else Success(certs)
  }

  function BuildRootStore(c: Crypto, cfg: Config, caFile: Option<Bytes>): Result<Anchors, LoadError>
  {
    if cfg.rootCaPath.None? then Success(c.webPkiRoots)
    else
      var peerRoots :- LoadRootStore(c, caFile);
      Success((if cfg.exclusiveRoots then [] else c.webPkiRoots) + peerRoots)
  }

  /** The verifier is identified with the anchors it was built from; an empty set does not build. */
  function BuildPeerVerifier(c: Crypto, cfg: Config, caFile: Option<Bytes>): Result<Anchors, LoadError>
  {
    var roots :- BuildRootStore(c, cfg, caFile);
    if roots == [] then Failure(NoAnchors) else Success(roots)
  }

  /** Everything a reload validates before it installs anything. */
  function PrepareReload(c: Crypto, cfg: Config, files: Files): Result<Credentials, LoadError>
  {
    var material :- LoadIdentityMaterial(c, files.cert, files.key);
    var key :- CertifiedKeyFromMaterial(c, material);
    var anchors :- BuildPeerVerifier(c, cfg, files.ca);
    Success(Credentials(key, anchors))
  }

  // What a usable identity is, said without the loaders.

  ghost predicate GoodKey(c: Crypto, key: CertifiedKey) {
    key.chain != [] && c.keysMatch(key.chain, key.signingKey)
  }

  ghost predicate GoodBundle(c: Crypto, bundle: seq<Bytes>) {
    bundle != [] && forall i :: 0 <= i < |bundle| ==> c.acceptsAnchor(bundle[i])
  }

  ghost predicate GoodAnchors(c: Crypto, cfg: Config, anchors: Anchors) {
    && anchors != []
    && (cfg.rootCaPath.None? ==> anchors == c.webPkiRoots)
    && (cfg.rootCaPath.Some? ==>
          exists bundle :: GoodBundle(c, bundle) &&
                           anchors == (if cfg.exclusiveRoots then [] else c.webPkiRoots) + bundle)
  }

  /** The certificate and key files hold a parsed, non-empty, matching pair. */
  ghost predicate IdentityValidates(c: Crypto, files: Files) {
    && files.cert.Some? && files.key.Some?
    && var chain := c.parseCertificates(files.cert.value);
       var key := c.parsePrivateKey(files.key.value);
       && chain.Some? && chain.value != []
       && key.Some?
       && var signing := c.loadSigningKey(key.value);
          signing.Some? && c.keysMatch(chain.value, signing.value)
  }

  /** The peer CA is absent from the configuration, or names a readable usable bundle. */
  ghost predicate AnchorsValidate(c: Crypto, cfg: Config, files: Files) {
    if cfg.rootCaPath.None? then c.webPkiRoots != []
    else
      && files.ca.Some?
      && c.parseCertificates(files.ca.value).Some?
      && GoodBundle(c, c.parseCertificates(files.ca.value).value)
  }

  /**
    The credentials that validated files hold: the whole chain of the certificate file under the key file's
    signing key, and as anchors the built-in roots, every certificate of the CA file, or both in that order.
   */
  ghost predicate HeldBy(c: Crypto, cfg: Config, files: Files, r: Credentials)
    requires IdentityValidates(c, files) && AnchorsValidate(c, cfg, files)
  {
    && r.key.chain == c.parseCertificates(files.cert.value).value
    && r.key.signingKey == c.loadSigningKey(c.parsePrivateKey(files.key.value).value).value
    && (cfg.rootCaPath.None? ==> r.anchors == c.webPkiRoots)
    && (cfg.rootCaPath.Some? && cfg.exclusiveRoots ==> r.anchors == c.parseCertificates(files.ca.value).value)
    && (cfg.rootCaPath.Some? && !cfg.exclusiveRoots ==>
          r.anchors == c.webPkiRoots + c.parseCertificates(files.ca.value).value)
  }

  /**
    Preparation succeeds exactly when both halves validate, then yields exactly the credentials the files hold,
    and these are usable.
   */
  lemma PrepareSucceedsExactly(c: Crypto, cfg: Config, files: Files)
    ensures PrepareReload(c, cfg, files).Success? <==>
            IdentityValidates(c, files) && AnchorsValidate(c, cfg, files)
    ensures PrepareReload(c, cfg, files).Success? ==>
              var r := PrepareReload(c, cfg, files).value;
              HeldBy(c, cfg, files, r) && GoodKey(c, r.key) && GoodAnchors(c, cfg, r.anchors)
  {
    if PrepareReload(c, cfg, files).Success? && cfg.rootCaPath.Some? {
      assert GoodBundle(c, c.parseCertificates(files.ca.value).value);
    }
  }

  /** Each failure is reported as what is wrong with the files, the first in the order they are looked at. */
  lemma PrepareErrorsExactly(c: Crypto, cfg: Config, files: Files)
    ensures PrepareReload(c, cfg, files) == Failure(CertUnreadable) <==> files.cert.None?
    ensures PrepareReload(c, cfg, files) == Failure(KeyUnreadable) <==> files.cert.Some? && files.key.None?
    ensures files.cert.Some? && files.key.Some? ==>
              var chain, key := c.parseCertificates(files.cert.value), c.parsePrivateKey(files.key.value);
              && (PrepareReload(c, cfg, files) == Failure(CertUnparsable) <==> chain.None?)
              && (PrepareReload(c, cfg, files) == Failure(NoCertificates) <==> chain == Some([]))
              && (PrepareReload(c, cfg, files) == Failure(KeyUnparsable) <==>
                  chain.Some? && chain.value != [] && key.None?)
              && (chain.Some? && chain.value != [] && key.Some? ==>
                    var signing := c.loadSigningKey(key.value);
                    && (PrepareReload(c, cfg, files) == Failure(KeyUnusable) <==> signing.None?)
                    && (PrepareReload(c, cfg, files) == Failure(KeyMismatch) <==>
                        signing.Some? && !c.keysMatch(chain.value, signing.value)))
    ensures IdentityValidates(c, files) ==>
              && (PrepareReload(c, cfg, files) == Failure(NoAnchors) <==> cfg.rootCaPath.None? && c.webPkiRoots == [])
              && (PrepareReload(c, cfg, files) == Failure(CaUnreadable) <==> cfg.rootCaPath.Some? && files.ca.None?)
    ensures IdentityValidates(c, files) && cfg.rootCaPath.Some? && files.ca.Some? ==>
              var bundle := c.parseCertificates(files.ca.value);
              && (PrepareReload(c, cfg, files) == Failure(CaUnparsable) <==> bundle.None?)
              && (PrepareReload(c, cfg, files) == Failure(CaWithoutCertificates) <==> bundle == Some([]))
              && (PrepareReload(c, cfg, files) == Failure(CaRejected) <==>
                  bundle.Some? && exists i :: 0 <= i < |bundle.value| && !c.acceptsAnchor(bundle.value[i]))
  {
  }
}
