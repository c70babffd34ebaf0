/** The source object: two swappable cells, and the transports that share them. */
module IdentitySource {
  import opened Wrappers
  import opened ClientIdentity

  /** An atomically replaceable value. */
  class ArcSwap<T> {
    var current: T

    constructor (initial: T)
      ensures current == initial
    {
      current := initial;
    }

    method Store(value: T)
      modifies this
      ensures current == value
    {
      current := value;
    }

    method Load() returns (value: T)
      ensures value == current
    {
      value := current;
    }
  }

  /** A rustls client configuration: copying it copies the two pointers, not what they hold. */
  datatype ClientConfig = ClientConfig(
    resolver: ArcSwap<CertifiedKey>,
    verifier: ArcSwap<Anchors>,
    alpn: seq<string>)

  const HTTP_ALPN: seq<string> := ["h2", "http/1.1"]

  class ClientIdentitySource {
    const crypto: Crypto
    const origin: Config
    const resolver: ArcSwap<CertifiedKey>
    const verifier: ArcSwap<Anchors>
    const tls: ClientConfig
    const client: ClientConfig

    /** A configuration that rotates with this source. */
    ghost predicate Shares(config: ClientConfig) {
      config.resolver == resolver && config.verifier == verifier
    }

    ghost predicate Valid()
      reads resolver, verifier
    {
      && Shares(tls) && Shares(client)
      && GoodKey(crypto, resolver.current)
      && GoodAnchors(crypto, origin, verifier.current)
    }

    constructor (crypto: Crypto, origin: Config, files: Files)
      requires PrepareReload(crypto, origin, files).Success?
      ensures Valid() && fresh(resolver) && fresh(verifier)
      ensures this.crypto == crypto && this.origin == origin
      ensures Credentials(resolver.current, verifier.current) == PrepareReload(crypto, origin, files).value
      ensures tls.alpn == [] && client.alpn == ["h2", "http/1.1"]
    {
      PrepareSucceedsExactly(crypto, origin, files);
      var loaded := PrepareReload(crypto, origin, files).value;
      var keyCell := new ArcSwap(loaded.key);
      var anchorCell := new ArcSwap(loaded.anchors);
      this.crypto, this.origin := crypto, origin;
      resolver, verifier := keyCell, anchorCell;
      tls := ClientConfig(keyCell, anchorCell, []);
      client := ClientConfig(keyCell, anchorCell, HTTP_ALPN);
    }

    /**
      Either a source presenting a usable identity, or the error of the first step that failed and no source
      at all. `clientBuilds` is the HTTP library's answer to the assembled configuration.
     */
    static method FromConfig(crypto: Crypto, config: Config, files: Files, clientBuilds: bool)
      returns (r: Result<ClientIdentitySource, LoadError>)
      ensures r.Success? <==>
              IdentityValidates(crypto, files) && AnchorsValidate(crypto, config, files) && clientBuilds
      ensures r.Failure? ==>
                PrepareReload(crypto, config, files) == Failure(r.error)
                || (PrepareReload(crypto, config, files).Success? && r.error == ClientUnbuildable)
      ensures r.Success? ==> r.value.Valid() && fresh(r.value) && r.value.crypto == crypto && r.value.origin == config
      ensures r.Success? ==>
                HeldBy(crypto, config, files, Credentials(r.value.resolver.current, r.value.verifier.current))
      ensures r.Success? ==> r.value.tls.alpn == [] && r.value.client.alpn == ["h2", "http/1.1"]
    {
      PrepareSucceedsExactly(crypto, config, files);
      var loaded := PrepareReload(crypto, config, files);
      if loaded.Failure? {
        return Failure(loaded.error);
      }
      if !clientBuilds {
        return Failure(ClientUnbuildable);
      }
      var source := new ClientIdentitySource(crypto, config, files);
      r := Success(source);
    }

    /**
      All or nothing: when both halves validate, every configuration sharing this source's cells
      presents the new key and trusts the new anchors; otherwise neither cell changes.
     */
    method Reload(files: Files) returns (r: Result<(), LoadError>)
      requires Valid()
      modifies resolver, verifier
      ensures Valid()
      ensures r.Success? <==> IdentityValidates(crypto, files) && AnchorsValidate(crypto, origin, files)
      ensures r.Failure? ==> unchanged(resolver) && unchanged(verifier)
                             && PrepareReload(crypto, origin, files) == Failure(r.error)
      ensures r.Success? ==> forall config: ClientConfig {:trigger Shares(config)} :: Shares(config) ==>
                HeldBy(crypto, origin, files, Credentials(config.resolver.current, config.verifier.current))
    {
      PrepareSucceedsExactly(crypto, origin, files);
      var prepared := PrepareReload(crypto, origin, files);
      match prepared
      case Failure(e) =>
        r := Failure(e);
      case Success(credentials) =>
        resolver.Store(credentials.key);
        verifier.Store(credentials.anchors);
        r := Success(());
    }

    /** A transport's configuration: this source's cells under the given protocol list. */
    method TlsConfigWithAlpn(alpn: seq<string>) returns (config: ClientConfig)
      requires Valid()
      ensures Shares(config) && config.alpn == alpn
    {
      config := tls.(alpn := alpn);
    }

    /** What the next handshake presents: always some key, and always a usable one. */
    method Resolve() returns (presented: Option<CertifiedKey>)
      requires Valid()
      ensures presented.Some? && GoodKey(crypto, presented.value)
      ensures presented.value == resolver.current
    {
      var key := resolver.Load();
      presented := Some(key);
    }
  }
}
