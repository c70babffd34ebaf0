/**
  The rotating identity as a step machine.

  Any number of reloaders and handshakes interleave with an environment that rewrites files at any
  moment, also between two reads of one load. The presented key and the peer anchors live in two
  separately stored cells; each stored value carries the number of the load it came from.
 */
module Rotation {
  import opened Wrappers
  import opened ClientIdentity

  datatype Env = Env(crypto: Crypto, cfg: Config)

  datatype Stamped<T> = Stamped(value: T, load: nat)

  /** The cells a rustls configuration points at. Copying a configuration copies these pointers. */
  datatype Refs = Refs(resolver: nat, verifier: nat)

  /** Where one call of `reload` stands. */
  datatype Phase =
    | Idle
    | Started
    | CertRead(cert: Bytes)
    | IdentityLoaded(files: Files, material: IdentityMaterial)
    | Prepared(load: nat, credentials: Credentials)
    | KeyStored(load: nat, anchors: Anchors)

  /** A handshake runs through a handle and logs every cell read it makes. */
  datatype Handshake = Handshake(
    handle: nat,
    keys: seq<Stamped<CertifiedKey>>,
    anchors: seq<Stamped<Anchors>>)

  /**
    `attempts[0]` is what the initial load read; every later entry is what one reload had read when
    its preparation ended, whether it succeeded or failed.
   */
  datatype State = State(
    disk: map<Path, Bytes>,
    keyCells: map<nat, Stamped<CertifiedKey>>,
    anchorCells: map<nat, Stamped<Anchors>>,
    source: Refs,
    handles: map<nat, Refs>,
    phases: map<nat, Phase>,
    handshakes: map<nat, Handshake>,
    attempts: seq<Files>)

  datatype Event =
    | Rewrite(path: Path, contents: Option<Bytes>)
    | Derive(parent: nat, child: nat)
    | Begin(handshake: nat, handle: nat)
    | Resolve(handshake: nat)
    | Verify(handshake: nat)
    | Start(reloader: nat)
    | ReadCert(reloader: nat)
    | ReadKey(reloader: nat)
    | BuildVerifier(reloader: nat)
    | StoreKey(reloader: nat)
    | StoreVerifier(reloader: nat)

  function Lookup(disk: map<Path, Bytes>, path: Path): Option<Bytes> {
    if path in disk then Some(disk[path]) else None
  }

  function CaFile(env: Env, disk: map<Path, Bytes>): Option<Bytes> {
    match env.cfg.rootCaPath
    case None => None
    case Some(path) => Lookup(disk, path)
  }

  function PhaseOf(s: State, r: nat): Phase {
    if r in s.phases then s.phases[r] else Idle
  }

  /** The root handle 0 is the cached HTTP client; others are clones and connectors made from it. */
  ghost predicate Init(env: Env, s: State) {
    && s.handles == map[0 := s.source]
    && s.phases == map[] && s.handshakes == map[]
    && |s.attempts| == 1
    && var initial := PrepareReload(env.crypto, env.cfg, s.attempts[0]);
       && initial.Success?
       && s.keyCells == map[s.source.resolver := Stamped(initial.value.key, 0)]
       && s.anchorCells == map[s.source.verifier := Stamped(initial.value.anchors, 0)]
  }

  predicate Enabled(s: State, e: Event) {
    match e
    case Rewrite(_, _) => true
    case Derive(parent, child) => parent in s.handles && child !in s.handles
    case Begin(h, handle) => h !in s.handshakes && handle in s.handles
    case Resolve(h) =>
      && h in s.handshakes && s.handshakes[h].handle in s.handles
      && s.handles[s.handshakes[h].handle].resolver in s.keyCells
    case Verify(h) =>
      && h in s.handshakes && s.handshakes[h].handle in s.handles
      && s.handles[s.handshakes[h].handle].verifier in s.anchorCells
    case Start(r) => PhaseOf(s, r).Idle?
    case ReadCert(r) => PhaseOf(s, r).Started?
    case ReadKey(r) => PhaseOf(s, r).CertRead?
    case BuildVerifier(r) => PhaseOf(s, r).IdentityLoaded?
    case StoreKey(r) => PhaseOf(s, r).Prepared?
    case StoreVerifier(r) => PhaseOf(s, r).KeyStored?
  }

  function SetPhase(s: State, r: nat, phase: Phase): State {
    s.(phases := s.phases[r := phase])
  }

  /** A failed preparation records what it read and installs nothing. */
  function Fail(s: State, r: nat, files: Files): State {
    SetPhase(s, r, Idle).(attempts := s.attempts + [files])
  }

  function Apply(env: Env, s: State, e: Event): State
    requires Enabled(s, e)
  {
    match e
    case Rewrite(path, contents) =>
      if contents.Some? then s.(disk := s.disk[path := contents.value]) else s.(disk := s.disk - {path})
    case Derive(parent, child) =>
      s.(handles := s.handles[child := s.handles[parent]])
    case Begin(h, handle) =>
      s.(handshakes := s.handshakes[h := Handshake(handle, [], [])])
    case Resolve(h) =>
      var hs := s.handshakes[h];
      s.(handshakes := s.handshakes[h := hs.(keys := hs.keys + [s.keyCells[s.handles[hs.handle].resolver]])])
    case Verify(h) =>
      var hs := s.handshakes[h];
      s.(handshakes :=
           s.handshakes[h := hs.(anchors := hs.anchors + [s.anchorCells[s.handles[hs.handle].verifier]])])
    case Start(r) =>
      SetPhase(s, r, Started)
    case ReadCert(r) =>
      var cert := Lookup(s.disk, env.cfg.certPath);
      if cert.None? then Fail(s, r, Files(None, None, None)) else SetPhase(s, r, CertRead(cert.value))
    case ReadKey(r) =>
      var files := Files(Some(PhaseOf(s, r).cert), Lookup(s.disk, env.cfg.keyPath), None);
      var material := LoadIdentityMaterial(env.crypto, files.cert, files.key);
      if material.Failure? then Fail(s, r, files) else SetPhase(s, r, IdentityLoaded(files, material.value))
    case BuildVerifier(r) =>
      var phase := PhaseOf(s, r);
      var files := phase.files.(ca := CaFile(env, s.disk));
      var key := CertifiedKeyFromMaterial(env.crypto, phase.material);
      var anchors := BuildPeerVerifier(env.crypto, env.cfg, files.ca);
      if key.Failure? || anchors.Failure? then Fail(s, r, files)
      else
        SetPhase(s, r, Prepared(|s.attempts|, Credentials(key.value, anchors.value)))
        .(attempts := s.attempts + [files])
    case StoreKey(r) =>
      var phase := PhaseOf(s, r);
      SetPhase(s, r, KeyStored(phase.load, phase.credentials.anchors))
      .(keyCells := s.keyCells[s.source.resolver := Stamped(phase.credentials.key, phase.load)])
    case StoreVerifier(r) =>
      var phase := PhaseOf(s, r);
      SetPhase(s, r, Idle)
      .(anchorCells := s.anchorCells[s.source.verifier := Stamped(phase.anchors, phase.load)])
  }

  /** States and the events that lead from each to the next. */
  ghost predicate Chain(env: Env, run: seq<State>, events: seq<Event>) {
    && |run| == |events| + 1
    && forall i :: 0 <= i < |events| ==> Enabled(run[i], events[i]) && run[i + 1] == Apply(env, run[i], events[i])
  }

  /** A finite run from an initial state. */
  ghost predicate IsRun(env: Env, run: seq<State>, events: seq<Event>) {
    Chain(env, run, events) && Init(env, run[0])
  }

  /** At most one reload is under way. */
  ghost predicate Serial(s: State) {
    forall r, q :: !PhaseOf(s, r).Idle? && !PhaseOf(s, q).Idle? ==> r == q
  }

  ghost predicate SerialRun(run: seq<State>) {
    forall i :: 0 <= i < |run| ==> Serial(run[i])
  }

  /** No reload is under way. */
  ghost predicate Quiescent(s: State) {
    forall r :: PhaseOf(s, r).Idle?
  }

  ghost predicate Validates(env: Env, s: State, load: nat) {
    load < |s.attempts| && PrepareReload(env.crypto, env.cfg, s.attempts[load]).Success?
  }

  ghost function CredentialsOf(env: Env, s: State, load: nat): Credentials
    requires Validates(env, s, load)
  {
    PrepareReload(env.crypto, env.cfg, s.attempts[load]).value
  }

  /** The last attempt that validated, scanning back from the end. */
  ghost function LastGood(env: Env, attempts: seq<Files>): (load: nat)
    requires attempts != [] && PrepareReload(env.crypto, env.cfg, attempts[0]).Success?
    ensures load < |attempts| && PrepareReload(env.crypto, env.cfg, attempts[load]).Success?
    ensures forall j :: load < j < |attempts| ==> PrepareReload(env.crypto, env.cfg, attempts[j]).Failure?
  {
    var last := |attempts| - 1;
    if PrepareReload(env.crypto, env.cfg, attempts[last]).Success? then last
    else LastGood(env, attempts[..last])
  }

  // What every interleaving keeps.

  ghost predicate KeyFromLoad(env: Env, s: State, key: Stamped<CertifiedKey>) {
    Validates(env, s, key.load) && key.value == CredentialsOf(env, s, key.load).key
  }

  ghost predicate AnchorsFromLoad(env: Env, s: State, anchors: Stamped<Anchors>) {
    Validates(env, s, anchors.load) && anchors.value == CredentialsOf(env, s, anchors.load).anchors
  }

  /** What a reload under way has validated so far is what `PrepareReload` says of the bytes it read. */
  ghost predicate PhaseFromFiles(env: Env, s: State, phase: Phase) {
    match phase
    case IdentityLoaded(files, material) =>
      files.ca.None? && LoadIdentityMaterial(env.crypto, files.cert, files.key) == Success(material)
    case Prepared(load, credentials) =>
      Validates(env, s, load) && credentials == CredentialsOf(env, s, load)
    case KeyStored(load, anchors) =>
      Validates(env, s, load) && anchors == CredentialsOf(env, s, load).anchors
    case _ => true
  }

  ghost predicate HandshakeFromLoads(env: Env, s: State, hs: Handshake) {
    && hs.handle in s.handles
    && (forall i :: 0 <= i < |hs.keys| ==> KeyFromLoad(env, s, hs.keys[i]))
    && (forall i :: 0 <= i < |hs.anchors| ==> AnchorsFromLoad(env, s, hs.anchors[i]))
  }

  ghost predicate Inv(env: Env, s: State) {
    && Validates(env, s, 0)
    && s.keyCells.Keys == {s.source.resolver} && KeyFromLoad(env, s, s.keyCells[s.source.resolver])
    && s.anchorCells.Keys == {s.source.verifier} && AnchorsFromLoad(env, s, s.anchorCells[s.source.verifier])
    && 0 in s.handles
    && (forall h :: h in s.handles ==> s.handles[h] == s.source)
    && (forall r :: PhaseFromFiles(env, s, PhaseOf(s, r)))
    && (forall h :: h in s.handshakes ==> HandshakeFromLoads(env, s, s.handshakes[h]))
  }

  function Presented(s: State): Stamped<CertifiedKey>
    requires s.source.resolver in s.keyCells
  {
    s.keyCells[s.source.resolver]
  }

  function Trusted(s: State): Stamped<Anchors>
    requires s.source.verifier in s.anchorCells
  {
    s.anchorCells[s.source.verifier]
  }

  /** Some reload has stored its key and not yet its verifier. */
  ghost predicate BetweenStores(s: State) {
    exists r :: PhaseOf(s, r).KeyStored?
  }

  /** Some reload has validated everything and stored nothing yet. */
  ghost predicate AwaitingStores(s: State) {
    exists r :: PhaseOf(s, r).Prepared?
  }

  /** No reload is past preparation. */
  ghost predicate NothingPrepared(s: State) {
    forall r :: !PhaseOf(s, r).Prepared? && !PhaseOf(s, r).KeyStored?
  }

  /** How the cells relate to the attempts when reloads are serial. */
  ghost predicate SerialInv(env: Env, s: State)
    requires Inv(env, s)
  {
    && (NothingPrepared(s) ==> Presented(s).load == Trusted(s).load == LastGood(env, s.attempts))
    && forall r ::
         match PhaseOf(s, r)
         case Prepared(load, _) =>
           && load == |s.attempts| - 1 > 0
           && Presented(s).load == Trusted(s).load == LastGood(env, s.attempts[..load])
         case KeyStored(load, _) =>
           && Presented(s).load == load == |s.attempts| - 1 > 0
           && Trusted(s).load == LastGood(env, s.attempts[..load])
         case _ => true
  }
}
