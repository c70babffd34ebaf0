/** What each step does to the state, stated once so that the proofs above it need not unfold the machine. */
module RotationSteps {
  import opened Wrappers
  import opened ClientIdentity
  import opened Rotation

  /** What a load finds when nothing rewrites files while it reads. */
  function OnDisk(env: Env, disk: map<Path, Bytes>): Files {
    var cfg := env.cfg;
    Files(if cfg.certPath in disk then Some(disk[cfg.certPath]) else None,
          if cfg.keyPath in disk then Some(disk[cfg.keyPath]) else None,
          if cfg.rootCaPath.Some? && cfg.rootCaPath.value in disk then Some(disk[cfg.rootCaPath.value]) else None)
  }

  /** A step that neither reads files nor stores credentials. */
  predicate Passive(e: Event) {
    e.Rewrite? || e.Derive? || e.Begin? || e.Resolve? || e.Verify? || e.Start?
  }

  predicate Reading(e: Event) {
    e.ReadCert? || e.ReadKey? || e.BuildVerifier?
  }

  predicate Storing(e: Event) {
    e.StoreKey? || e.StoreVerifier?
  }

  lemma PassiveEffect(env: Env, s: State, e: Event)
    requires Enabled(s, e) && Passive(e)
    ensures var t := Apply(env, s, e);
            && t == s.(disk := t.disk, handles := t.handles, handshakes := t.handshakes, phases := t.phases)
            && t.phases == (if e.Start? then s.phases[e.reloader := Started] else s.phases)
            && t.handles == (if e.Derive? then s.handles[e.child := s.handles[e.parent]] else s.handles)
            && (e.Rewrite? || e.Derive? || e.Start? ==> t.handshakes == s.handshakes)
            && (!e.Rewrite? ==> t.disk == s.disk)
  {
  }

  lemma StartEffect(env: Env, s: State, r: nat)
    requires Enabled(s, Start(r))
    ensures Apply(env, s, Start(r)) == SetPhase(s, r, Started)
  {
    hide LoadIdentityMaterial, CertifiedKeyFromMaterial, BuildPeerVerifier;
  }

  lemma BeginEffect(env: Env, s: State, h: nat, handle: nat)
    requires Enabled(s, Begin(h, handle))
    ensures Apply(env, s, Begin(h, handle)) == s.(handshakes := s.handshakes[h := Handshake(handle, [], [])])
  {
    hide LoadIdentityMaterial, CertifiedKeyFromMaterial, BuildPeerVerifier;
  }

  lemma ResolveEffect(env: Env, s: State, h: nat)
    requires Enabled(s, Resolve(h))
    ensures var hs := s.handshakes[h];
            Apply(env, s, Resolve(h)) == s.(handshakes :=
              s.handshakes[h := hs.(keys := hs.keys + [s.keyCells[s.handles[hs.handle].resolver]])])
  {
    hide LoadIdentityMaterial, CertifiedKeyFromMaterial, BuildPeerVerifier;
  }

  lemma VerifyEffect(env: Env, s: State, h: nat)
    requires Enabled(s, Verify(h))
    ensures var hs := s.handshakes[h];
            Apply(env, s, Verify(h)) == s.(handshakes :=
              s.handshakes[h := hs.(anchors := hs.anchors + [s.anchorCells[s.handles[hs.handle].verifier]])])
  {
    hide LoadIdentityMaterial, CertifiedKeyFromMaterial, BuildPeerVerifier;
  }

  lemma ReadCertEffect(env: Env, s: State, r: nat)
    requires Enabled(s, ReadCert(r))
    ensures var cert := Lookup(s.disk, env.cfg.certPath);
            Apply(env, s, ReadCert(r)) ==
            if cert.None? then Fail(s, r, Files(None, None, None)) else SetPhase(s, r, CertRead(cert.value))
  {
    hide LoadIdentityMaterial, CertifiedKeyFromMaterial, BuildPeerVerifier;
  }

  lemma ReadKeyEffect(env: Env, s: State, r: nat)
    requires Enabled(s, ReadKey(r))
    ensures var files := Files(Some(PhaseOf(s, r).cert), Lookup(s.disk, env.cfg.keyPath), None);
            var material := LoadIdentityMaterial(env.crypto, files.cert, files.key);
            Apply(env, s, ReadKey(r)) ==
            if material.Failure? then Fail(s, r, files) else SetPhase(s, r, IdentityLoaded(files, material.value))
  {
    hide LoadIdentityMaterial, CertifiedKeyFromMaterial, BuildPeerVerifier;
  }

  /** The last step of a preparation does what the one-shot preparation says of the bytes read. */
  lemma BuildVerifierEffect(env: Env, s: State, r: nat)
    requires Enabled(s, BuildVerifier(r)) && PhaseFromFiles(env, s, PhaseOf(s, r))
    ensures var files := PhaseOf(s, r).files.(ca := OnDisk(env, s.disk).ca);
            var prepared := PrepareReload(env.crypto, env.cfg, files);
            Apply(env, s, BuildVerifier(r)) ==
            if prepared.Failure? then Fail(s, r, files)
            else SetPhase(s, r, Prepared(|s.attempts|, prepared.value)).(attempts := s.attempts + [files])
  {
    hide LoadIdentityMaterial, CertifiedKeyFromMaterial, BuildPeerVerifier;
  }

  lemma StoreKeyEffect(env: Env, s: State, r: nat)
    requires Enabled(s, StoreKey(r))
    ensures var phase := PhaseOf(s, r);
            Apply(env, s, StoreKey(r)) ==
            SetPhase(s, r, KeyStored(phase.load, phase.credentials.anchors))
            .(keyCells := s.keyCells[s.source.resolver := Stamped(phase.credentials.key, phase.load)])
  {
    hide LoadIdentityMaterial, CertifiedKeyFromMaterial, BuildPeerVerifier;
  }

  lemma StoreVerifierEffect(env: Env, s: State, r: nat)
    requires Enabled(s, StoreVerifier(r))
    ensures var phase := PhaseOf(s, r);
            Apply(env, s, StoreVerifier(r)) ==
            SetPhase(s, r, Idle)
            .(anchorCells := s.anchorCells[s.source.verifier := Stamped(phase.anchors, phase.load)])
  {
    hide LoadIdentityMaterial, CertifiedKeyFromMaterial, BuildPeerVerifier;
  }

  /** Files whose certificate and key do not load never validate. */
  lemma IdentityMustLoad(env: Env, files: Files)
    requires LoadIdentityMaterial(env.crypto, files.cert, files.key).Failure?
    ensures PrepareReload(env.crypto, env.cfg, files).Failure?
  {
    hide LoadIdentityMaterial;
  }

  /**
    A step of a preparation changes only its own phase and, when it ends the preparation, records what was
    read: files that validate if it goes on to the stores, files that do not if it gives up.
   */
  lemma ReadEffect(env: Env, s: State, e: Event) returns (phase: Phase)
    requires Enabled(s, e) && Reading(e) && PhaseFromFiles(env, s, PhaseOf(s, e.reloader))
    ensures var t := Apply(env, s, e);
            && t == s.(phases := s.phases[e.reloader := phase], attempts := t.attempts)
            && PhaseFromFiles(env, t, phase)
            && (phase.CertRead? || phase.IdentityLoaded? ==> t.attempts == s.attempts)
            && (phase.Idle? ==> exists files :: t.attempts == s.attempts + [files]
                                                && PrepareReload(env.crypto, env.cfg, files).Failure?)
            && (phase.Prepared? ==> phase.load == |s.attempts| && |t.attempts| == phase.load + 1
                                    && t.attempts[..phase.load] == s.attempts)
            && !phase.Started? && !phase.KeyStored?
  {
    hide Apply, PrepareReload, LoadIdentityMaterial;
    var r := e.reloader;
    var t := Apply(env, s, e);
    match e {
      case ReadCert(_) =>
        ReadCertEffect(env, s, r);
        CertMustLoad(env);
      case ReadKey(_) =>
        ReadKeyEffect(env, s, r);
        var files := Files(Some(PhaseOf(s, r).cert), Lookup(s.disk, env.cfg.keyPath), None);
        if LoadIdentityMaterial(env.crypto, files.cert, files.key).Failure? {
          IdentityMustLoad(env, files);
        }
      case BuildVerifier(_) =>
        BuildVerifierEffect(env, s, r);
    }
    phase := t.phases[r];
  }

  lemma CertMustLoad(env: Env)
    ensures PrepareReload(env.crypto, env.cfg, Files(None, None, None)).Failure?
  {
  }
}
