/** Runs built step by step: one reload on its own, and what interleavings can show. */
module RotationRuns {
  import opened Wrappers
  import opened ClientIdentity
  import opened Rotation
  import opened RotationSteps
  import opened RotationTheorems

  /** The state after `events`, or `None` if one of them is not enabled when its turn comes. */
  ghost function Exec(env: Env, s: State, events: seq<Event>): Option<State>
    decreases |events|
  {
    if events == [] then Some(s)
    else if !Enabled(s, events[0]) then None
    else Exec(env, Apply(env, s, events[0]), events[1..])
  }

  lemma {:induction false} ExecAppend(env: Env, s: State, a: seq<Event>, b: seq<Event>)
    requires Exec(env, s, a).Some?
    ensures Exec(env, s, a + b) == Exec(env, Exec(env, s, a).value, b)
    decreases |a|
  {
    hide Apply, Enabled;
    if a == [] {
      assert a + b == b;
    } else {
      assert (a + b)[0] == a[0] && (a + b)[1..] == a[1..] + b;
      ExecAppend(env, Apply(env, s, a[0]), a[1..], b);
    }
  }

  /** Every execution from an initial state is a run, so the theorems over runs speak about it. */
  lemma {:induction false} ExecIsRun(env: Env, s: State, events: seq<Event>) returns (run: seq<State>)
    requires Exec(env, s, events).Some?
    ensures Chain(env, run, events) && run[0] == s && run[|events|] == Exec(env, s, events).value
    ensures Init(env, s) ==> IsRun(env, run, events)
    decreases |events|
  {
    hide Apply, Enabled, Init;
    if events == [] {
      run := [s];
    } else {
      var rest := ExecIsRun(env, Apply(env, s, events[0]), events[1..]);
      run := [s] + rest;
      forall i | 0 <= i < |events|
        ensures Enabled(run[i], events[i]) && run[i + 1] == Apply(env, run[i], events[i])
      {
        if i > 0 {
          assert Enabled(rest[i - 1], events[1..][i - 1]);
        }
      }
    }
  }

  function Preparing(r: nat): seq<Event> {
    [Start(r), ReadCert(r), ReadKey(r), BuildVerifier(r)]
  }

  /** The state a reload leaves between its preparation and its first store. */
  function WithPrepared(s: State, r: nat, files: Files, credentials: Credentials): State {
    s.(phases := s.phases[r := Prepared(|s.attempts|, credentials)], attempts := s.attempts + [files])
  }

  /** The state after both stores of that reload. */
  function WithInstalled(s: State, r: nat, files: Files, credentials: Credentials): State {
    s.(phases := s.phases[r := Idle],
       attempts := s.attempts + [files],
       keyCells := s.keyCells[s.source.resolver := Stamped(credentials.key, |s.attempts|)],
       anchorCells := s.anchorCells[s.source.verifier := Stamped(credentials.anchors, |s.attempts|)])
  }

  lemma {:induction false} ChainIsExec(env: Env, run: seq<State>, events: seq<Event>)
    requires Chain(env, run, events)
    ensures Exec(env, run[0], events) == Some(run[|events|])
    decreases |events|
  {
    hide Apply, Enabled;
    if events != [] {
      assert run[0 + 1] == Apply(env, run[0], events[0]);
      forall i | 0 <= i < |events[1..]|
        ensures Enabled(run[1..][i], events[1..][i]) && run[1..][i + 1] == Apply(env, run[1..][i], events[1..][i])
      {
        assert Enabled(run[i + 1], events[i + 1]);
      }
      ChainIsExec(env, run[1..], events[1..]);
    }
  }

  lemma IdentityNeedsFiles(env: Env, files: Files)
    ensures LoadIdentityMaterial(env.crypto, files.cert, files.key).Success? ==> files.cert.Some? && files.key.Some?
  {
  }

  lemma ReadingStates(env: Env, s: State, r: nat) returns (s1: State, s2: State, s3: State)
    requires PhaseOf(s, r).Idle?
    requires LoadIdentityMaterial(env.crypto, Lookup(s.disk, env.cfg.certPath), Lookup(s.disk, env.cfg.keyPath)).Success?
    ensures s1 == Apply(env, s, Start(r))
    ensures Enabled(s1, ReadCert(r)) && s2 == Apply(env, s1, ReadCert(r))
    ensures Enabled(s2, ReadKey(r)) && s3 == Apply(env, s2, ReadKey(r))
    ensures var files := OnDisk(env, s.disk).(ca := None);
            s3 == SetPhase(s, r, IdentityLoaded(files, LoadIdentityMaterial(env.crypto, files.cert, files.key).value))
            && Enabled(s3, BuildVerifier(r))
  {
    hide Apply, LoadIdentityMaterial;
    IdentityNeedsFiles(env, OnDisk(env, s.disk));
    StartEffect(env, s, r);
    s1 := Apply(env, s, Start(r));
    ReadCertEffect(env, s1, r);
    s2 := Apply(env, s1, ReadCert(r));
    ReadKeyEffect(env, s2, r);
    s3 := Apply(env, s2, ReadKey(r));
    assert s3.phases == s.phases[r := s3.phases[r]];
  }

  /** Preparation on its own reads what is on disk and installs nothing. */
  lemma PreparingAlone(env: Env, s: State, r: nat)
    requires PhaseOf(s, r).Idle?
    requires PrepareReload(env.crypto, env.cfg, OnDisk(env, s.disk)).Success?
    ensures var files := OnDisk(env, s.disk);
            Exec(env, s, Preparing(r)) ==
            Some(WithPrepared(s, r, files, PrepareReload(env.crypto, env.cfg, files).value))
  {
    hide Apply, PrepareReload, LoadIdentityMaterial;
    var files := OnDisk(env, s.disk);
    if LoadIdentityMaterial(env.crypto, files.cert, files.key).Failure? {
      IdentityMustLoad(env, files);
    }
    var s1, s2, s3 := ReadingStates(env, s, r);
    BuildVerifierEffect(env, s3, r);
    var s4 := Apply(env, s3, BuildVerifier(r));
    assert s4.phases == s.phases[r := s4.phases[r]];
    assert s4 == WithPrepared(s, r, files, PrepareReload(env.crypto, env.cfg, files).value);
    ChainIsExec(env, [s, s1, s2, s3, s4], Preparing(r));
  }

  lemma ExecStoreKey(env: Env, s: State, r: nat) returns (t: State)
    requires PhaseOf(s, r).Prepared?
    ensures Exec(env, s, [StoreKey(r)]) == Some(t)
    ensures t == SetPhase(s, r, KeyStored(PhaseOf(s, r).load, PhaseOf(s, r).credentials.anchors))
            .(keyCells := s.keyCells[s.source.resolver := Stamped(PhaseOf(s, r).credentials.key, PhaseOf(s, r).load)])
  {
    hide Apply;
    StoreKeyEffect(env, s, r);
    t := Apply(env, s, StoreKey(r));
    assert [StoreKey(r)][1..] == [];
  }

  lemma ExecStoreVerifier(env: Env, s: State, r: nat) returns (t: State)
    requires PhaseOf(s, r).KeyStored?
    ensures Exec(env, s, [StoreVerifier(r)]) == Some(t)
    ensures t == SetPhase(s, r, Idle)
            .(anchorCells := s.anchorCells[s.source.verifier := Stamped(PhaseOf(s, r).anchors, PhaseOf(s, r).load)])
  {
    hide Apply;
    StoreVerifierEffect(env, s, r);
    t := Apply(env, s, StoreVerifier(r));
    assert [StoreVerifier(r)][1..] == [];
  }

  lemma FirstReads(env: Env, s: State, h: nat, handle: nat)
    requires h !in s.handshakes && handle in s.handles && s.handles[handle].resolver in s.keyCells
    ensures Exec(env, s, [Begin(h, handle), Resolve(h)]) ==
            Some(s.(handshakes := s.handshakes[h := Handshake(handle, [s.keyCells[s.handles[handle].resolver]], [])]))
  {
    hide Apply;
    BeginEffect(env, s, h, handle);
    var s1 := Apply(env, s, Begin(h, handle));
    ResolveEffect(env, s1, h);
    var s2 := Apply(env, s1, Resolve(h));
    var hs := Handshake(handle, [s.keyCells[s.handles[handle].resolver]], []);
    assert s2.handshakes[h] == hs;
    assert s2.handshakes == s.handshakes[h := hs];
    ChainIsExec(env, [s, s1, s2], [Begin(h, handle), Resolve(h)]);
  }

  lemma ExecVerify(env: Env, s: State, h: nat)
    requires h in s.handshakes && s.handshakes[h].handle in s.handles
    requires s.handles[s.handshakes[h].handle].verifier in s.anchorCells
    ensures var hs := s.handshakes[h];
            Exec(env, s, [Verify(h)]) == Some(s.(handshakes :=
              s.handshakes[h := hs.(anchors := hs.anchors + [s.anchorCells[s.handles[hs.handle].verifier]])]))
  {
    hide Apply;
    VerifyEffect(env, s, h);
    assert [Verify(h)][1..] == [];
  }

  lemma HandshakeEffects(env: Env, s: State, h: nat, handle: nat)
    requires h !in s.handshakes && handle in s.handles
    requires s.handles[handle].resolver in s.keyCells && s.handles[handle].verifier in s.anchorCells
    ensures Exec(env, s, [Begin(h, handle), Resolve(h), Verify(h)]) ==
            Some(s.(handshakes := s.handshakes[h :=
                 Handshake(handle, [s.keyCells[s.handles[handle].resolver]], [s.anchorCells[s.handles[handle].verifier]])]))
  {
    hide Apply, Exec;
    FirstReads(env, s, h, handle);
    var key, anchors := s.keyCells[s.handles[handle].resolver], s.anchorCells[s.handles[handle].verifier];
    var s2 := s.(handshakes := s.handshakes[h := Handshake(handle, [key], [])]);
    ExecVerify(env, s2, h);
    var hs := Handshake(handle, [key], [anchors]);
    assert s2.handshakes[h := hs] == s.handshakes[h := hs];
    assert s2.handshakes[h].anchors + [anchors] == [anchors];
    ExecAppend(env, s, [Begin(h, handle), Resolve(h)], [Verify(h)]);
    assert [Begin(h, handle), Resolve(h)] + [Verify(h)] == [Begin(h, handle), Resolve(h), Verify(h)];
  }

  /**
    In every reachable state a connector can be derived from any handle, and a handshake through it reads what the
    source's own cells hold.
   */
  lemma DerivedHandleSeesTheSource(env: Env, s: State, parent: nat, child: nat, h: nat)
    requires Inv(env, s) && parent in s.handles && child !in s.handles && h !in s.handshakes
    ensures Exec(env, s, [Derive(parent, child)] + [Begin(h, child), Resolve(h), Verify(h)]) ==
            Some(s.(handles := s.handles[child := s.source],
                    handshakes := s.handshakes[h := Handshake(child, [Presented(s)], [Trusted(s)])]))
  {
    hide Apply, PrepareReload;
    PassiveEffect(env, s, Derive(parent, child));
    var t := Apply(env, s, Derive(parent, child));
    assert t == s.(handles := s.handles[child := s.source]);
    ChainIsExec(env, [s, t], [Derive(parent, child)]);
    HandshakeEffects(env, t, h, child);
    ExecAppend(env, s, [Derive(parent, child)], [Begin(h, child), Resolve(h), Verify(h)]);
  }

  /** The only reloader among `events` is `r`. */
  predicate OnlyReloader(events: seq<Event>, r: nat) {
    forall e :: e in events && (e.Start? || Reading(e) || Storing(e)) ==> e.reloader == r
  }

  lemma StepKeepsOtherPhases(env: Env, s: State, e: Event, r: nat)
    requires Inv(env, s) && Enabled(s, e) && s.phases.Keys <= {r} && (e.Start? || Reading(e) || Storing(e) ==> e.reloader == r)
    ensures Apply(env, s, e).phases.Keys <= {r}
  {
    hide PrepareReload, Apply;
    if Reading(e) {
      assert PhaseFromFiles(env, s, PhaseOf(s, r));
      var phase := ReadEffect(env, s, e);
    } else if e.StoreKey? {
      StoreKeyEffect(env, s, r);
    } else if e.StoreVerifier? {
      StoreVerifierEffect(env, s, r);
    } else {
      PassiveEffect(env, s, e);
    }
  }

  /** A run in which only one reloader takes part has one reload at a time. */
  lemma {:induction false} OneReloaderIsSerial(env: Env, run: seq<State>, events: seq<Event>, r: nat, i: nat)
    requires IsRun(env, run, events) && OnlyReloader(events, r) && i < |run|
    ensures run[i].phases.Keys <= {r} && Serial(run[i])
  {
    hide PrepareReload, Apply, Inv;
    if i > 0 {
      RunKeepsInv(env, run, events, i - 1);
      OneReloaderIsSerial(env, run, events, r, i - 1);
      assert events[i - 1] in events;
      StepKeepsOtherPhases(env, run[i - 1], events[i - 1], r);
    }
  }

  /** An execution with one reloader, as a run to which the theorems about serial reloads apply. */
  lemma SerialExec(env: Env, s: State, events: seq<Event>, r: nat) returns (run: seq<State>)
    requires Init(env, s) && Exec(env, s, events).Some? && OnlyReloader(events, r)
    ensures IsRun(env, run, events) && SerialRun(run)
    ensures run[0] == s && run[|events|] == Exec(env, s, events).value
  {
    hide Exec, Init, Apply, OnlyReloader;
    run := ExecIsRun(env, s, events);
    forall i | 0 <= i < |run| ensures Serial(run[i]) {
      OneReloaderIsSerial(env, run, events, r, i);
    }
  }

  /** A reload that nothing interleaves with installs exactly what `PrepareReload` makes of the disk. */
  lemma UninterruptedReload(env: Env, s: State, r: nat)
    requires PhaseOf(s, r).Idle?
    requires PrepareReload(env.crypto, env.cfg, OnDisk(env, s.disk)).Success?
    ensures var files := OnDisk(env, s.disk);
            Exec(env, s, Preparing(r) + ([StoreKey(r)] + [StoreVerifier(r)])) ==
            Some(WithInstalled(s, r, files, PrepareReload(env.crypto, env.cfg, files).value))
  {
    hide PrepareReload, Apply;
    var files := OnDisk(env, s.disk);
    var credentials := PrepareReload(env.crypto, env.cfg, files).value;
    PreparingAlone(env, s, r);
    var s4 := WithPrepared(s, r, files, credentials);
    var s5 := ExecStoreKey(env, s4, r);
    var s6 := ExecStoreVerifier(env, s5, r);
    assert s6.phases == s.phases[r := Idle];
    ExecAppend(env, s4, [StoreKey(r)], [StoreVerifier(r)]);
    ExecAppend(env, s, Preparing(r), [StoreKey(r)] + [StoreVerifier(r)]);
  }

  lemma CertUnreadableAlone(env: Env, s: State, r: nat)
    requires PhaseOf(s, r).Idle? && Lookup(s.disk, env.cfg.certPath).None?
    ensures Exec(env, s, [Start(r), ReadCert(r)]) == Some(Fail(s, r, Files(None, None, None)))
  {
    hide Apply;
    StartEffect(env, s, r);
    var s1 := Apply(env, s, Start(r));
    ReadCertEffect(env, s1, r);
    var s2 := Apply(env, s1, ReadCert(r));
    assert s2.phases == s.phases[r := Idle];
    ChainIsExec(env, [s, s1, s2], [Start(r), ReadCert(r)]);
  }

  lemma IdentityFailsAlone(env: Env, s: State, r: nat)
    requires PhaseOf(s, r).Idle? && Lookup(s.disk, env.cfg.certPath).Some?
    requires LoadIdentityMaterial(env.crypto, OnDisk(env, s.disk).cert, OnDisk(env, s.disk).key).Failure?
    ensures Exec(env, s, [Start(r), ReadCert(r), ReadKey(r)]) == Some(Fail(s, r, OnDisk(env, s.disk).(ca := None)))
  {
    hide Apply, LoadIdentityMaterial;
    StartEffect(env, s, r);
    var s1 := Apply(env, s, Start(r));
    ReadCertEffect(env, s1, r);
    var s2 := Apply(env, s1, ReadCert(r));
    ReadKeyEffect(env, s2, r);
    var s3 := Apply(env, s2, ReadKey(r));
    assert s3.phases == s.phases[r := Idle];
    ChainIsExec(env, [s, s1, s2, s3], [Start(r), ReadCert(r), ReadKey(r)]);
  }

  /**
    A reload whose files do not validate runs to its end without reaching a store; all it leaves is the record of
    what it read before it gave up.
   */
  lemma UninterruptedFailure(env: Env, s: State, r: nat) returns (events: seq<Event>, files: Files)
    requires PhaseOf(s, r).Idle?
    requires PrepareReload(env.crypto, env.cfg, OnDisk(env, s.disk)).Failure?
    ensures events <= Preparing(r)
    ensures Exec(env, s, events) == Some(s.(phases := s.phases[r := Idle], attempts := s.attempts + [files]))
    ensures PrepareReload(env.crypto, env.cfg, files).Failure?
    ensures var found := OnDisk(env, s.disk);
            files == found || files == found.(ca := None) || (files == Files(None, None, None) && found.cert.None?)
  {
    hide Apply, Exec, PrepareReload, LoadIdentityMaterial;
    var found := OnDisk(env, s.disk);
    if found.cert.None? {
      events, files := [Start(r), ReadCert(r)], Files(None, None, None);
      CertUnreadableAlone(env, s, r);
      CertMustLoad(env);
    } else if LoadIdentityMaterial(env.crypto, found.cert, found.key).Failure? {
      events, files := [Start(r), ReadCert(r), ReadKey(r)], found.(ca := None);
      IdentityFailsAlone(env, s, r);
      IdentityMustLoad(env, files);
    } else {
      events, files := Preparing(r), found;
      AnchorsFailAlone(env, s, r);
    }
  }

  lemma AnchorsFailAlone(env: Env, s: State, r: nat)
    requires PhaseOf(s, r).Idle?
    requires LoadIdentityMaterial(env.crypto, OnDisk(env, s.disk).cert, OnDisk(env, s.disk).key).Success?
    requires PrepareReload(env.crypto, env.cfg, OnDisk(env, s.disk)).Failure?
    ensures Exec(env, s, Preparing(r)) == Some(Fail(s, r, OnDisk(env, s.disk)))
  {
    hide Apply, PrepareReload, LoadIdentityMaterial;
    var s1, s2, s3 := ReadingStates(env, s, r);
    BuildVerifierEffect(env, s3, r);
    var s4 := Apply(env, s3, BuildVerifier(r));
    assert s4.phases == s.phases[r := Idle];
    ChainIsExec(env, [s, s1, s2, s3, s4], Preparing(r));
  }

  /**
    The source's own comment on `reload` allows what its type-level documentation rules out: a handshake
    between the two stores sees the new key with the old anchors, even with a single reloader.
   */
  lemma HalfAppliedRotationIsObservable(env: Env, s: State)
    returns (run: seq<State>, events: seq<Event>, t: State)
    requires Init(env, s) && PrepareReload(env.crypto, env.cfg, OnDisk(env, s.disk)).Success?
    ensures IsRun(env, run, events) && SerialRun(run) && run[0] == s && run[|events|] == t
    ensures events == Preparing(0) + ([StoreKey(0)] + [Begin(0, 0), Resolve(0), Verify(0)])
    ensures 0 in t.handshakes
    ensures var found := PrepareReload(env.crypto, env.cfg, OnDisk(env, s.disk)).value;
            && t.handshakes[0].keys == [Stamped(found.key, 1)]
            && t.handshakes[0].anchors == [s.anchorCells[s.source.verifier]]
  {
    hide PrepareReload, Apply, Exec, Preparing, SerialRun, IsRun, OnlyReloader;
    var files := OnDisk(env, s.disk);
    var found := PrepareReload(env.crypto, env.cfg, files).value;
    PreparingAlone(env, s, 0);
    var s4 := WithPrepared(s, 0, files, found);
    var s5 := ExecStoreKey(env, s4, 0);
    HandshakeEffects(env, s5, 0, 0);
    var looks := [Begin(0, 0), Resolve(0), Verify(0)];
    t := Exec(env, s5, looks).value;
    ExecAppend(env, s4, [StoreKey(0)], looks);
    ExecAppend(env, s, Preparing(0), [StoreKey(0)] + looks);
    events := Preparing(0) + ([StoreKey(0)] + looks);
    OnlyFirstReloader();
    run := SerialExec(env, s, events, 0);
  }

  /**
    The reverse pair is observable too, with a single reloader: a handshake that read the key before a reload
    and the anchors after it ends with the old key and the new anchors, though it met no state in which the
    cells disagreed.
   */
  lemma ReversePairIsObservable(env: Env, s: State)
    returns (run: seq<State>, events: seq<Event>, t: State)
    requires Init(env, s) && PrepareReload(env.crypto, env.cfg, OnDisk(env, s.disk)).Success?
    ensures IsRun(env, run, events) && SerialRun(run) && run[0] == s && run[|events|] == t
    ensures events == [Begin(0, 0), Resolve(0)] + ((Preparing(0) + ([StoreKey(0)] + [StoreVerifier(0)])) + [Verify(0)])
    ensures Quiescent(t) && 0 in t.handshakes
    ensures var found := PrepareReload(env.crypto, env.cfg, OnDisk(env, s.disk)).value;
            && t.handshakes[0].keys == [s.keyCells[s.source.resolver]]
            && t.handshakes[0].anchors == [Stamped(found.anchors, 1)]
  {
    hide PrepareReload, Apply, Exec, Preparing, SerialRun, IsRun, OnlyReloader;
    var files := OnDisk(env, s.disk);
    var reload := Preparing(0) + ([StoreKey(0)] + [StoreVerifier(0)]);
    FirstReads(env, s, 0, 0);
    var s2 := Exec(env, s, [Begin(0, 0), Resolve(0)]).value;
    UninterruptedReload(env, s2, 0);
    var s3 := WithInstalled(s2, 0, files, PrepareReload(env.crypto, env.cfg, files).value);
    ExecVerify(env, s3, 0);
    t := Exec(env, s3, [Verify(0)]).value;
    ExecAppend(env, s2, reload, [Verify(0)]);
    ExecAppend(env, s, [Begin(0, 0), Resolve(0)], reload + [Verify(0)]);
    events := [Begin(0, 0), Resolve(0)] + (reload + [Verify(0)]);
    OnlyFirstReloader();
    run := SerialExec(env, s, events, 0);
  }

  lemma OnlyFirstReloader()
    ensures OnlyReloader(Preparing(0) + ([StoreKey(0)] + [Begin(0, 0), Resolve(0), Verify(0)]), 0)
    ensures OnlyReloader([Begin(0, 0), Resolve(0)] + ((Preparing(0) + ([StoreKey(0)] + [StoreVerifier(0)])) + [Verify(0)]), 0)
  {
  }

  /**
    With two reloads at once the pairing theorems fail for good: after both returned, the key is the
    first load's and the anchors are the second's.
   */
  lemma ConcurrentReloadsMayMix(env: Env, s: State, rewrites: seq<Event>)
    returns (events: seq<Event>, t: State)
    requires Init(env, s) && PrepareReload(env.crypto, env.cfg, OnDisk(env, s.disk)).Success?
    requires forall i :: 0 <= i < |rewrites| ==> rewrites[i].Rewrite?
    requires PrepareReload(env.crypto, env.cfg, OnDisk(env, Rewritten(s.disk, rewrites))).Success?
    ensures Exec(env, s, events) == Some(t)
    ensures Quiescent(t)
    ensures var first := PrepareReload(env.crypto, env.cfg, OnDisk(env, s.disk)).value;
            var second := PrepareReload(env.crypto, env.cfg, OnDisk(env, Rewritten(s.disk, rewrites))).value;
            && t.keyCells == map[s.source.resolver := Stamped(first.key, 1)]
            && t.anchorCells == map[s.source.verifier := Stamped(second.anchors, 2)]
  {
    hide PrepareReload, Apply, Enabled, Exec, Preparing, OnDisk, Rewritten;
    var first := PrepareReload(env.crypto, env.cfg, OnDisk(env, s.disk)).value;
    var second := PrepareReload(env.crypto, env.cfg, OnDisk(env, Rewritten(s.disk, rewrites))).value;
    PreparingAlone(env, s, 1);
    var s1 := WithPrepared(s, 1, OnDisk(env, s.disk), first);
    ExecRewrites(env, s1, rewrites);
    var s2 := s1.(disk := Rewritten(s.disk, rewrites));
    PreparingAlone(env, s2, 2);
    var s3 := WithPrepared(s2, 2, OnDisk(env, s2.disk), second);
    ExecAppend(env, s1, rewrites, Preparing(2));
    ExecAppend(env, s, Preparing(1), rewrites + Preparing(2));
    var tail;
    tail, t := StoresCross(env, s3, 1, 2);
    ExecAppend(env, s, Preparing(1) + (rewrites + Preparing(2)), tail);
    events := Preparing(1) + (rewrites + Preparing(2)) + tail;
  }

  lemma StoresCross(env: Env, s: State, r: nat, q: nat) returns (events: seq<Event>, t: State)
    requires r != q && PhaseOf(s, r).Prepared? && PhaseOf(s, q).Prepared?
    requires s.phases.Keys == {r, q}
    ensures Exec(env, s, events) == Some(t) && Quiescent(t)
    ensures t.keyCells == s.keyCells[s.source.resolver := Stamped(s.phases[r].credentials.key, s.phases[r].load)]
    ensures t.anchorCells ==
            s.anchorCells[s.source.verifier := Stamped(s.phases[q].credentials.anchors, s.phases[q].load)]
  {
    hide Apply, Enabled, Exec;
    var s1 := ExecStoreKey(env, s, q);
    var s2 := ExecStoreKey(env, s1, r);
    var s3 := ExecStoreVerifier(env, s2, r);
    t := ExecStoreVerifier(env, s3, q);
    ExecAppend(env, s, [StoreKey(q)], [StoreKey(r)]);
    ExecAppend(env, s, [StoreKey(q)] + [StoreKey(r)], [StoreVerifier(r)]);
    ExecAppend(env, s, [StoreKey(q)] + [StoreKey(r)] + [StoreVerifier(r)], [StoreVerifier(q)]);
    events := [StoreKey(q)] + [StoreKey(r)] + [StoreVerifier(r)] + [StoreVerifier(q)];
    forall p ensures PhaseOf(t, p).Idle? {
      assert p in t.phases ==> p == r || p == q;
    }
  }

  function Rewritten(disk: map<Path, Bytes>, rewrites: seq<Event>): map<Path, Bytes>
    requires forall i :: 0 <= i < |rewrites| ==> rewrites[i].Rewrite?
    decreases |rewrites|
  {
    if rewrites == [] then disk
    else
      var w := rewrites[0];
      Rewritten(if w.contents.Some? then disk[w.path := w.contents.value] else disk - {w.path}, rewrites[1..])
  }

  lemma {:induction false} ExecRewrites(env: Env, s: State, rewrites: seq<Event>)
    requires forall i :: 0 <= i < |rewrites| ==> rewrites[i].Rewrite?
    ensures Exec(env, s, rewrites) == Some(s.(disk := Rewritten(s.disk, rewrites)))
    decreases |rewrites|
  {
    if rewrites != [] {
      ExecRewrites(env, Apply(env, s, rewrites[0]), rewrites[1..]);
    }
  }
}
