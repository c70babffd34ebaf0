/** What every interleaving of reloads, handshakes and disk rewrites keeps. */
module RotationTheorems {
  import opened ClientIdentity
  import opened Rotation
  import opened RotationSteps

  // One step.

  /** A later state knows every earlier attempt, so what came from a validated load still does. */
  lemma AttemptsGrow(env: Env, s: State, t: State)
    requires s.attempts <= t.attempts
    ensures forall load :: Validates(env, s, load) ==>
              Validates(env, t, load) && CredentialsOf(env, t, load) == CredentialsOf(env, s, load)
    ensures forall k :: KeyFromLoad(env, s, k) ==> KeyFromLoad(env, t, k)
    ensures forall a :: AnchorsFromLoad(env, s, a) ==> AnchorsFromLoad(env, t, a)
    ensures forall p :: PhaseFromFiles(env, s, p) ==> PhaseFromFiles(env, t, p)
    ensures forall h :: HandshakeFromLoads(env, s, h) && h.handle in t.handles ==> HandshakeFromLoads(env, t, h)
  {
    hide PrepareReload;
  }

  /** A step that only moves reloader `r` to another phase. */
  lemma PhaseStep(env: Env, s: State, t: State, r: nat, phase: Phase)
    requires Inv(env, s) && s.attempts <= t.attempts
    requires t == s.(phases := s.phases[r := phase], attempts := t.attempts)
    requires PhaseFromFiles(env, t, phase)
    ensures Inv(env, t)
  {
    hide PrepareReload;
    AttemptsGrow(env, s, t);
    forall q ensures PhaseFromFiles(env, t, PhaseOf(t, q)) {
      assert PhaseFromFiles(env, s, PhaseOf(s, q));
    }
  }

  lemma StoreKeepsInv(env: Env, s: State, e: Event)
    requires Inv(env, s) && Enabled(s, e) && Storing(e)
    ensures Inv(env, Apply(env, s, e))
  {
    hide PrepareReload, Apply;
    var r := e.reloader;
    assert PhaseFromFiles(env, s, PhaseOf(s, r));
    if e.StoreKey? {
      StoreKeyEffect(env, s, r);
    } else {
      StoreVerifierEffect(env, s, r);
    }
    var t := Apply(env, s, e);
    AttemptsGrow(env, s, t);
    forall q ensures PhaseFromFiles(env, t, PhaseOf(t, q)) {
      assert PhaseFromFiles(env, s, PhaseOf(s, q));
    }
  }

  lemma HandshakeStepKeepsInv(env: Env, s: State, e: Event)
    requires Inv(env, s) && Enabled(s, e) && (e.Begin? || e.Resolve? || e.Verify?)
    ensures Inv(env, Apply(env, s, e))
  {
    hide PrepareReload, LoadIdentityMaterial, CertifiedKeyFromMaterial, BuildPeerVerifier;
    var t := Apply(env, s, e);
    AttemptsGrow(env, s, t);
    forall q ensures PhaseFromFiles(env, t, PhaseOf(t, q)) {
      assert PhaseFromFiles(env, s, PhaseOf(s, q));
    }
  }

  lemma EnvironmentStepKeepsInv(env: Env, s: State, e: Event)
    requires Inv(env, s) && Enabled(s, e) && (e.Rewrite? || e.Derive? || e.Start?)
    ensures Inv(env, Apply(env, s, e))
  {
    hide PrepareReload, Apply;
    PassiveEffect(env, s, e);
    var t := Apply(env, s, e);
    AttemptsGrow(env, s, t);
    forall q ensures PhaseFromFiles(env, t, PhaseOf(t, q)) {
      assert PhaseFromFiles(env, s, PhaseOf(s, q));
    }
  }

  lemma StepKeepsInv(env: Env, s: State, e: Event)
    requires Inv(env, s) && Enabled(s, e)
    ensures Inv(env, Apply(env, s, e))
  {
    hide PrepareReload, Apply;
    if Reading(e) {
      assert PhaseFromFiles(env, s, PhaseOf(s, e.reloader));
      var phase := ReadEffect(env, s, e);
      PhaseStep(env, s, Apply(env, s, e), e.reloader, phase);
    } else if Storing(e) {
      StoreKeepsInv(env, s, e);
    } else if e.Begin? || e.Resolve? || e.Verify? {
      HandshakeStepKeepsInv(env, s, e);
    } else {
      EnvironmentStepKeepsInv(env, s, e);
    }
  }

  lemma {:induction false} RunKeepsInv(env: Env, run: seq<State>, events: seq<Event>, i: nat)
    requires IsRun(env, run, events) && i < |run|
    ensures Inv(env, run[i])
  {
    if i > 0 {
      RunKeepsInv(env, run, events, i - 1);
      StepKeepsInv(env, run[i - 1], events[i - 1]);
    }
  }

  // Serial reloads.

  lemma FailureKeepsLastGood(env: Env, attempts: seq<Files>, files: Files)
    requires attempts != [] && PrepareReload(env.crypto, env.cfg, attempts[0]).Success?
    requires PrepareReload(env.crypto, env.cfg, files).Failure?
    ensures LastGood(env, attempts + [files]) == LastGood(env, attempts)
  {
    hide PrepareReload;
    assert (attempts + [files])[..|attempts|] == attempts;
  }

  lemma ReadingKeepsSerialInv(env: Env, s: State, e: Event)
    requires Inv(env, s) && SerialInv(env, s) && Enabled(s, e) && Serial(s) && Reading(e)
    requires Inv(env, Apply(env, s, e))
    ensures SerialInv(env, Apply(env, s, e))
  {
    hide PrepareReload, Apply, LastGood;
    var r := e.reloader;
    assert !PhaseOf(s, r).Idle? && PhaseFromFiles(env, s, PhaseOf(s, r));
    var phase := ReadEffect(env, s, e);
    var t := Apply(env, s, e);
    assert NothingPrepared(s);
    assert PhaseOf(t, r) == phase;
    forall q | q != r ensures PhaseOf(t, q).Idle? {
      assert PhaseOf(t, q) == PhaseOf(s, q);
    }
    if phase.Idle? {
      var files :| t.attempts == s.attempts + [files] && PrepareReload(env.crypto, env.cfg, files).Failure?;
      FailureKeepsLastGood(env, s.attempts, files);
    }
  }

  lemma StoringKeepsSerialInv(env: Env, s: State, e: Event)
    requires Inv(env, s) && SerialInv(env, s) && Enabled(s, e) && Serial(s) && Storing(e)
    requires Inv(env, Apply(env, s, e))
    ensures SerialInv(env, Apply(env, s, e))
  {
    hide PrepareReload, Apply;
    var t := Apply(env, s, e);
    var r := e.reloader;
    assert PhaseFromFiles(env, s, PhaseOf(s, r)) && !PhaseOf(s, r).Idle?;
    if e.StoreKey? {
      StoreKeyEffect(env, s, r);
      assert PhaseOf(t, r).KeyStored?;
    } else {
      StoreVerifierEffect(env, s, r);
      assert LastGood(env, t.attempts) == |t.attempts| - 1;
    }
    forall q | q != r ensures PhaseOf(t, q).Idle? {
      assert PhaseOf(t, q) == PhaseOf(s, q);
    }
  }

  lemma PassiveKeepsSerialInv(env: Env, s: State, e: Event)
    requires Inv(env, s) && SerialInv(env, s) && Enabled(s, e) && Inv(env, Apply(env, s, e)) && Passive(e)
    ensures SerialInv(env, Apply(env, s, e))
  {
    hide PrepareReload, Apply, LastGood;
    PassiveEffect(env, s, e);
    var t := Apply(env, s, e);
    forall q ensures (PhaseOf(t, q).Prepared? || PhaseOf(t, q).KeyStored? ==> PhaseOf(t, q) == PhaseOf(s, q))
                  && (PhaseOf(s, q).Prepared? || PhaseOf(s, q).KeyStored? ==> PhaseOf(t, q) == PhaseOf(s, q)) {
    }
  }

  lemma StepKeepsSerialInv(env: Env, s: State, e: Event)
    requires Inv(env, s) && SerialInv(env, s) && Enabled(s, e) && Serial(s)
    ensures Inv(env, Apply(env, s, e)) && SerialInv(env, Apply(env, s, e))
  {
    hide Inv, SerialInv, Apply, Serial;
    StepKeepsInv(env, s, e);
    if Reading(e) {
      ReadingKeepsSerialInv(env, s, e);
    } else if Storing(e) {
      StoringKeepsSerialInv(env, s, e);
    } else {
      PassiveKeepsSerialInv(env, s, e);
    }
  }

  lemma {:induction false} RunKeepsSerialInv(env: Env, run: seq<State>, events: seq<Event>, i: nat)
    requires IsRun(env, run, events) && SerialRun(run) && i < |run|
    ensures Inv(env, run[i]) && SerialInv(env, run[i])
  {
    RunKeepsInv(env, run, events, i);
    if i > 0 {
      RunKeepsSerialInv(env, run, events, i - 1);
      StepKeepsSerialInv(env, run[i - 1], events[i - 1]);
    }
  }

  // Theorems over whole runs.

  /**
    However reloads, handshakes and disk rewrites interleave, every key a handshake resolved has a
    non-empty chain matching its private key, and every verifier it consulted was built from anchors
    that validated.
   */
  lemma EveryReadIsUsable(env: Env, run: seq<State>, events: seq<Event>, i: nat, h: nat)
    requires IsRun(env, run, events) && i < |run| && h in run[i].handshakes
    ensures forall k :: k in run[i].handshakes[h].keys ==> GoodKey(env.crypto, k.value)
    ensures forall a :: a in run[i].handshakes[h].anchors ==> GoodAnchors(env.crypto, env.cfg, a.value)
  {
    RunKeepsInv(env, run, events, i);
    var s := run[i];
    forall load: nat | Validates(env, s, load)
      ensures GoodKey(env.crypto, CredentialsOf(env, s, load).key)
      ensures GoodAnchors(env.crypto, env.cfg, CredentialsOf(env, s, load).anchors)
    {
      PrepareSucceedsExactly(env.crypto, env.cfg, s.attempts[load]);
    }
    hide PrepareReload;
    assert HandshakeFromLoads(env, s, s.handshakes[h]);
  }

  /** No reachable state presents nothing: through every handle both cells hold a usable value. */
  lemma EveryHandlePresentsAnIdentity(env: Env, run: seq<State>, events: seq<Event>, i: nat, handle: nat)
    requires IsRun(env, run, events) && i < |run| && handle in run[i].handles
    ensures var refs := run[i].handles[handle];
            && refs.resolver in run[i].keyCells && GoodKey(env.crypto, run[i].keyCells[refs.resolver].value)
            && refs.verifier in run[i].anchorCells
            && GoodAnchors(env.crypto, env.cfg, run[i].anchorCells[refs.verifier].value)
  {
    RunKeepsInv(env, run, events, i);
    var s := run[i];
    PrepareSucceedsExactly(env.crypto, env.cfg, s.attempts[Presented(s).load]);
    PrepareSucceedsExactly(env.crypto, env.cfg, s.attempts[Trusted(s).load]);
  }

  lemma StepKeepsHandles(env: Env, s: State, e: Event)
    requires Inv(env, s) && Enabled(s, e)
    ensures var t := Apply(env, s, e);
            && s.attempts <= t.attempts && t.source == s.source
            && forall h :: h in s.handles ==> h in t.handles && t.handles[h] == s.handles[h]
  {
    hide PrepareReload, Apply;
    if Reading(e) {
      assert PhaseFromFiles(env, s, PhaseOf(s, e.reloader));
      var phase := ReadEffect(env, s, e);
    } else if e.StoreKey? {
      StoreKeyEffect(env, s, e.reloader);
    } else if e.StoreVerifier? {
      StoreVerifierEffect(env, s, e.reloader);
    } else {
      PassiveEffect(env, s, e);
    }
  }

  /** The key cell moves only when a key is stored, the anchor cell only when a verifier is. */
  lemma CellsMoveOnlyOnStores(env: Env, s: State, e: Event)
    requires Inv(env, s) && Enabled(s, e)
    ensures var t := Apply(env, s, e);
            && t.source == s.source
            && (!e.StoreKey? ==> t.keyCells == s.keyCells)
            && (!e.StoreVerifier? ==> t.anchorCells == s.anchorCells)
  {
    hide PrepareReload, Apply;
    if Reading(e) {
      assert PhaseFromFiles(env, s, PhaseOf(s, e.reloader));
      var phase := ReadEffect(env, s, e);
    } else if e.StoreKey? {
      StoreKeyEffect(env, s, e.reloader);
    } else if e.StoreVerifier? {
      StoreVerifierEffect(env, s, e.reloader);
    } else {
      PassiveEffect(env, s, e);
    }
  }

  lemma HandlesShareTheSource(env: Env, s: State)
    requires Inv(env, s)
    ensures forall h :: h in s.handles ==> s.handles[h] == s.source
  {
  }

  /** The source, the client handle and every connector keep pointing at the same two cells for ever. */
  lemma {:induction false} HandlesNeverChange(env: Env, run: seq<State>, events: seq<Event>, i: nat, j: nat)
    requires IsRun(env, run, events) && i <= j < |run|
    ensures run[j].source == run[i].source
    ensures forall h :: h in run[i].handles ==> h in run[j].handles && run[j].handles[h] == run[i].handles[h]
    ensures forall h :: h in run[j].handles ==> run[j].handles[h] == run[i].source
  {
    hide Apply, Inv;
    RunKeepsInv(env, run, events, j);
    HandlesShareTheSource(env, run[j]);
    if i < j {
      HandlesNeverChange(env, run, events, i, j - 1);
      RunKeepsInv(env, run, events, j - 1);
      StepKeepsHandles(env, run[j - 1], events[j - 1]);
    }
  }

  /** With one reload at a time, between reloads the installed pair is the last load that validated. */
  lemma QuiescentPairIsLastGood(env: Env, run: seq<State>, events: seq<Event>, i: nat)
    requires IsRun(env, run, events) && SerialRun(run) && i < |run| && Quiescent(run[i])
    ensures Inv(env, run[i])
    ensures var s := run[i];
            var load := LastGood(env, s.attempts);
            && Presented(s) == Stamped(CredentialsOf(env, s, load).key, load)
            && Trusted(s) == Stamped(CredentialsOf(env, s, load).anchors, load)
  {
    hide PrepareReload;
    RunKeepsSerialInv(env, run, events, i);
    assert NothingPrepared(run[i]);
  }

  lemma {:induction false} AttemptsNeverShrink(env: Env, run: seq<State>, events: seq<Event>, i: nat, j: nat)
    requires IsRun(env, run, events) && i <= j < |run|
    ensures run[i].attempts <= run[j].attempts
  {
    hide Apply, Inv;
    if i < j {
      AttemptsNeverShrink(env, run, events, i, j - 1);
      RunKeepsInv(env, run, events, j - 1);
      StepKeepsHandles(env, run[j - 1], events[j - 1]);
    }
  }

  /** Reloads that all failed left both cells exactly as they were. */
  lemma FailedReloadsChangeNothing(env: Env, run: seq<State>, events: seq<Event>, i: nat, j: nat)
    requires IsRun(env, run, events) && SerialRun(run) && i <= j < |run|
    requires Quiescent(run[i]) && Quiescent(run[j])
    requires forall k :: |run[i].attempts| <= k < |run[j].attempts| ==>
               PrepareReload(env.crypto, env.cfg, run[j].attempts[k]).Failure?
    ensures run[j].keyCells == run[i].keyCells && run[j].anchorCells == run[i].anchorCells
  {
    hide PrepareReload;
    AttemptsNeverShrink(env, run, events, i, j);
    HandlesNeverChange(env, run, events, i, j);
    QuiescentPairIsLastGood(env, run, events, i);
    QuiescentPairIsLastGood(env, run, events, j);
    assert run[j].keyCells == map[run[j].source.resolver := Presented(run[j])];
    assert run[j].anchorCells == map[run[j].source.verifier := Trusted(run[j])];
  }

  /**
    Looked at together, the two cells come from different loads exactly while a reload stands between its
    two stores, and then the key is that reload's and the anchors are those of the last good load before
    it. What a handshake sees, which reads the cells at two moments, is another matter.
   */
  lemma OnlyMixedPair(env: Env, run: seq<State>, events: seq<Event>, i: nat)
    requires IsRun(env, run, events) && SerialRun(run) && i < |run|
    ensures Inv(env, run[i])
    ensures Presented(run[i]).load != Trusted(run[i]).load <==> BetweenStores(run[i])
    ensures Presented(run[i]).load != Trusted(run[i]).load ==>
              var last := |run[i].attempts| - 1;
              && last > 0 && Validates(env, run[i], last)
              && Presented(run[i]) == Stamped(CredentialsOf(env, run[i], last).key, last)
              && Trusted(run[i]).load == LastGood(env, run[i].attempts[..last]) < last
  {
    hide PrepareReload;
    RunKeepsSerialInv(env, run, events, i);
    var s := run[i];
    if r :| PhaseOf(s, r).KeyStored? {
      assert Presented(s).load == |s.attempts| - 1;
    } else if r :| PhaseOf(s, r).Prepared? {
      assert Presented(s).load == Trusted(s).load;
    } else {
      assert NothingPrepared(s);
    }
  }

  /** With one reload at a time the load number read from either cell never goes back. */
  lemma {:induction false} LoadsNeverGoBack(env: Env, run: seq<State>, events: seq<Event>, i: nat, j: nat)
    requires IsRun(env, run, events) && SerialRun(run) && i <= j < |run|
    ensures Inv(env, run[i]) && Inv(env, run[j])
    ensures Presented(run[i]).load <= Presented(run[j]).load
    ensures Trusted(run[i]).load <= Trusted(run[j]).load
  {
    hide PrepareReload, Apply, SerialInv, SerialRun, Serial;
    RunKeepsSerialInv(env, run, events, i);
    RunKeepsSerialInv(env, run, events, j);
    if i < j {
      LoadsNeverGoBack(env, run, events, i, j - 1);
      RunKeepsSerialInv(env, run, events, j - 1);
      StoresRaiseLoads(env, run[j - 1], events[j - 1]);
    }
  }

  /** Each store strictly raises its own cell's load, and nothing else touches that cell. */
  lemma StoresRaiseLoads(env: Env, s: State, e: Event)
    requires Inv(env, s) && SerialInv(env, s) && Enabled(s, e) && Inv(env, Apply(env, s, e))
    ensures var t := Apply(env, s, e);
            && (if e.StoreKey? then Presented(s).load < Presented(t).load else Presented(t) == Presented(s))
            && (if e.StoreVerifier? then Trusted(s).load < Trusted(t).load else Trusted(t) == Trusted(s))
  {
    hide PrepareReload, Apply;
    CellsMoveOnlyOnStores(env, s, e);
    if Storing(e) {
      var phase := PhaseOf(s, e.reloader);
      assert e.StoreKey? ==> Presented(s).load < phase.load;
      assert e.StoreVerifier? ==> Trusted(s).load < phase.load;
      if e.StoreKey? {
        StoreKeyEffect(env, s, e.reloader);
      } else {
        StoreVerifierEffect(env, s, e.reloader);
      }
    }
  }
}
