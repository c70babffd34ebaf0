/** What a handshake sees: it reads the key cell at one moment and the anchor cell at another. */
module RotationHandshakes {
  import opened ClientIdentity
  import opened Rotation
  import opened RotationSteps
  import opened RotationTheorems

  // Handshakes that no store cuts through.

  /** What a step adds to a handshake's log is what the cells hold. */
  lemma LogsTheCells(env: Env, s: State, e: Event, h: nat)
    requires Inv(env, s) && Enabled(s, e) && h in Apply(env, s, e).handshakes
    ensures var hs := Apply(env, s, e).handshakes[h];
            var was := if h in s.handshakes then s.handshakes[h] else Handshake(hs.handle, [], []);
            && (forall k :: k in hs.keys ==> k in was.keys || k == Presented(s))
            && (forall a :: a in hs.anchors ==> a in was.anchors || a == Trusted(s))
  {
    hide PrepareReload, Apply;
    if Reading(e) {
      assert PhaseFromFiles(env, s, PhaseOf(s, e.reloader));
      var phase := ReadEffect(env, s, e);
    } else {
      match e {
        case Begin(g, handle) => BeginEffect(env, s, g, handle);
        case Resolve(g) => ResolveEffect(env, s, g);
        case Verify(g) => VerifyEffect(env, s, g);
        case StoreKey(r) => StoreKeyEffect(env, s, r);
        case StoreVerifier(r) => StoreVerifierEffect(env, s, r);
        case _ => PassiveEffect(env, s, e);
      }
    }
  }

  /** No store of either kind lies between moments `i` and `j`. */
  ghost predicate NoStoreWithin(events: seq<Event>, i: nat, j: nat)
    requires j <= |events|
  {
    forall k :: i <= k < j ==> !Storing(events[k])
  }

  lemma {:induction false} NothingMovesWithoutStores(env: Env, run: seq<State>, events: seq<Event>, i: nat, j: nat)
    requires IsRun(env, run, events) && i <= j < |run| && NoStoreWithin(events, i, j)
    ensures run[j].keyCells == run[i].keyCells && run[j].anchorCells == run[i].anchorCells
    ensures run[j].source == run[i].source
  {
    hide Apply;
    if i < j {
      NothingMovesWithoutStores(env, run, events, i, j - 1);
      RunKeepsInv(env, run, events, j - 1);
      CellsMoveOnlyOnStores(env, run[j - 1], events[j - 1]);
    }
  }

  lemma {:induction false} LogsWithoutStores(
    env: Env, run: seq<State>, events: seq<Event>, i: nat, j: nat, h: nat)
    requires IsRun(env, run, events) && i <= j < |run| && NoStoreWithin(events, i, j)
    requires h !in run[i].handshakes && h in run[j].handshakes
    ensures Inv(env, run[j])
    ensures forall k :: k in run[j].handshakes[h].keys ==> k == Presented(run[j])
    ensures forall a :: a in run[j].handshakes[h].anchors ==> a == Trusted(run[j])
  {
    hide PrepareReload, Apply;
    RunKeepsInv(env, run, events, j);
    RunKeepsInv(env, run, events, j - 1);
    NothingMovesWithoutStores(env, run, events, j - 1, j);
    LogsTheCells(env, run[j - 1], events[j - 1], h);
    if h in run[j - 1].handshakes {
      LogsWithoutStores(env, run, events, i, j - 1, h);
    }
  }

  /** `load` is the last one that validated, not counting one whose two stores are still to come. */
  ghost predicate IsInstalled(env: Env, s: State, load: nat)
    requires Inv(env, s)
  {
    if AwaitingStores(s) then
      |s.attempts| > 1 && load == LastGood(env, s.attempts[..|s.attempts| - 1])
    else load == LastGood(env, s.attempts)
  }

  /** Outside the gap between two stores, the cells hold one pair and it is the installed one. */
  lemma CellsHoldTheInstalledPair(env: Env, s: State)
    requires Inv(env, s) && SerialInv(env, s) && !BetweenStores(s)
    ensures Presented(s).load == Trusted(s).load && IsInstalled(env, s, Presented(s).load)
  {
    hide PrepareReload, LastGood;
    if AwaitingStores(s) {
      var r :| PhaseOf(s, r).Prepared?;
      assert PhaseOf(s, r).load == |s.attempts| - 1;
    } else {
      assert NothingPrepared(s);
    }
  }

  /** Only storing a key opens the gap between two stores. */
  lemma GapNeedsStoreKey(env: Env, s: State, e: Event)
    requires Inv(env, s) && Enabled(s, e) && !BetweenStores(s) && !e.StoreKey?
    ensures !BetweenStores(Apply(env, s, e))
  {
    hide PrepareReload, Apply;
    var t := Apply(env, s, e);
    if Reading(e) {
      assert PhaseFromFiles(env, s, PhaseOf(s, e.reloader));
      var phase := ReadEffect(env, s, e);
      assert PhaseOf(t, e.reloader) == phase;
      assert forall q :: q != e.reloader ==> PhaseOf(t, q) == PhaseOf(s, q);
    } else if Passive(e) {
      PassiveEffect(env, s, e);
      assert forall q :: PhaseOf(t, q) == PhaseOf(s, q) || PhaseOf(t, q).Started?;
    }
  }

  lemma {:induction false} NoGapWithoutStores(env: Env, run: seq<State>, events: seq<Event>, i: nat, j: nat)
    requires IsRun(env, run, events) && i <= j < |run| && NoStoreWithin(events, i, j) && !BetweenStores(run[i])
    ensures !BetweenStores(run[j])
  {
    hide Apply, BetweenStores;
    if i < j {
      NoGapWithoutStores(env, run, events, i, j - 1);
      RunKeepsInv(env, run, events, j - 1);
      GapNeedsStoreKey(env, run[j - 1], events[j - 1]);
    }
  }

  /**
    A handshake that no store cuts through reads exactly the installed pair, however often and in whatever
    order it reads, and through whichever handle it runs. Reloads may start, read and fail meanwhile.
   */
  lemma HandshakeSeesTheInstalledPair(
    env: Env, run: seq<State>, events: seq<Event>, i: nat, j: nat, h: nat)
    requires IsRun(env, run, events) && SerialRun(run) && i <= j < |run|
    requires !BetweenStores(run[i]) && NoStoreWithin(events, i, j)
    requires h !in run[i].handshakes && h in run[j].handshakes
    ensures Inv(env, run[j])
    ensures var load := Presented(run[j]).load;
            var pair := CredentialsOf(env, run[j], load);
            && IsInstalled(env, run[j], load)
            && (forall k :: k in run[j].handshakes[h].keys ==> k == Stamped(pair.key, load))
            && (forall a :: a in run[j].handshakes[h].anchors ==> a == Stamped(pair.anchors, load))
  {
    hide PrepareReload, Apply, IsInstalled, BetweenStores;
    RunKeepsSerialInv(env, run, events, j);
    NoGapWithoutStores(env, run, events, i, j);
    CellsHoldTheInstalledPair(env, run[j]);
    LogsWithoutStores(env, run, events, i, j, h);
  }

  /** From a reload's return to the next store its own pair is what handshakes read. */
  lemma HandshakeAfterReloadSeesIt(
    env: Env, run: seq<State>, events: seq<Event>, i: nat, j: nat, h: nat, r: nat)
    requires IsRun(env, run, events) && SerialRun(run) && 0 < i <= j < |run|
    requires events[i - 1] == StoreVerifier(r) && NoStoreWithin(events, i, j)
    requires h !in run[i].handshakes && h in run[j].handshakes
    ensures var load := PhaseOf(run[i - 1], r).load;
            && Validates(env, run[j], load)
            && var pair := CredentialsOf(env, run[j], load);
               && (forall k :: k in run[j].handshakes[h].keys ==> k == Stamped(pair.key, load))
               && (forall a :: a in run[j].handshakes[h].anchors ==> a == Stamped(pair.anchors, load))
  {
    hide PrepareReload, Apply, LastGood, IsInstalled, SerialInv;
    RunKeepsSerialInv(env, run, events, i - 1);
    GapCloses(env, run[i - 1], r);
    HandshakeSeesTheInstalledPair(env, run, events, i, j, h);
    NothingMovesWithoutStores(env, run, events, i, j);
  }

  /** Storing the verifier makes both cells this reload's and closes the gap. */
  lemma GapCloses(env: Env, s: State, r: nat)
    requires Inv(env, s) && SerialInv(env, s) && Serial(s) && Enabled(s, StoreVerifier(r))
    ensures var t := Apply(env, s, StoreVerifier(r));
            && !BetweenStores(t)
            && t.source == s.source && t.source.resolver in t.keyCells && t.source.verifier in t.anchorCells
            && Presented(t) == Presented(s)
            && Presented(t).load == Trusted(t).load == PhaseOf(s, r).load
  {
    hide PrepareReload, Apply, LastGood;
    assert PhaseOf(s, r).KeyStored?;
    StoreVerifierEffect(env, s, r);
    var t := Apply(env, s, StoreVerifier(r));
    assert forall q :: q != r ==> PhaseOf(t, q) == PhaseOf(s, q);
  }

  // Handshakes in general.

  function KeyStores(events: seq<Event>, i: nat, j: nat): nat
    requires j <= |events|
  {
    if i >= j then 0 else KeyStores(events, i, j - 1) + (if events[j - 1].StoreKey? then 1 else 0)
  }

  function VerifierStores(events: seq<Event>, i: nat, j: nat): nat
    requires j <= |events|
  {
    if i >= j then 0 else VerifierStores(events, i, j - 1) + (if events[j - 1].StoreVerifier? then 1 else 0)
  }

  ghost function Gap(s: State): nat {
    if BetweenStores(s) then 1 else 0
  }

  /**
    How many stores of the anchors a handshake sees ahead of the key (behind it, if negative), when it reads
    the key in state `i` and the anchors in state `j`.
   */
  ghost function Drift(run: seq<State>, events: seq<Event>, i: nat, j: nat): int
    requires |run| == |events| + 1 && i < |run| && j < |run|
  {
    if i <= j then VerifierStores(events, i, j) - Gap(run[i])
    else -(KeyStores(events, j, i) + Gap(run[j]))
  }

  /** While one reload stands between its stores, only its second store moves a cell or ends that. */
  lemma GapStays(env: Env, s: State, e: Event)
    requires Inv(env, s) && Serial(s) && Enabled(s, e) && BetweenStores(s) && !e.StoreVerifier?
    ensures !e.StoreKey? && BetweenStores(Apply(env, s, e))
  {
    hide PrepareReload, Apply;
    var r :| PhaseOf(s, r).KeyStored?;
    assert Passive(e);
    PassiveEffect(env, s, e);
    assert PhaseOf(Apply(env, s, e), r) == PhaseOf(s, r);
  }

  lemma SnapshotLoads(env: Env, s: State)
    requires Inv(env, s) && SerialInv(env, s)
    ensures if BetweenStores(s) then Presented(s).load > Trusted(s).load else Presented(s).load == Trusted(s).load
  {
    hide PrepareReload;
    if BetweenStores(s) {
      var r :| PhaseOf(s, r).KeyStored?;
      assert Presented(s).load == PhaseOf(s, r).load;
    } else {
      CellsHoldTheInstalledPair(env, s);
    }
  }

  /** A key read in state `i` against the anchors of a later state `j`. */
  lemma {:induction false} AnchorsCatchUp(env: Env, run: seq<State>, events: seq<Event>, i: nat, j: nat)
    requires IsRun(env, run, events) && SerialRun(run) && i <= j < |run|
    ensures Inv(env, run[i]) && Inv(env, run[j])
    ensures var n, gap := VerifierStores(events, i, j), Gap(run[i]);
            && (n < gap ==> BetweenStores(run[j]) && Presented(run[j]) == Presented(run[i])
                            && Trusted(run[j]).load < Presented(run[i]).load)
            && (n == gap ==> Trusted(run[j]).load == Presented(run[i]).load)
            && (n > gap ==> Trusted(run[j]).load > Presented(run[i]).load)
  {
    hide Apply, Inv, SerialInv, BetweenStores, Serial;
    RunKeepsSerialInv(env, run, events, j);
    SnapshotLoads(env, run[j]);
    if i < j {
      AnchorsCatchUp(env, run, events, i, j - 1);
      var s, e := run[j - 1], events[j - 1];
      RunKeepsSerialInv(env, run, events, j - 1);
      StoresRaiseLoads(env, s, e);
      if e.StoreVerifier? {
        GapCloses(env, s, e.reloader);
      } else if BetweenStores(s) {
        GapStays(env, s, e);
      }
    }
  }

  lemma {:induction false} KeyMovesOn(env: Env, run: seq<State>, events: seq<Event>, j: nat, i: nat)
    requires IsRun(env, run, events) && SerialRun(run) && j <= i < |run|
    ensures Inv(env, run[j]) && Inv(env, run[i])
    ensures if KeyStores(events, j, i) == 0 then Presented(run[i]) == Presented(run[j])
            else Presented(run[i]).load > Presented(run[j]).load
  {
    hide Apply, Inv, SerialInv, Serial;
    RunKeepsSerialInv(env, run, events, i);
    if j < i {
      KeyMovesOn(env, run, events, j, i - 1);
      RunKeepsSerialInv(env, run, events, i - 1);
      StoresRaiseLoads(env, run[i - 1], events[i - 1]);
    }
  }

  /** The reads two events of one handshake log. */
  lemma ReadsAreLogged(env: Env, run: seq<State>, events: seq<Event>, i: nat, j: nat, h: nat)
    requires IsRun(env, run, events) && i < |events| && j < |events|
    requires events[i] == Resolve(h) && events[j] == Verify(h)
    ensures Inv(env, run[i]) && Inv(env, run[j])
    ensures h in run[i].handshakes && h in run[i + 1].handshakes && h in run[j].handshakes && h in run[j + 1].handshakes
    ensures run[i + 1].handshakes[h].keys == run[i].handshakes[h].keys + [Presented(run[i])]
    ensures run[j + 1].handshakes[h].anchors == run[j].handshakes[h].anchors + [Trusted(run[j])]
  {
    hide PrepareReload, Apply;
    RunKeepsInv(env, run, events, i);
    RunKeepsInv(env, run, events, j);
    assert Enabled(run[i], events[i]) && run[i + 1] == Apply(env, run[i], events[i]);
    assert Enabled(run[j], events[j]) && run[j + 1] == Apply(env, run[j], events[j]);
    ResolveEffect(env, run[i], h);
    VerifyEffect(env, run[j], h);
  }

  /**
    A handshake that reads the key at step `i` and the anchors at step `j` sees both from one load exactly when
    the drift is zero: no store of anchors between the reads, or only the one that completes a reload whose
    key it already read; or, reading the anchors first, no gap and no store of a key. With positive drift the
    anchors are newer than the key, with negative drift the key is newer than the anchors.
   */
  lemma HandshakePairExactly(env: Env, run: seq<State>, events: seq<Event>, i: nat, j: nat, h: nat)
    requires IsRun(env, run, events) && SerialRun(run) && i < |events| && j < |events|
    requires events[i] == Resolve(h) && events[j] == Verify(h)
    ensures h in run[i].handshakes && h in run[i + 1].handshakes && h in run[j].handshakes && h in run[j + 1].handshakes
    ensures |run[i + 1].handshakes[h].keys| == |run[i].handshakes[h].keys| + 1
    ensures |run[j + 1].handshakes[h].anchors| == |run[j].handshakes[h].anchors| + 1
    ensures var key := run[i + 1].handshakes[h].keys[|run[i].handshakes[h].keys|];
            var anchors := run[j + 1].handshakes[h].anchors[|run[j].handshakes[h].anchors|];
            var drift := Drift(run, events, i, j);
            && (key.load == anchors.load <==> drift == 0)
            && (key.load < anchors.load <==> drift > 0)
            && (key.load > anchors.load <==> drift < 0)
            && KeyFromLoad(env, run[|events|], key) && AnchorsFromLoad(env, run[|events|], anchors)
  {
    hide PrepareReload, Apply, SerialInv, SerialRun, BetweenStores;
    ReadsAreLogged(env, run, events, i, j, h);
    AttemptsNeverShrink(env, run, events, i, |events|);
    AttemptsNeverShrink(env, run, events, j, |events|);
    AttemptsGrow(env, run[i], run[|events|]);
    AttemptsGrow(env, run[j], run[|events|]);
    if i <= j {
      AnchorsCatchUp(env, run, events, i, j);
    } else {
      KeyMovesOn(env, run, events, j, i);
      RunKeepsSerialInv(env, run, events, j);
      SnapshotLoads(env, run[j]);
    }
  }
}
