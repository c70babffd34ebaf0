/** Any number of reloads at once: exactly when a key and anchors read from the cells belong together. */
module RotationConcurrency {
  import opened ClientIdentity
  import opened Rotation
  import opened RotationSteps
  import opened RotationTheorems

  /** The load a store installs, from the phase its reloader was in. */
  ghost function LoadStored(run: seq<State>, events: seq<Event>, p: nat): nat
    requires p < |events| < |run| && Storing(events[p]) && Enabled(run[p], events[p])
  {
    PhaseOf(run[p], events[p].reloader).load
  }

  // Every reload has a load number of its own.

  /** A phase with credentials to store is new, with a fresh number, or was there before. */
  lemma PhaseOrigin(env: Env, s: State, e: Event, r: nat)
    requires Inv(env, s) && Enabled(s, e)
    ensures var was, now := PhaseOf(s, r), PhaseOf(Apply(env, s, e), r);
            && (now.Prepared? ==>
                  || (now == was && e != StoreKey(r))
                  || (e == BuildVerifier(r) && now.load == |s.attempts| < |Apply(env, s, e).attempts|))
            && (now.KeyStored? ==> now == was || (e == StoreKey(r) && now.load == was.load))
  {
    hide PrepareReload, Apply;
    if Reading(e) {
      assert PhaseFromFiles(env, s, PhaseOf(s, e.reloader));
      var phase := ReadEffect(env, s, e);
      if !e.BuildVerifier? {
        ReadsBeforeTheLast(env, s, e);
      }
    } else if e.StoreKey? {
      StoreKeyEffect(env, s, e.reloader);
    } else if e.StoreVerifier? {
      StoreVerifierEffect(env, s, e.reloader);
    } else {
      PassiveEffect(env, s, e);
    }
  }

  lemma ReadsBeforeTheLast(env: Env, s: State, e: Event)
    requires Enabled(s, e) && (e.ReadCert? || e.ReadKey?)
    ensures !PhaseOf(Apply(env, s, e), e.reloader).Prepared?
  {
    hide Apply;
    if e.ReadCert? {
      ReadCertEffect(env, s, e.reloader);
    } else {
      ReadKeyEffect(env, s, e.reloader);
    }
  }

  ghost predicate OwnNumbers(s: State) {
    && (forall r :: PhaseOf(s, r).Prepared? ==> 0 < PhaseOf(s, r).load < |s.attempts|)
    && (forall r, q :: r != q && PhaseOf(s, r).Prepared? && PhaseOf(s, q).Prepared? ==>
          PhaseOf(s, r).load != PhaseOf(s, q).load)
  }

  lemma {:induction false} RunKeepsOwnNumbers(env: Env, run: seq<State>, events: seq<Event>, i: nat)
    requires IsRun(env, run, events) && i < |run|
    ensures OwnNumbers(run[i])
  {
    hide Apply, PrepareReload, Inv;
    if i > 0 {
      RunKeepsOwnNumbers(env, run, events, i - 1);
      RunKeepsInv(env, run, events, i - 1);
      StepKeepsOwnNumbers(env, run[i - 1], events[i - 1]);
    }
  }

  lemma StepKeepsOwnNumbers(env: Env, s: State, e: Event)
    requires Inv(env, s) && Enabled(s, e) && OwnNumbers(s)
    ensures OwnNumbers(Apply(env, s, e))
  {
    hide Apply, Inv, Enabled;
    var t := Apply(env, s, e);
    StepKeepsHandles(env, s, e);
    StepKeepsInv(env, s, e);
    AttemptsStart(env, s);
    forall r
      ensures PhaseOf(t, r).Prepared? ==>
                || PhaseOf(t, r) == PhaseOf(s, r)
                || (e == BuildVerifier(r) && PhaseOf(t, r).load == |s.attempts| < |t.attempts|)
    {
      PhaseOrigin(env, s, e, r);
    }
  }

  lemma AttemptsStart(env: Env, s: State)
    requires Inv(env, s)
    ensures s.attempts != []
  {
  }

  /** A number once stored is never prepared again. */
  lemma {:induction false} NumbersAreNotReused(env: Env, run: seq<State>, events: seq<Event>, p: nat, k: nat, r: nat)
    requires IsRun(env, run, events) && p < k < |run| && events[p].StoreKey?
    ensures LoadStored(run, events, p) < |run[k].attempts|
    ensures PhaseOf(run[k], r).Prepared? ==> PhaseOf(run[k], r).load != LoadStored(run, events, p)
  {
    hide Apply, Inv;
    RunKeepsOwnNumbers(env, run, events, p);
    AttemptsNeverShrink(env, run, events, p, k - 1);
    AttemptsNeverShrink(env, run, events, k - 1, k);
    RunKeepsInv(env, run, events, k - 1);
    assert Enabled(run[k - 1], events[k - 1]) && run[k] == Apply(env, run[k - 1], events[k - 1]);
    PhaseOrigin(env, run[k - 1], events[k - 1], r);
    if p < k - 1 {
      NumbersAreNotReused(env, run, events, p, k - 1, r);
    }
  }

  // The two stores of one reload.

  /** Step `p` stores a key and step `q` the verifier of the same call of `reload`. */
  ghost predicate OneReload(events: seq<Event>, p: nat, q: nat)
    requires q < |events|
  {
    && p < q && events[p].StoreKey? && events[q] == StoreVerifier(events[p].reloader)
    && forall k :: p < k < q ==> events[k] != events[p]
  }

  /** Where a reload between its stores got there. */
  lemma {:induction false} KeyWasStored(env: Env, run: seq<State>, events: seq<Event>, k: nat, r: nat) returns (p: nat)
    requires IsRun(env, run, events) && k < |run| && PhaseOf(run[k], r).KeyStored?
    ensures p < k && events[p] == StoreKey(r) && LoadStored(run, events, p) == PhaseOf(run[k], r).load
    ensures forall m :: p < m < k ==> events[m] != StoreKey(r)
  {
    hide Apply, Inv;
    RunKeepsInv(env, run, events, k - 1);
    assert Enabled(run[k - 1], events[k - 1]) && run[k] == Apply(env, run[k - 1], events[k - 1]);
    PhaseOrigin(env, run[k - 1], events[k - 1], r);
    if events[k - 1] == StoreKey(r) {
      p := k - 1;
    } else {
      p := KeyWasStored(env, run, events, k - 1, r);
    }
  }

  lemma DistinctKeyStores(env: Env, run: seq<State>, events: seq<Event>, p: nat, q: nat)
    requires IsRun(env, run, events) && p < |events| && q < |events| && events[p].StoreKey? && events[q].StoreKey?
    ensures LoadStored(run, events, p) == LoadStored(run, events, q) ==> p == q
  {
    hide Apply;
    if p < q {
      NumbersAreNotReused(env, run, events, p, q, events[q].reloader);
    } else if q < p {
      NumbersAreNotReused(env, run, events, q, p, events[p].reloader);
    }
  }

  /** A stored key and a stored verifier carry one load number exactly when one call of `reload` stored both. */
  lemma SameLoadExactly(env: Env, run: seq<State>, events: seq<Event>, p: nat, q: nat)
    requires IsRun(env, run, events) && p < |events| && q < |events|
    requires events[p].StoreKey? && events[q].StoreVerifier?
    ensures LoadStored(run, events, p) == LoadStored(run, events, q) <==> OneReload(events, p, q)
  {
    hide Apply;
    var first := KeyWasStored(env, run, events, q, events[q].reloader);
    DistinctKeyStores(env, run, events, p, first);
    assert OneReload(events, first, q);
  }

  // What the cells hold.

  /** Step `p` is the last before state `i` to store a key. */
  ghost predicate LastKeyStore(events: seq<Event>, i: nat, p: nat)
    requires i <= |events|
  {
    p < i && events[p].StoreKey? && forall k :: p < k < i ==> !events[k].StoreKey?
  }

  ghost predicate LastVerifierStore(events: seq<Event>, i: nat, p: nat)
    requires i <= |events|
  {
    p < i && events[p].StoreVerifier? && forall k :: p < k < i ==> !events[k].StoreVerifier?
  }

  lemma {:induction false} KeyCellHoldsTheLastStore(env: Env, run: seq<State>, events: seq<Event>, i: nat)
    requires IsRun(env, run, events) && i < |run|
    ensures Inv(env, run[i])
    ensures (forall k :: 0 <= k < i ==> !events[k].StoreKey?) ==> Presented(run[i]).load == 0
    ensures forall p: nat :: LastKeyStore(events, i, p) ==> Presented(run[i]).load == LoadStored(run, events, p)
  {
    hide Apply, PrepareReload;
    RunKeepsInv(env, run, events, i);
    if i > 0 {
      KeyCellHoldsTheLastStore(env, run, events, i - 1);
      var s, e := run[i - 1], events[i - 1];
      assert Enabled(s, e) && run[i] == Apply(env, s, e);
      CellsMoveOnlyOnStores(env, s, e);
      if e.StoreKey? {
        StoreKeyEffect(env, s, e.reloader);
      } else {
        assert forall p: nat :: LastKeyStore(events, i, p) ==> LastKeyStore(events, i - 1, p);
      }
    }
  }

  lemma {:induction false} AnchorCellHoldsTheLastStore(env: Env, run: seq<State>, events: seq<Event>, i: nat)
    requires IsRun(env, run, events) && i < |run|
    ensures Inv(env, run[i])
    ensures (forall k :: 0 <= k < i ==> !events[k].StoreVerifier?) ==> Trusted(run[i]).load == 0
    ensures forall p: nat :: LastVerifierStore(events, i, p) ==> Trusted(run[i]).load == LoadStored(run, events, p)
  {
    hide Apply, PrepareReload;
    RunKeepsInv(env, run, events, i);
    if i > 0 {
      AnchorCellHoldsTheLastStore(env, run, events, i - 1);
      var s, e := run[i - 1], events[i - 1];
      assert Enabled(s, e) && run[i] == Apply(env, s, e);
      CellsMoveOnlyOnStores(env, s, e);
      if e.StoreVerifier? {
        StoreVerifierEffect(env, s, e.reloader);
      } else {
        assert forall p: nat :: LastVerifierStore(events, i, p) ==> LastVerifierStore(events, i - 1, p);
      }
    }
  }

  lemma {:induction false} FindLastKeyStore(events: seq<Event>, i: nat) returns (p: nat)
    requires i <= |events| && exists k :: 0 <= k < i && events[k].StoreKey?
    ensures LastKeyStore(events, i, p)
  {
    if events[i - 1].StoreKey? { p := i - 1; } else { p := FindLastKeyStore(events, i - 1); }
  }

  lemma {:induction false} FindLastVerifierStore(events: seq<Event>, i: nat) returns (p: nat)
    requires i <= |events| && exists k :: 0 <= k < i && events[k].StoreVerifier?
    ensures LastVerifierStore(events, i, p)
  {
    if events[i - 1].StoreVerifier? { p := i - 1; } else { p := FindLastVerifierStore(events, i - 1); }
  }

  /** Nothing was stored before the two reads, or the last stores before them are those of one call of `reload`. */
  ghost predicate StoredTogether(events: seq<Event>, i: nat, j: nat)
    requires i <= |events| && j <= |events|
  {
    || ((forall k :: 0 <= k < i ==> !events[k].StoreKey?) && (forall k :: 0 <= k < j ==> !events[k].StoreVerifier?))
    || exists p: nat, q: nat :: LastKeyStore(events, i, p) && LastVerifierStore(events, j, q) && OneReload(events, p, q)
  }

  lemma LastStoresDecide(events: seq<Event>, i: nat, j: nat, p: nat, q: nat)
    requires i <= |events| && j <= |events| && LastKeyStore(events, i, p) && LastVerifierStore(events, j, q)
    ensures StoredTogether(events, i, j) <==> OneReload(events, p, q)
  {
    hide OneReload;
    assert forall other: nat :: LastKeyStore(events, i, other) ==> other == p;
    assert forall other: nat :: LastVerifierStore(events, j, other) ==> other == q;
  }

  lemma OneStoreIsNoPair(events: seq<Event>, i: nat, j: nat)
    requires i <= |events| && j <= |events|
    requires (exists k :: 0 <= k < i && events[k].StoreKey?) != (exists k :: 0 <= k < j && events[k].StoreVerifier?)
    ensures !StoredTogether(events, i, j)
  {
  }

  lemma NoStoreIsAPair(events: seq<Event>, i: nat, j: nat)
    requires i <= |events| && j <= |events|
    requires forall k :: 0 <= k < i ==> !events[k].StoreKey?
    requires forall k :: 0 <= k < j ==> !events[k].StoreVerifier?
    ensures StoredTogether(events, i, j)
  {
  }

  /**
    With any number of reloads at once, a key read in state `i` and anchors read in state `j` come from one load
    exactly when the order of the stores says so. With `i == j` this is a snapshot of both cells.
   */
  lemma ConcurrentPairExactly(env: Env, run: seq<State>, events: seq<Event>, i: nat, j: nat)
    requires IsRun(env, run, events) && i < |run| && j < |run|
    ensures Inv(env, run[i]) && Inv(env, run[j])
    ensures Presented(run[i]).load == Trusted(run[j]).load <==> StoredTogether(events, i, j)
  {
    hide Apply, Inv, Init, LoadStored, OneReload, StoredTogether;
    KeyCellHoldsTheLastStore(env, run, events, i);
    AnchorCellHoldsTheLastStore(env, run, events, j);
    if exists k :: 0 <= k < i && events[k].StoreKey? {
      var p := FindLastKeyStore(events, i);
      StoredKeyIsNumbered(env, run, events, p);
      if exists k :: 0 <= k < j && events[k].StoreVerifier? {
        var q := FindLastVerifierStore(events, j);
        SameLoadExactly(env, run, events, p, q);
        LastStoresDecide(events, i, j, p, q);
      } else {
        OneStoreIsNoPair(events, i, j);
      }
    } else if exists k :: 0 <= k < j && events[k].StoreVerifier? {
      var q := FindLastVerifierStore(events, j);
      StoredVerifierIsNumbered(env, run, events, q);
      OneStoreIsNoPair(events, i, j);
    } else {
      NoStoreIsAPair(events, i, j);
    }
  }

  lemma StoredKeyIsNumbered(env: Env, run: seq<State>, events: seq<Event>, p: nat)
    requires IsRun(env, run, events) && p < |events| && events[p].StoreKey?
    ensures LoadStored(run, events, p) > 0
  {
    hide Apply;
    RunKeepsOwnNumbers(env, run, events, p);
  }

  lemma StoredVerifierIsNumbered(env: Env, run: seq<State>, events: seq<Event>, q: nat)
    requires IsRun(env, run, events) && q < |events| && events[q].StoreVerifier?
    ensures LoadStored(run, events, q) > 0
  {
    hide Apply;
    var p := KeyWasStored(env, run, events, q, events[q].reloader);
    StoredKeyIsNumbered(env, run, events, p);
  }
}
