/** What the readiness answer shows: the last status per name, and when it names a cause. */
module ReadinessTheorems {
  import opened Wrappers
  import opened Checks
  import opened Readiness

  // Order of registration.

  ghost predicate DistinctNames(outcomes: Outcomes) {
    forall i, j :: 0 <= i < j < |outcomes| ==> outcomes[i].0 != outcomes[j].0
  }

  /** The answer does not depend on the order in which checks were registered. */
  lemma ReadyIgnoresOrder(configs: Configs, probes: Probes, grpc: Option<GrpcConfig>, a: Outcomes, b: Outcomes)
    requires multiset(a) == multiset(b)
    ensures NoneBlocks(AllWrites(configs, probes, grpc, a)) <==> NoneBlocks(AllWrites(configs, probes, grpc, b))
  {
    ReadyExactly(configs, probes, grpc, a);
    ReadyExactly(configs, probes, grpc, b);
    if NoCheckUnready(a) { UnreadyByMembership(a, b); }
    if NoCheckUnready(b) { UnreadyByMembership(b, a); }
  }

  lemma UnreadyByMembership(a: Outcomes, b: Outcomes)
    requires multiset(a) == multiset(b) && NoCheckUnready(a)
    ensures NoCheckUnready(b)
  {
    forall i | 0 <= i < |b| ensures !b[i].1.Unready? {
      assert b[i] in multiset(b);
      assert b[i] in a;
    }
  }

  /** With distinct names the whole dependency map is independent of the order too. */
  lemma MapIgnoresOrder(configs: Configs, probes: Probes, grpc: Option<GrpcConfig>, a: Outcomes, b: Outcomes)
    requires multiset(a) == multiset(b) && DistinctNames(a) && DistinctNames(b)
    ensures Fold(AllWrites(configs, probes, grpc, a)) == Fold(AllWrites(configs, probes, grpc, b))
  {
    hide Fold;
    var first := BackendWrites(configs, probes, 6) + GrpcWrites(grpc);
    var forward, back := Fold(first + CheckWrites(a)), Fold(first + CheckWrites(b));
    forall name ensures (name in forward <==> name in back) && (name in forward ==> forward[name] == back[name]) {
      SameEntry(first, a, b, name);
      SameEntry(first, b, a, name);
    }
    assert forward == back;
  }

  lemma SameEntry(first: seq<Write>, a: Outcomes, b: Outcomes, name: string)
    requires multiset(a) == multiset(b) && DistinctNames(a) && DistinctNames(b)
    ensures name in Fold(first + CheckWrites(a)) ==>
              && name in Fold(first + CheckWrites(b))
              && Fold(first + CheckWrites(a))[name] == Fold(first + CheckWrites(b))[name]
  {
    hide Fold;
    var wa, wb := first + CheckWrites(a), first + CheckWrites(b);
    FoldKeepsLastWrites(wa, name);
    FoldKeepsLastWrites(wb, name);
    if i: nat :| LastWriteAt(wa, name, i) {
      if i >= |first| {
        assert a[i - |first|] in multiset(a);
        assert a[i - |first|] in b;
        var j :| 0 <= j < |b| && b[j] == a[i - |first|];
        assert wb[|first| + j] == CheckWrites(b)[j] == CheckWrites(a)[i - |first|];
        DistinctLast(first, b, j);
      } else {
        forall j | i < j < |wb| ensures wb[j].name != name {
          if j < |first| {
            assert wb[j] == wa[j];
          } else {
            assert b[j - |first|] in multiset(b);
            assert b[j - |first|] in a;
            var k :| 0 <= k < |a| && a[k] == b[j - |first|];
            assert wa[|first| + k].name != name;
          }
        }
        assert LastWriteAt(wb, name, i);
      }
    }
  }

  lemma DistinctLast(first: seq<Write>, outcomes: Outcomes, j: nat)
    requires DistinctNames(outcomes) && j < |outcomes|
    ensures LastWriteAt(first + CheckWrites(outcomes), outcomes[j].0, |first| + j)
  {
    var writes := first + CheckWrites(outcomes);
    forall k | |first| + j < k < |writes| ensures writes[k].name != outcomes[j].0 {
      assert writes[k] == CheckWrites(outcomes)[k - |first|];
    }
  }

  // When not-ready names a cause.

  ghost predicate ShowsACause(writes: seq<Write>) {
    !NoneBlocks(writes) ==> exists name :: name in Fold(writes) && !Fold(writes)[name].healthy
  }

  /** Registered names that leave every blocking entry visible. */
  ghost predicate NamesAreSafe(configs: Configs, names: seq<string>) {
    && (forall i, j :: 0 <= i < j < |names| ==> names[i] != names[j])
    && (forall i, b :: 0 <= i < |names| && 0 <= b < 6 && configs[b].Some? && !configs[b].value.optional
                       ==> names[i] != BACKENDS[b])
  }

  ghost predicate OutcomesFor(outcomes: Outcomes, names: seq<string>) {
    |outcomes| == |names| && forall i :: 0 <= i < |names| ==> outcomes[i].0 == names[i]
  }

  ghost predicate AlwaysShowsACause(configs: Configs, grpc: Option<GrpcConfig>, names: seq<string>) {
    forall probes: Probes, outcomes: Outcomes :: OutcomesFor(outcomes, names) ==>
      ShowsACause(AllWrites(configs, probes, grpc, outcomes))
  }

  lemma SafeNamesShowACause(
    configs: Configs, probes: Probes, grpc: Option<GrpcConfig>, names: seq<string>, outcomes: Outcomes)
    requires NamesAreSafe(configs, names) && OutcomesFor(outcomes, names)
    ensures ShowsACause(AllWrites(configs, probes, grpc, outcomes))
  {
    hide Fold, BackendWrites, NamesAreSafe;
    var writes := AllWrites(configs, probes, grpc, outcomes);
    if i: nat :| i < |writes| && writes[i].blocking {
      BlockingIsLast(configs, probes, grpc, names, outcomes, i);
      FoldKeepsLastWrites(writes, writes[i].name);
    }
  }

  lemma BlockingIsLast(
    configs: Configs, probes: Probes, grpc: Option<GrpcConfig>, names: seq<string>, outcomes: Outcomes, i: nat)
    requires NamesAreSafe(configs, names) && OutcomesFor(outcomes, names)
    requires i < |AllWrites(configs, probes, grpc, outcomes)| && AllWrites(configs, probes, grpc, outcomes)[i].blocking
    ensures var writes := AllWrites(configs, probes, grpc, outcomes);
            !writes[i].status.healthy && LastWriteAt(writes, writes[i].name, i)
  {
    hide BackendWrites;
    var writes := AllWrites(configs, probes, grpc, outcomes);
    var backends := BackendWrites(configs, probes, 6);
    var built := backends + GrpcWrites(grpc);
    if i >= |built| {
      assert writes[i] == CheckWrites(outcomes)[i - |built|];
      assert DistinctNames(outcomes);
      DistinctLast(built, outcomes, i - |built|);
    } else {
      assert writes[i] == built[i] && i < |backends| && built[i] == backends[i];
      BlockingBackendIsLast(configs, probes, grpc, names, outcomes, i);
    }
  }

  lemma BlockingBackendIsLast(
    configs: Configs, probes: Probes, grpc: Option<GrpcConfig>, names: seq<string>, outcomes: Outcomes, i: nat)
    requires NamesAreSafe(configs, names) && OutcomesFor(outcomes, names)
    requires i < |BackendWrites(configs, probes, 6)| && BackendWrites(configs, probes, 6)[i].blocking
    ensures var writes := AllWrites(configs, probes, grpc, outcomes);
            i < |writes| && !writes[i].status.healthy && LastWriteAt(writes, writes[i].name, i)
  {
    hide BackendWrites;
    var backends := BackendWrites(configs, probes, 6);
    var writes := AllWrites(configs, probes, grpc, outcomes);
    assert writes[i] == backends[i];
    BackendWritesExactly(configs, probes, 6, backends[i]);
    var b :| 0 <= b < 6 && configs[b].Some? && backends[i] == BackendWrite(BACKENDS[b], configs[b].value, probes[b]);
    BackendNamesDistinct(b, b);
    forall j | i < j < |writes| ensures writes[j].name != writes[i].name {
      if j < |backends| {
        BackendWritesDistinct(configs, probes, 6, i, j);
      } else if j >= |backends| + |GrpcWrites(grpc)| {
        var k := j - |backends| - |GrpcWrites(grpc)|;
        assert writes[j] == CheckWrites(outcomes)[k];
        assert outcomes[k].0 == names[k];
      }
    }
  }

  /** If the only unhealthy entry is overwritten later, nothing unhealthy is left to see. */
  lemma OverwrittenCauseIsHidden(writes: seq<Write>, i: nat, j: nat)
    requires i < j < |writes| && writes[i].name == writes[j].name
    requires forall k :: 0 <= k < |writes| && k != i ==> writes[k].status.healthy
    ensures forall name :: name in Fold(writes) ==> Fold(writes)[name].healthy
  {
    hide Fold;
    forall name | name in Fold(writes) ensures Fold(writes)[name].healthy {
      FoldKeepsLastWrites(writes, name);
      var k: nat :| LastWriteAt(writes, name, k);
      assert k != i;
    }
  }

  function AllAnswer(): Probes {
    [Answered, Answered, Answered, Answered, Answered, Answered]
  }

  function AllReady(names: seq<string>): (o: Outcomes)
    ensures OutcomesFor(o, names) && forall i :: 0 <= i < |o| ==> o[i].1 == Ready
  {
    seq(|names|, i requires 0 <= i < |names| => (names[i], Ready))
  }

  lemma RepeatedNameHidesACause(configs: Configs, grpc: Option<GrpcConfig>, names: seq<string>, i: nat, j: nat)
    requires i < j < |names| && names[i] == names[j]
    ensures !AlwaysShowsACause(configs, grpc, names)
  {
    hide Fold, BackendWrites;
    var probes := AllAnswer();
    var outcomes := AllReady(names)[i := (names[i], Unready("down"))];
    assert OutcomesFor(outcomes, names);
    var built := BackendWrites(configs, probes, 6) + GrpcWrites(grpc);
    var writes := AllWrites(configs, probes, grpc, outcomes);
    forall k | 0 <= k < |writes| && k != |built| + i ensures writes[k].status.healthy {
      if k >= |built| {
        var c := k - |built|;
        assert writes[k] == CheckWrites(outcomes)[c] == CheckWrite(names[c], AllReady(names)[c].1);
      } else {
        assert writes[k] == built[k];
        BuiltInHealthy(configs, probes, grpc, built[k]);
      }
    }
    assert writes[|built| + i] == CheckWrites(outcomes)[i] && writes[|built| + j] == CheckWrites(outcomes)[j];
    OverwrittenCauseIsHidden(writes, |built| + i, |built| + j);
    assert !NoneBlocks(writes) by { assert writes[|built| + i].blocking; }
  }

  lemma BuiltInHealthy(configs: Configs, probes: Probes, grpc: Option<GrpcConfig>, w: Write)
    requires forall b :: 0 <= b < 6 ==> probes[b].Answered?
    requires w in BackendWrites(configs, probes, 6) + GrpcWrites(grpc)
    ensures w.status.healthy
  {
    hide BackendWrites;
    BackendWritesExactly(configs, probes, 6, w);
  }

  /** When every backend but `b` answers, every entry but `b`'s is healthy. */
  lemma OtherBackendHealthy(configs: Configs, probes: Probes, b: nat, p: nat, k: nat)
    requires b < 6 && forall c :: 0 <= c < 6 && c != b ==> probes[c].Answered?
    requires p < |BackendWrites(configs, probes, 6)| && k < |BackendWrites(configs, probes, 6)| && k != p
    requires BackendWrites(configs, probes, 6)[p].name == BACKENDS[b]
    ensures BackendWrites(configs, probes, 6)[k].status.healthy
  {
    hide BackendWrites;
    var w := BackendWrites(configs, probes, 6)[k];
    BackendWritesExactly(configs, probes, 6, w);
    var c :| 0 <= c < 6 && configs[c].Some? && w == BackendWrite(BACKENDS[c], configs[c].value, probes[c]);
    if k < p {
      BackendWritesDistinct(configs, probes, 6, k, p);
    } else {
      BackendWritesDistinct(configs, probes, 6, p, k);
    }
    assert c != b;
  }

  lemma ShadowedBackendHidesACause(configs: Configs, grpc: Option<GrpcConfig>, names: seq<string>, i: nat, b: nat)
    requires i < |names| && b < 6 && configs[b].Some? && !configs[b].value.optional && names[i] == BACKENDS[b]
    ensures !AlwaysShowsACause(configs, grpc, names)
  {
    hide Fold, BackendWrites;
    var probes := AllAnswer()[b := Failed("down")];
    var outcomes := AllReady(names);
    var backends := BackendWrites(configs, probes, 6);
    var built := backends + GrpcWrites(grpc);
    var writes := AllWrites(configs, probes, grpc, outcomes);
    var mine := BackendWrite(BACKENDS[b], configs[b].value, probes[b]);
    BackendWritesExactly(configs, probes, 6, mine);
    var p :| 0 <= p < |backends| && backends[p] == mine;
    forall k | 0 <= k < |writes| && k != p ensures writes[k].status.healthy {
      if k >= |built| {
        assert writes[k] == CheckWrites(outcomes)[k - |built|];
      } else if k < |backends| {
        assert writes[k] == backends[k];
        OtherBackendHealthy(configs, probes, b, p, k);
      }
    }
    assert writes[p] == mine && writes[|built| + i] == CheckWrites(outcomes)[i];
    OverwrittenCauseIsHidden(writes, p, |built| + i);
    assert !NoneBlocks(writes) by { assert writes[p].blocking; }
  }

  /**
    A not-ready answer always lists an unhealthy dependency exactly when the registered names are
    pairwise distinct and none is the name of a configured required backend.
   */
  lemma CauseShownExactly(configs: Configs, grpc: Option<GrpcConfig>, names: seq<string>)
    ensures AlwaysShowsACause(configs, grpc, names) <==> NamesAreSafe(configs, names)
  {
    if NamesAreSafe(configs, names) {
      forall probes: Probes, outcomes: Outcomes | OutcomesFor(outcomes, names)
        ensures ShowsACause(AllWrites(configs, probes, grpc, outcomes))
      {
        SafeNamesShowACause(configs, probes, grpc, names, outcomes);
      }
    } else if i, j :| 0 <= i < j < |names| && names[i] == names[j] {
      RepeatedNameHidesACause(configs, grpc, names, i, j);
    } else {
      var i, b :| 0 <= i < |names| && 0 <= b < 6 && configs[b].Some? && !configs[b].value.optional && names[i] == BACKENDS[b];
      ShadowedBackendHidesACause(configs, grpc, names, i, b);
    }
  }

  /**
    From the scheduler to the answer: a check that never resolves by itself makes the service not ready
    once the report is complete, and with safe names its entry says that it timed out.
   */
  lemma StalledCheckIsNotReady(
    expiry: nat, names: seq<string>, schedule: seq<Poll>, i: nat,
    configs: Configs, probes: Probes, grpc: Option<GrpcConfig>)
    requires i < |names| && Complete(Run(expiry, |names|, schedule))
    requires forall poll :: poll in schedule && poll.check == i ==> poll.answer.None?
    ensures var writes := AllWrites(configs, probes, grpc, Report(names, Run(expiry, |names|, schedule)));
            && !NoneBlocks(writes)
            && (NamesAreSafe(configs, names) ==>
                  names[i] in Fold(writes) && Fold(writes)[names[i]] == DependencyStatus(false, Some(TIMED_OUT)))
  {
    hide Fold, BackendWrites;
    NeverReadyTimesOut(expiry, |names|, schedule, i);
    var outcomes := Report(names, Run(expiry, |names|, schedule));
    assert outcomes[i] == (names[i], Unready(TIMED_OUT));
    ReadyExactly(configs, probes, grpc, outcomes);
    if NamesAreSafe(configs, names) {
      var built := BackendWrites(configs, probes, 6) + GrpcWrites(grpc);
      DistinctLast(built, outcomes, i);
      FoldKeepsLastWrites(built + CheckWrites(outcomes), names[i]);
    }
  }
}
