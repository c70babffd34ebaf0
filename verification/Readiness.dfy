/** The readiness probe: a dependency map and one flag, folded from backend probes and app checks. */
module Readiness {
  import opened Wrappers
  import opened Checks

  datatype BackendConfig = BackendConfig(optional: bool, lazyInit: bool)

  /** What probing a configured backend found; a failure carries its formatted message. */
  datatype Probe = NotConnected | Answered | Failed(message: string)

  datatype GrpcConfig = GrpcConfig(enabled: bool, healthCheckEnabled: bool, reflectionEnabled: bool)

  datatype DependencyStatus = DependencyStatus(healthy: bool, message: Option<string>)

  /** The built-in backends, in the order they are probed. */
  const BACKENDS: seq<string> := ["database", "redis", "nats", "turso", "surrealdb", "clickhouse"]
  const GRPC: string := "grpc"

  type Configs = c: seq<Option<BackendConfig>> | |c| == 6 witness [None, None, None, None, None, None]
  type Probes = p: seq<Probe> | |p| == 6
    witness [NotConnected, NotConnected, NotConnected, NotConnected, NotConnected, NotConnected]

  /** One insertion into the map, and whether it also clears the flag. */
  datatype Write = Write(name: string, status: DependencyStatus, blocking: bool)

  function BackendStatus(config: BackendConfig, probe: Probe): DependencyStatus {
    match probe
    case Answered => DependencyStatus(true, Some("Connected"))
    case Failed(message) => DependencyStatus(false, Some(message))
    case NotConnected =>
      DependencyStatus(false, Some(if config.lazyInit then "Connection initializing (lazy mode)" else "Not connected"))
  }

  function BackendWrite(name: string, config: BackendConfig, probe: Probe): Write {
    Write(name, BackendStatus(config, probe), !probe.Answered? && !config.optional)
  }

  function BackendWrites(configs: Configs, probes: Probes, upto: nat): seq<Write>
    requires upto <= 6
  {
    if upto == 0 then []
    else
      BackendWrites(configs, probes, upto - 1) +
      (match configs[upto - 1]
       case None => []
       case Some(config) => [BackendWrite(BACKENDS[upto - 1], config, probes[upto - 1])])
  }

  function BoolText(b: bool): string {
    if b then "true" else "false"
  }

  function GrpcMessage(g: GrpcConfig): string {
    if g.enabled
    then "Enabled (health: " + BoolText(g.healthCheckEnabled) + ", reflection: " + BoolText(g.reflectionEnabled) + ")"
    else "Disabled"
  }

  function GrpcWrites(grpc: Option<GrpcConfig>): seq<Write> {
    match grpc
    case None => []
    case Some(g) =>
      [Write(GRPC, DependencyStatus(true, Some(GrpcMessage(g))), false)]
  }

  function CheckWrite(name: string, outcome: CheckOutcome): Write {
    match outcome
    case Ready => Write(name, DependencyStatus(true, None), false)
    case ReadyWithMessage(m) => Write(name, DependencyStatus(true, Some(m)), false)
    case Degraded(m) => Write(name, DependencyStatus(false, Some(m)), false)
    case Unready(m) => Write(name, DependencyStatus(false, Some(m)), true)
  }

  function CheckWrites(outcomes: Outcomes): (w: seq<Write>)
    ensures |w| == |outcomes|
    ensures forall i :: 0 <= i < |w| ==> w[i] == CheckWrite(outcomes[i].0, outcomes[i].1)
  {
    seq(|outcomes|, i requires 0 <= i < |outcomes| => CheckWrite(outcomes[i].0, outcomes[i].1))
  }

  function AllWrites(configs: Configs, probes: Probes, grpc: Option<GrpcConfig>, outcomes: Outcomes): seq<Write> {
    BackendWrites(configs, probes, 6) + GrpcWrites(grpc) + CheckWrites(outcomes)
  }

  function Fold(writes: seq<Write>): map<string, DependencyStatus> {
    if writes == [] then map[]
    else
      var last := writes[|writes| - 1];
      Fold(writes[..|writes| - 1])[last.name := last.status]
  }

  predicate NoneBlocks(writes: seq<Write>) {
    forall i :: 0 <= i < |writes| ==> !writes[i].blocking
  }

  /** `i` is the last write to `name`. */
  ghost predicate LastWriteAt(writes: seq<Write>, name: string, i: nat) {
    i < |writes| && writes[i].name == name && forall j :: i < j < |writes| ==> writes[j].name != name
  }

  /** The map holds exactly the written names, each with its last-written status. */
  lemma {:induction false} FoldKeepsLastWrites(writes: seq<Write>, name: string)
    ensures name in Fold(writes) <==> exists i: nat :: LastWriteAt(writes, name, i)
    ensures forall i: nat :: LastWriteAt(writes, name, i) ==> Fold(writes)[name] == writes[i].status
  {
    if writes != [] {
      var n := |writes| - 1;
      var front := writes[..n];
      FoldKeepsLastWrites(front, name);
      if writes[n].name == name {
        assert LastWriteAt(writes, name, n);
      } else {
        assert forall i: nat :: LastWriteAt(front, name, i) <==> LastWriteAt(writes, name, i);
      }
    }
  }

  lemma {:induction false} BackendWritesExactly(configs: Configs, probes: Probes, upto: nat, w: Write)
    requires upto <= 6
    ensures w in BackendWrites(configs, probes, upto) <==>
            exists b :: 0 <= b < upto && configs[b].Some? && w == BackendWrite(BACKENDS[b], configs[b].value, probes[b])
  {
    if upto > 0 {
      BackendWritesExactly(configs, probes, upto - 1, w);
    }
  }

  lemma BackendNamesDistinct(a: nat, b: nat)
    requires a < 6 && b < 6
    ensures BACKENDS[a] == BACKENDS[b] <==> a == b
    ensures BACKENDS[a] != GRPC
  {
    assert BACKENDS[1][0] == 'r' && BACKENDS[3][0] == 't' && BACKENDS[2][0] == 'n' && GRPC[0] == 'g';
    assert |BACKENDS[0]| == 8 && |BACKENDS[1]| == 5 && |BACKENDS[2]| == 4 && |BACKENDS[3]| == 5
        && |BACKENDS[4]| == 9 && |BACKENDS[5]| == 10;
  }

  /** A blocking backend entry is overwritten by no other built-in entry. */
  lemma {:induction false} BackendWritesDistinct(configs: Configs, probes: Probes, upto: nat, i: nat, j: nat)
    requires upto <= 6 && i < j < |BackendWrites(configs, probes, upto)|
    ensures BackendWrites(configs, probes, upto)[i].name != BackendWrites(configs, probes, upto)[j].name
  {
    var writes := BackendWrites(configs, probes, upto);
    var front := BackendWrites(configs, probes, upto - 1);
    if j < |front| {
      BackendWritesDistinct(configs, probes, upto - 1, i, j);
    } else {
      BackendWritesExactly(configs, probes, upto - 1, front[i]);
      var b :| 0 <= b < upto - 1 && configs[b].Some? && front[i] == BackendWrite(BACKENDS[b], configs[b].value, probes[b]);
      BackendNamesDistinct(b, upto - 1);
    }
  }

  // What the map shows, said without the writes.

  /** A check that is ready shows healthy; its message is its own. */
  ghost predicate ShowsCheck(outcome: CheckOutcome, status: DependencyStatus) {
    && (status.healthy <==> outcome.Ready? || outcome.ReadyWithMessage?)
    && status.message == if outcome.Ready? then None else Some(outcome.message)
  }

  /** A backend shows healthy exactly when it answered, whether or not it is optional. */
  ghost predicate ShowsBackend(config: BackendConfig, probe: Probe, status: DependencyStatus) {
    && (status.healthy <==> probe.Answered?)
    && (probe.Answered? ==> status.message == Some("Connected"))
    && (probe.Failed? ==> status.message == Some(probe.message))
    && (probe.NotConnected? && config.lazyInit ==> status.message == Some("Connection initializing (lazy mode)"))
    && (probe.NotConnected? && !config.lazyInit ==> status.message == Some("Not connected"))
  }

  ghost predicate ShowsGrpc(g: GrpcConfig, status: DependencyStatus) {
    && status.healthy
    && (!g.enabled ==> status.message == Some("Disabled"))
    && (g.enabled && g.healthCheckEnabled && g.reflectionEnabled ==>
          status.message == Some("Enabled (health: true, reflection: true)"))
    && (g.enabled && g.healthCheckEnabled && !g.reflectionEnabled ==>
          status.message == Some("Enabled (health: true, reflection: false)"))
    && (g.enabled && !g.healthCheckEnabled && g.reflectionEnabled ==>
          status.message == Some("Enabled (health: false, reflection: true)"))
    && (g.enabled && !g.healthCheckEnabled && !g.reflectionEnabled ==>
          status.message == Some("Enabled (health: false, reflection: false)"))
  }

  ghost predicate Registered(outcomes: Outcomes, name: string) {
    exists i :: 0 <= i < |outcomes| && outcomes[i].0 == name
  }

  /** The last outcome of each registered name; of the built-in entries, those no check has the name of. */
  ghost predicate MapShows(
    configs: Configs, probes: Probes, grpc: Option<GrpcConfig>, outcomes: Outcomes, deps: map<string, DependencyStatus>)
  {
    var builtIn := ["database", "redis", "nats", "turso", "surrealdb", "clickhouse"];
    && (forall i :: 0 <= i < |outcomes| && (forall j :: i < j < |outcomes| ==> outcomes[j].0 != outcomes[i].0) ==>
          outcomes[i].0 in deps && ShowsCheck(outcomes[i].1, deps[outcomes[i].0]))
    && (forall b :: 0 <= b < 6 && configs[b].Some? && !Registered(outcomes, builtIn[b]) ==>
          builtIn[b] in deps && ShowsBackend(configs[b].value, probes[b], deps[builtIn[b]]))
    && (grpc.Some? && !Registered(outcomes, "grpc") ==> "grpc" in deps && ShowsGrpc(grpc.value, deps["grpc"]))
    && (forall name :: name in deps ==>
          || Registered(outcomes, name)
          || (exists b :: 0 <= b < 6 && configs[b].Some? && builtIn[b] == name)
          || (grpc.Some? && name == "grpc"))
  }

  lemma CheckShown(first: seq<Write>, outcomes: Outcomes, i: nat)
    requires i < |outcomes| && forall j :: i < j < |outcomes| ==> outcomes[j].0 != outcomes[i].0
    ensures var deps := Fold(first + CheckWrites(outcomes));
            outcomes[i].0 in deps && ShowsCheck(outcomes[i].1, deps[outcomes[i].0])
  {
    hide Fold;
    var writes := first + CheckWrites(outcomes);
    forall k | |first| + i < k < |writes| ensures writes[k].name != outcomes[i].0 {
      assert writes[k] == CheckWrites(outcomes)[k - |first|];
    }
    assert writes[|first| + i] == CheckWrites(outcomes)[i];
    assert LastWriteAt(writes, outcomes[i].0, |first| + i);
    FoldKeepsLastWrites(writes, outcomes[i].0);
  }

  /** An entry that nothing built-in overwrites shows through when no check has its name. */
  lemma BuiltInShown(first: seq<Write>, outcomes: Outcomes, p: nat)
    requires p < |first| && LastWriteAt(first, first[p].name, p) && !Registered(outcomes, first[p].name)
    ensures var deps := Fold(first + CheckWrites(outcomes));
            first[p].name in deps && deps[first[p].name] == first[p].status
  {
    hide Fold;
    var writes := first + CheckWrites(outcomes);
    forall k | p < k < |writes| ensures writes[k].name != first[p].name {
      if k >= |first| {
        assert writes[k] == CheckWrites(outcomes)[k - |first|];
      }
    }
    assert LastWriteAt(writes, first[p].name, p);
    FoldKeepsLastWrites(writes, first[p].name);
  }

  lemma BackendShown(configs: Configs, probes: Probes, grpc: Option<GrpcConfig>, outcomes: Outcomes, b: nat)
    requires b < 6 && configs[b].Some? && !Registered(outcomes, BACKENDS[b])
    ensures var deps := Fold(AllWrites(configs, probes, grpc, outcomes));
            BACKENDS[b] in deps && ShowsBackend(configs[b].value, probes[b], deps[BACKENDS[b]])
  {
    hide Fold, BackendWrites;
    var backends := BackendWrites(configs, probes, 6);
    var first := backends + GrpcWrites(grpc);
    BackendWritesExactly(configs, probes, 6, BackendWrite(BACKENDS[b], configs[b].value, probes[b]));
    var p :| 0 <= p < |backends| && backends[p] == BackendWrite(BACKENDS[b], configs[b].value, probes[b]);
    BackendNamesDistinct(b, b);
    forall k | p < k < |first| ensures first[k].name != BACKENDS[b] {
      if k < |backends| {
        BackendWritesDistinct(configs, probes, 6, p, k);
      }
    }
    BuiltInShown(first, outcomes, p);
  }

  lemma GrpcShown(configs: Configs, probes: Probes, g: GrpcConfig, outcomes: Outcomes)
    requires !Registered(outcomes, GRPC)
    ensures var deps := Fold(AllWrites(configs, probes, Some(g), outcomes));
            GRPC in deps && ShowsGrpc(g, deps[GRPC])
  {
    hide Fold, BackendWrites;
    var backends := BackendWrites(configs, probes, 6);
    BuiltInShown(backends + GrpcWrites(Some(g)), outcomes, |backends|);
    GrpcTexts(g);
  }

  lemma GrpcTexts(g: GrpcConfig)
    ensures ShowsGrpc(g, DependencyStatus(true, Some(GrpcMessage(g))))
  {
    assert "Enabled (health: " + "true" == "Enabled (health: true";
    assert "Enabled (health: " + "false" == "Enabled (health: false";
    assert "Enabled (health: true" + ", reflection: " == "Enabled (health: true, reflection: ";
    assert "Enabled (health: false" + ", reflection: " == "Enabled (health: false, reflection: ";
    assert "Enabled (health: true, reflection: " + "true" + ")" == "Enabled (health: true, reflection: true)";
    assert "Enabled (health: true, reflection: " + "false" + ")" == "Enabled (health: true, reflection: false)";
    assert "Enabled (health: false, reflection: " + "true" + ")" == "Enabled (health: false, reflection: true)";
    assert "Enabled (health: false, reflection: " + "false" + ")" == "Enabled (health: false, reflection: false)";
  }

  lemma NothingElseShown(
    configs: Configs, probes: Probes, grpc: Option<GrpcConfig>, outcomes: Outcomes, name: string)
    requires name in Fold(AllWrites(configs, probes, grpc, outcomes))
    ensures || Registered(outcomes, name)
            || (exists b :: 0 <= b < 6 && configs[b].Some? && BACKENDS[b] == name)
            || (grpc.Some? && name == GRPC)
  {
    hide Fold, BackendWrites;
    var writes := AllWrites(configs, probes, grpc, outcomes);
    var backends := BackendWrites(configs, probes, 6);
    var built := backends + GrpcWrites(grpc);
    FoldKeepsLastWrites(writes, name);
    var i: nat :| LastWriteAt(writes, name, i);
    if i < |backends| {
      assert writes[i] == backends[i];
      BackendWritesExactly(configs, probes, 6, backends[i]);
    } else if i >= |built| {
      assert writes[i] == CheckWrites(outcomes)[i - |built|];
    }
  }

  lemma FoldShows(configs: Configs, probes: Probes, grpc: Option<GrpcConfig>, outcomes: Outcomes)
    ensures MapShows(configs, probes, grpc, outcomes, Fold(AllWrites(configs, probes, grpc, outcomes)))
  {
    hide Fold, BackendWrites, ShowsCheck, ShowsBackend, ShowsGrpc, Registered;
    var deps := Fold(AllWrites(configs, probes, grpc, outcomes));
    forall i | 0 <= i < |outcomes| && (forall j :: i < j < |outcomes| ==> outcomes[j].0 != outcomes[i].0)
      ensures outcomes[i].0 in deps && ShowsCheck(outcomes[i].1, deps[outcomes[i].0])
    {
      CheckShown(BackendWrites(configs, probes, 6) + GrpcWrites(grpc), outcomes, i);
    }
    forall b | 0 <= b < 6 && configs[b].Some? && !Registered(outcomes, BACKENDS[b])
      ensures BACKENDS[b] in deps && ShowsBackend(configs[b].value, probes[b], deps[BACKENDS[b]])
    {
      BackendShown(configs, probes, grpc, outcomes, b);
    }
    if grpc.Some? && !Registered(outcomes, GRPC) {
      GrpcShown(configs, probes, grpc.value, outcomes);
    }
    forall name | name in deps
      ensures || Registered(outcomes, name)
              || (exists b :: 0 <= b < 6 && configs[b].Some? && BACKENDS[b] == name)
              || (grpc.Some? && name == GRPC)
    {
      NothingElseShown(configs, probes, grpc, outcomes, name);
    }
  }

  // The handler.

  /** The block the source repeats for each backend. */
  method CheckBackend(
    name: string, config: Option<BackendConfig>, probe: Probe,
    dependencies: map<string, DependencyStatus>, allReady: bool)
    returns (deps: map<string, DependencyStatus>, ready: bool)
    ensures config.None? ==> deps == dependencies && ready == allReady
    ensures config.Some? ==>
              && name in deps && ShowsBackend(config.value, probe, deps[name])
              && ready == (allReady && (probe.Answered? || config.value.optional))
    ensures config.Some? ==>
              var w := BackendWrite(name, config.value, probe);
              deps == dependencies[name := w.status] && ready == (allReady && !w.blocking)
  {
    deps, ready := dependencies, allReady;
    if config.Some? {
      match probe
      case Answered =>
        deps := deps[name := DependencyStatus(true, Some("Connected"))];
      case Failed(message) =>
        if !config.value.optional { ready := false; }
        deps := deps[name := DependencyStatus(false, Some(message))];
      case NotConnected =>
        if !config.value.optional { ready := false; }
        var message := if config.value.lazyInit then "Connection initializing (lazy mode)" else "Not connected";
        deps := deps[name := DependencyStatus(false, Some(message))];
    }
  }

  lemma FoldSnoc(writes: seq<Write>, w: Write)
    ensures Fold(writes + [w]) == Fold(writes)[w.name := w.status]
    ensures NoneBlocks(writes + [w]) <==> NoneBlocks(writes) && !w.blocking
  {
    assert (writes + [w])[..|writes|] == writes;
    assert NoneBlocks(writes + [w]) ==> NoneBlocks(writes) && !w.blocking by {
      assert forall i :: 0 <= i < |writes| ==> (writes + [w])[i] == writes[i];
      assert (writes + [w])[|writes|] == w;
    }
  }

  lemma BackendStep(configs: Configs, probes: Probes, b: nat)
    requires b < 6
    ensures configs[b].None? ==> BackendWrites(configs, probes, b + 1) == BackendWrites(configs, probes, b)
    ensures configs[b].Some? ==>
              var w := BackendWrite(BACKENDS[b], configs[b].value, probes[b]);
              && BackendWrites(configs, probes, b + 1) == BackendWrites(configs, probes, b) + [w]
              && Fold(BackendWrites(configs, probes, b + 1)) == Fold(BackendWrites(configs, probes, b))[w.name := w.status]
              && (NoneBlocks(BackendWrites(configs, probes, b + 1)) <==>
                  NoneBlocks(BackendWrites(configs, probes, b)) && !w.blocking)
  {
    if configs[b].Some? {
      FoldSnoc(BackendWrites(configs, probes, b), BackendWrite(BACKENDS[b], configs[b].value, probes[b]));
    }
  }

  method CheckBackends(configs: Configs, probes: Probes) returns (deps: map<string, DependencyStatus>, ready: bool)
    ensures deps == Fold(BackendWrites(configs, probes, 6))
    ensures ready <==> NoneBlocks(BackendWrites(configs, probes, 6))
  {
    hide BackendWrites, Fold, NoneBlocks, ShowsBackend;
    BackendsStart(configs, probes);
    deps, ready := map[], true;
    deps, ready := CheckBackend(BACKENDS[0], configs[0], probes[0], deps, ready);
    BackendStep(configs, probes, 0);
    deps, ready := CheckBackend(BACKENDS[1], configs[1], probes[1], deps, ready);
    BackendStep(configs, probes, 1);
    deps, ready := CheckBackend(BACKENDS[2], configs[2], probes[2], deps, ready);
    BackendStep(configs, probes, 2);
    deps, ready := CheckBackend(BACKENDS[3], configs[3], probes[3], deps, ready);
    BackendStep(configs, probes, 3);
    deps, ready := CheckBackend(BACKENDS[4], configs[4], probes[4], deps, ready);
    BackendStep(configs, probes, 4);
    deps, ready := CheckBackend(BACKENDS[5], configs[5], probes[5], deps, ready);
    BackendStep(configs, probes, 5);
  }

  lemma BackendsStart(configs: Configs, probes: Probes)
    ensures BackendWrites(configs, probes, 0) == []
    ensures Fold(BackendWrites(configs, probes, 0)) == map[] && NoneBlocks(BackendWrites(configs, probes, 0))
  {
  }

  method ReadinessProbe(configs: Configs, probes: Probes, grpc: Option<GrpcConfig>, outcomes: Outcomes)
    returns (ready: bool, dependencies: map<string, DependencyStatus>)
    ensures dependencies == Fold(AllWrites(configs, probes, grpc, outcomes))
    ensures MapShows(configs, probes, grpc, outcomes, dependencies)
    ensures ready <==> RequiredBackendsAnswer(configs, probes) && NoCheckUnready(outcomes)
  {
    hide BackendWrites, Fold, NoneBlocks, RequiredBackendsAnswer, NoCheckUnready, MapShows;
    var allReady;
    dependencies, allReady := CheckBackends(configs, probes);
    ghost var done := BackendWrites(configs, probes, 6);
    if grpc.Some? {
      var message := GrpcMessage(grpc.value);
      FoldSnoc(done, GrpcWrites(grpc)[0]);
      done := done + [GrpcWrites(grpc)[0]];
      dependencies := dependencies[GRPC := DependencyStatus(true, Some(message))];
    }
    ghost var builtIn := done;
    ghost var writes := CheckWrites(outcomes);
    for i := 0 to |outcomes|
      invariant done == builtIn + writes[..i]
      invariant dependencies == Fold(done)
      invariant allReady <==> NoneBlocks(done)
    {
      var (name, outcome) := outcomes[i];
      var status;
      match outcome {
        case Ready => status := DependencyStatus(true, None);
        case ReadyWithMessage(message) => status := DependencyStatus(true, Some(message));
        case Degraded(message) => status := DependencyStatus(false, Some(message));
        case Unready(message) =>
          allReady := false;
          status := DependencyStatus(false, Some(message));
      }
      dependencies := dependencies[name := status];
      FoldSnoc(done, writes[i]);
      done := done + [writes[i]];
      assert writes[..i + 1] == writes[..i] + [writes[i]];
    }
    assert writes[..|outcomes|] == writes;
    assert done == AllWrites(configs, probes, grpc, outcomes);
    ReadyExactly(configs, probes, grpc, outcomes);
    FoldShows(configs, probes, grpc, outcomes);
    ready := allReady;
  }

  // When the probe says ready, without reference to the fold.

  ghost predicate RequiredBackendsAnswer(configs: Configs, probes: Probes) {
    forall b :: 0 <= b < 6 && configs[b].Some? && !configs[b].value.optional ==> probes[b].Answered?
  }

  lemma ReadyExactly(configs: Configs, probes: Probes, grpc: Option<GrpcConfig>, outcomes: Outcomes)
    ensures NoneBlocks(AllWrites(configs, probes, grpc, outcomes)) <==>
            RequiredBackendsAnswer(configs, probes) && NoCheckUnready(outcomes)
  {
    hide BackendWrites;
    var first := BackendWrites(configs, probes, 6);
    var writes := AllWrites(configs, probes, grpc, outcomes);
    assert NoneBlocks(writes) <==> NoneBlocks(first) && NoneBlocks(CheckWrites(outcomes)) by {
      BlocksSplit(first + GrpcWrites(grpc), CheckWrites(outcomes));
      BlocksSplit(first, GrpcWrites(grpc));
    }
    forall b | 0 <= b < 6 && configs[b].Some?
      ensures BackendWrite(BACKENDS[b], configs[b].value, probes[b]) in first
    {
      BackendWritesExactly(configs, probes, 6, BackendWrite(BACKENDS[b], configs[b].value, probes[b]));
    }
    forall i | 0 <= i < |first|
      ensures exists b :: 0 <= b < 6 && configs[b].Some? && first[i] == BackendWrite(BACKENDS[b], configs[b].value, probes[b])
    {
      BackendWritesExactly(configs, probes, 6, first[i]);
    }
  }

  lemma BlocksSplit(a: seq<Write>, b: seq<Write>)
    ensures NoneBlocks(a + b) <==> NoneBlocks(a) && NoneBlocks(b)
  {
    if NoneBlocks(a + b) {
      assert forall i :: 0 <= i < |a| ==> a[i] == (a + b)[i];
      assert forall i :: 0 <= i < |b| ==> b[i] == (a + b)[|a| + i];
    }
  }
}
