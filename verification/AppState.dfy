/**
  Building the application state: each backend slot is provided, connected at once, or filled later by
  a background task, and the readiness probe reads whatever the slots hold by then.
 */
module AppState {
  import opened Wrappers
  import opened Checks
  import opened Readiness

  /** One backend as the builder sees it; `connect` is what connecting it would return. */
  datatype Spec<P, E> = Spec(provided: Option<P>, config: Option<BackendConfig>, connect: Result<P, E>)

  /** Database, cache and events, in the order the builder visits them. */
  const BUILT: nat := 3

  datatype Task = NoTask | Running | Finished

  datatype Verdict<E> = Building | Built | BuildFailed(error: E)

  /** `slots` and `tasks` hold one entry per backend visited so far. */
  datatype State<P, E> = State(slots: seq<Option<P>>, tasks: seq<Task>, verdict: Verdict<E>)

  /** The builder visits its next backend, or the background task of backend `b` ends. */
  datatype Event = Visit | TaskEnds(b: nat)

  ghost predicate IsLazy<P, E>(spec: Spec<P, E>) {
    spec.provided.None? && spec.config.Some? && spec.config.value.lazyInit
  }

  /** A configured backend that was not provided, connects at once, is required, and cannot connect. */
  ghost predicate MustFail<P, E>(spec: Spec<P, E>) {
    && spec.provided.None? && spec.config.Some?
    && !spec.config.value.lazyInit && !spec.config.value.optional
    && spec.connect.Failure?
  }

  /** What visiting a backend leaves in its slot, with the task it starts, or the error that ends the build. */
  function Visited<P, E>(spec: Spec<P, E>): Result<(Option<P>, Task), E> {
    if spec.provided.Some? then Success((spec.provided, NoTask))
    else if spec.config.None? then Success((None, NoTask))
    else if spec.config.value.lazyInit then Success((None, Running))
    else
      match spec.connect
      case Success(pool) => Success((Some(pool), NoTask))
      case Failure(e) => if spec.config.value.optional then Success((None, NoTask)) else Failure(e)
  }

  ghost predicate Init<P(!new), E(!new)>(s: State<P, E>) {
    s.slots == [] && s.tasks == [] && s.verdict.Building?
  }

  predicate Enabled<P, E>(specs: seq<Spec<P, E>>, s: State<P, E>, e: Event) {
    match e
    case Visit => s.verdict.Building? && |s.slots| < |specs|
    case TaskEnds(b) => b < |s.tasks| && b < |s.slots| && b < |specs| && s.tasks[b].Running?
  }

  function Apply<P, E>(specs: seq<Spec<P, E>>, s: State<P, E>, e: Event): State<P, E>
    requires Enabled(specs, s, e)
  {
    match e
    case Visit =>
      (match Visited(specs[|s.slots|])
       case Failure(error) => s.(verdict := BuildFailed(error))
       case Success((slot, task)) =>
         State(s.slots + [slot], s.tasks + [task], if |s.slots| + 1 == |specs| then Built else Building))
    case TaskEnds(b) =>
      var connected := specs[b].connect;
      s.(slots := if connected.Success? then s.slots[b := Some(connected.value)] else s.slots,
         tasks := s.tasks[b := Finished])
  }

  ghost predicate IsRun<P(!new), E(!new)>(specs: seq<Spec<P, E>>, run: seq<State<P, E>>, events: seq<Event>) {
    && |specs| == BUILT && |run| == |events| + 1 && Init(run[0])
    && forall i :: 0 <= i < |events| ==> Enabled(specs, run[i], events[i]) && run[i + 1] == Apply(specs, run[i], events[i])
  }

  // What every interleaving keeps.

  /** A slot holds what its backend's kind and its task's progress say, and nothing else. */
  ghost predicate SlotOk<P, E>(spec: Spec<P, E>, slot: Option<P>, task: Task) {
    && (task.NoTask? <==> !IsLazy(spec))
    && (spec.provided.Some? ==> slot == spec.provided)
    && (spec.provided.None? && spec.config.None? ==> slot == None)
    && (IsLazy(spec) ==>
          slot == if task.Finished? && spec.connect.Success? then Some(spec.connect.value) else None)
    && (spec.provided.None? && spec.config.Some? && !spec.config.value.lazyInit ==>
          slot == if spec.connect.Success? then Some(spec.connect.value) else None)
  }

  /** A visit fails exactly as it must, and otherwise leaves the slot its backend's kind prescribes. */
  lemma VisitedExactly<P, E>(spec: Spec<P, E>)
    ensures Visited(spec).Failure? <==> MustFail(spec)
    ensures Visited(spec).Failure? ==> Visited(spec).error == spec.connect.error
    ensures Visited(spec).Success? ==>
              var (slot, task) := Visited(spec).value;
              SlotOk(spec, slot, task) && task == if IsLazy(spec) then Running else NoTask
  {
  }

  ghost predicate Inv<P(!new), E(!new)>(specs: seq<Spec<P, E>>, s: State<P, E>) {
    && |s.tasks| == |s.slots| <= |specs| == BUILT
    && (forall b :: 0 <= b < |s.slots| ==> SlotOk(specs[b], s.slots[b], s.tasks[b]))
    && (forall b :: 0 <= b < |s.slots| ==> !MustFail(specs[b]))
    && (s.verdict.Built? <==> |s.slots| == |specs|)
    && (s.verdict.BuildFailed? ==> |s.slots| < |specs| && MustFail(specs[|s.slots|])
                                   && s.verdict.error == specs[|s.slots|].connect.error)
  }

  lemma {:induction false} RunKeepsInv<P(!new), E(!new)>(
    specs: seq<Spec<P, E>>, run: seq<State<P, E>>, events: seq<Event>, i: nat)
    requires IsRun(specs, run, events) && i < |run|
    ensures Inv(specs, run[i])
  {
    if i > 0 {
      RunKeepsInv(specs, run, events, i - 1);
      StepKeepsInv(specs, run[i - 1], events[i - 1]);
    }
  }

  lemma StepKeepsInv<P(!new), E(!new)>(specs: seq<Spec<P, E>>, s: State<P, E>, e: Event)
    requires Inv(specs, s) && Enabled(specs, s, e)
    ensures Inv(specs, Apply(specs, s, e))
  {
    if e.TaskEnds? {
      assert SlotOk(specs[e.b], s.slots[e.b], s.tasks[e.b]);
    }
  }

  // The build's verdict.

  /** The first backend that must fail the build. */
  ghost predicate FirstFailure<P(!new), E(!new)>(specs: seq<Spec<P, E>>, b: nat) {
    b < |specs| && MustFail(specs[b]) && forall a :: 0 <= a < b ==> !MustFail(specs[a])
  }

  /**
    However background tasks interleave with the build, it fails exactly when some configured,
    non-provided, eager, required backend cannot connect, and then with the first such backend's error.
   */
  lemma BuildFailsExactly<P(!new), E(!new)>(
    specs: seq<Spec<P, E>>, run: seq<State<P, E>>, events: seq<Event>, i: nat)
    requires IsRun(specs, run, events) && i < |run| && !run[i].verdict.Building?
    ensures run[i].verdict.BuildFailed? <==> exists b :: 0 <= b < |specs| && MustFail(specs[b])
    ensures run[i].verdict.BuildFailed? ==>
              exists b: nat :: FirstFailure(specs, b) && run[i].verdict.error == specs[b].connect.error
  {
    RunKeepsInv(specs, run, events, i);
    if run[i].verdict.BuildFailed? {
      assert FirstFailure(specs, |run[i].slots|);
    }
  }

  // The slots over time.

  lemma {:induction false} SlotsOnlyFill<P(!new), E(!new)>(
    specs: seq<Spec<P, E>>, run: seq<State<P, E>>, events: seq<Event>, i: nat, j: nat, b: nat)
    requires IsRun(specs, run, events) && i <= j < |run| && b < BUILT && b < |run[i].slots|
    ensures b < |run[j].slots| && b < |run[i].tasks| && b < |run[j].tasks|
    ensures run[i].slots[b].Some? ==> run[j].slots[b] == run[i].slots[b]
    ensures run[i].tasks[b].Finished? ==> run[j].slots[b] == run[i].slots[b] && run[j].tasks[b].Finished?
    ensures !IsLazy(specs[b]) ==> run[j].slots[b] == run[i].slots[b]
  {
    hide Apply, IsLazy, SlotOk, MustFail;
    RunKeepsInv(specs, run, events, i);
    RunKeepsInv(specs, run, events, j);
    if i < j {
      SlotsOnlyFill(specs, run, events, i, j - 1, b);
      RunKeepsInv(specs, run, events, j - 1);
      StepOnlyFills(specs, run[j - 1], events[j - 1], b);
    }
  }

  lemma StepOnlyFills<P(!new), E(!new)>(specs: seq<Spec<P, E>>, s: State<P, E>, e: Event, b: nat)
    requires Inv(specs, s) && Enabled(specs, s, e) && b < |s.slots|
    ensures var t := Apply(specs, s, e);
            && b < |t.slots| && b < |t.tasks|
            && (s.slots[b].Some? ==> t.slots[b] == s.slots[b])
            && (s.tasks[b].Finished? ==> t.slots[b] == s.slots[b] && t.tasks[b].Finished?)
            && (!IsLazy(specs[b]) ==> t.slots[b] == s.slots[b])
  {
    assert SlotOk(specs[b], s.slots[b], s.tasks[b]);
  }

  /**
    A lazy slot is empty until its one background write; from then on it holds the connected pool, and a
    slot that changed between two moments went from empty to that pool and changes no more.
   */
  lemma LazySlotIsWrittenOnce<P(!new), E(!new)>(
    specs: seq<Spec<P, E>>, run: seq<State<P, E>>, events: seq<Event>, i: nat, j: nat, k: nat, b: nat)
    requires IsRun(specs, run, events) && i <= j <= k < |run| && b < BUILT && b < |run[i].slots|
    ensures b < |run[j].slots| && b < |run[k].slots|
    ensures run[i].slots[b] != run[j].slots[b] ==>
              && run[i].slots[b].None? && IsLazy(specs[b]) && specs[b].connect == Success(run[j].slots[b].value)
              && run[k].slots[b] == run[j].slots[b]
  {
    SlotsOnlyFill(specs, run, events, i, j, b);
    SlotsOnlyFill(specs, run, events, j, k, b);
    RunKeepsInv(specs, run, events, i);
    RunKeepsInv(specs, run, events, j);
    assert SlotOk(specs[b], run[i].slots[b], run[i].tasks[b]);
    assert SlotOk(specs[b], run[j].slots[b], run[j].tasks[b]);
  }

  // What readiness makes of it.

  /**
    The probe results that reading slot `b` at moment `at[b]` of a run allows: an empty slot is not connected, a
    full one was probed. The handler reads the slots one after another while tasks go on ending. The builder
    leaves the other three backends' slots empty.
   */
  ghost predicate ProbesAlong<P(!new), E(!new)>(run: seq<State<P, E>>, at: seq<nat>, probes: Probes) {
    && |at| == BUILT
    && (forall b :: 0 <= b < BUILT ==> at[b] < |run| && |run[at[b]].slots| == BUILT)
    && (forall b :: 0 <= b < BUILT ==> (probes[b].NotConnected? <==> run[at[b]].slots[b].None?))
    && (forall b :: BUILT <= b < 6 ==> probes[b].NotConnected?)
  }

  ghost predicate ConfigsOf<P(!new), E(!new)>(specs: seq<Spec<P, E>>, configs: Configs) {
    |specs| == BUILT && forall b :: 0 <= b < BUILT ==> configs[b] == specs[b].config
  }

  /**
    A required configured backend whose slot is still empty at some moment `k` not before the probe read it makes
    the answer not ready, whenever the other slots were read.
   */
  lemma EmptyRequiredSlotIsNotReady<P(!new), E(!new)>(
    specs: seq<Spec<P, E>>, run: seq<State<P, E>>, events: seq<Event>, at: seq<nat>, k: nat,
    configs: Configs, probes: Probes, grpc: Option<GrpcConfig>, outcomes: Outcomes, b: nat)
    requires IsRun(specs, run, events) && ConfigsOf(specs, configs) && ProbesAlong(run, at, probes) && b < BUILT
    requires specs[b].config.Some? && !specs[b].config.value.optional
    requires at[b] <= k < |run| && b < |run[k].slots| && run[k].slots[b].None?
    ensures !NoneBlocks(AllWrites(configs, probes, grpc, outcomes))
  {
    SlotsOnlyFill(specs, run, events, at[b], k, b);
    ReadyExactly(configs, probes, grpc, outcomes);
    assert configs[b].Some? && !probes[b].Answered?;
  }

  /**
    A required lazy backend that cannot connect is no cause of a failed build, but at whatever moments of a run the
    slots are read, before or after its task ends, the probe does not answer ready.
   */
  lemma FailedLazyBackendIsNeverReady<P(!new), E(!new)>(
    specs: seq<Spec<P, E>>, run: seq<State<P, E>>, events: seq<Event>, at: seq<nat>,
    configs: Configs, probes: Probes, grpc: Option<GrpcConfig>, outcomes: Outcomes, b: nat)
    requires IsRun(specs, run, events) && b < BUILT
    requires IsLazy(specs[b]) && !specs[b].config.value.optional && specs[b].connect.Failure?
    requires ConfigsOf(specs, configs) && ProbesAlong(run, at, probes)
    ensures !MustFail(specs[b]) && !NoneBlocks(AllWrites(configs, probes, grpc, outcomes))
  {
    RunKeepsInv(specs, run, events, at[b]);
    assert SlotOk(specs[b], run[at[b]].slots[b], run[at[b]].tasks[b]);
    EmptyRequiredSlotIsNotReady(specs, run, events, at, at[b], configs, probes, grpc, outcomes, b);
  }

  /** The build succeeded and every task has ended. */
  ghost predicate AllTasksEnded<P(!new), E(!new)>(s: State<P, E>) {
    s.verdict.Built? && forall b :: 0 <= b < |s.tasks| ==> !s.tasks[b].Running?
  }

  /** Once every task has ended each slot holds, for good, the provided pool, the connected one, or nothing. */
  lemma SettledSlots<P(!new), E(!new)>(
    specs: seq<Spec<P, E>>, run: seq<State<P, E>>, events: seq<Event>, i: nat, j: nat, b: nat)
    requires IsRun(specs, run, events) && i <= j < |run| && AllTasksEnded(run[i]) && b < BUILT
    ensures |run[j].slots| == BUILT
    ensures run[j].slots[b] ==
            if specs[b].provided.Some? then specs[b].provided
            else if specs[b].config.Some? && specs[b].connect.Success? then Some(specs[b].connect.value)
            else None
  {
    BuiltSlots(specs, run, events, i, j);
    RunKeepsInv(specs, run, events, i);
    SlotsOnlyFill(specs, run, events, i, j, b);
    assert SlotOk(specs[b], run[i].slots[b], run[i].tasks[b]);
  }

  /**
    Once every task has ended the slots alone decide: whenever they are read from then on, the probe can answer
    ready exactly when every configured required backend of the builder connected or was provided, and no other
    backend is required.
   */
  lemma SettledReadinessExactly<P(!new), E(!new)>(
    specs: seq<Spec<P, E>>, run: seq<State<P, E>>, events: seq<Event>, i: nat, at: seq<nat>,
    configs: Configs, grpc: Option<GrpcConfig>, outcomes: Outcomes)
    requires IsRun(specs, run, events) && i < |run| && AllTasksEnded(run[i])
    requires |at| == BUILT && forall b :: 0 <= b < BUILT ==> i <= at[b] < |run|
    requires ConfigsOf(specs, configs) && NoCheckUnready(outcomes)
    ensures (exists probes: Probes ::
               ProbesAlong(run, at, probes) && NoneBlocks(AllWrites(configs, probes, grpc, outcomes)))
            <==>
            && (forall b :: 0 <= b < BUILT && configs[b].Some? && !configs[b].value.optional ==>
                  specs[b].provided.Some? || specs[b].connect.Success?)
            && (forall b :: BUILT <= b < 6 && configs[b].Some? ==> configs[b].value.optional)
  {
    hide IsRun, AllTasksEnded, AllWrites, NoneBlocks;
    forall b | 0 <= b < BUILT
      ensures |run[at[b]].slots| == BUILT
      ensures specs[b].config.Some? ==>
                (run[at[b]].slots[b].Some? <==> specs[b].provided.Some? || specs[b].connect.Success?)
    {
      BuiltSlots(specs, run, events, i, at[b]);
      if specs[b].config.Some? {
        SettledSlots(specs, run, events, i, at[b], b);
      }
    }
    forall probes: Probes
      ensures NoneBlocks(AllWrites(configs, probes, grpc, outcomes)) <==> RequiredBackendsAnswer(configs, probes)
    {
      ReadyExactly(configs, probes, grpc, outcomes);
    }
    var best: Probes :=
      seq(6, b requires 0 <= b < 6 => if b < BUILT && run[at[b]].slots[b].Some? then Answered else NotConnected);
    assert ProbesAlong(run, at, best);
    if probes: Probes :| ProbesAlong(run, at, probes) && NoneBlocks(AllWrites(configs, probes, grpc, outcomes)) {
      assert RequiredBackendsAnswer(configs, probes);
      assert forall b :: 0 <= b < 6 && probes[b].Answered? ==> best[b].Answered?;
      assert RequiredBackendsAnswer(configs, best);
    }
    assert RequiredBackendsAnswer(configs, best) <==>
      && (forall b :: 0 <= b < BUILT && configs[b].Some? && !configs[b].value.optional ==> best[b].Answered?)
      && (forall b :: BUILT <= b < 6 && configs[b].Some? ==> configs[b].value.optional);
  }

  lemma BuiltSlots<P(!new), E(!new)>(
    specs: seq<Spec<P, E>>, run: seq<State<P, E>>, events: seq<Event>, i: nat, j: nat)
    requires IsRun(specs, run, events) && i <= j < |run| && AllTasksEnded(run[i])
    ensures |run[j].slots| == BUILT
  {
    RunKeepsInv(specs, run, events, i);
    RunKeepsInv(specs, run, events, j);
    SlotsOnlyFill(specs, run, events, i, j, BUILT - 1);
  }
}
