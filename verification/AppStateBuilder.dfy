/** The builder itself: shared slots, early return, and tasks that outlive the call. */
module AppStateBuilder {
  import opened Wrappers
  import opened AppState

  /** Shared storage for one backend; every clone of the state points at the same slot. */
  class Slot<P> {
    var value: Option<P>

    constructor (value: Option<P>)
      ensures this.value == value
    {
      this.value := value;
    }
  }

  /** A spawned connection attempt: whose it is, the slot it will fill, and what connecting returns. */
  datatype LazyTask<P, E> = LazyTask(backend: nat, slot: Slot<P>, connect: Result<P, E>)

  datatype BuiltState<P> = BuiltState(db: Slot<P>, redis: Slot<P>, nats: Slot<P>)

  /** The state of a backend's task when the builder has just visited it. */
  ghost function StartedTask<P, E>(spec: Spec<P, E>): Task {
    if IsLazy(spec) then Running else NoTask
  }

  /** The block the source repeats for each backend. */
  method VisitBackend<P, E>(backend: nat, spec: Spec<P, E>)
    returns (r: Result<Slot<P>, E>, spawned: seq<LazyTask<P, E>>)
    ensures r.Failure? <==> MustFail(spec)
    ensures r.Failure? ==> r.error == spec.connect.error && spawned == []
    ensures r.Success? ==>
              && fresh(r.value)
              && SlotOk(spec, r.value.value, StartedTask(spec))
              && spawned == (if IsLazy(spec) then [LazyTask(backend, r.value, spec.connect)] else [])
  {
    spawned := [];
    if spec.provided.Some? {
      var slot := new Slot(spec.provided);
      r := Success(slot);
    } else if spec.config.Some? {
      if spec.config.value.lazyInit {
        var slot := new Slot<P>(None);
        spawned := [LazyTask(backend, slot, spec.connect)];
        r := Success(slot);
      } else {
        match spec.connect
        case Success(pool) =>
          var slot := new Slot(Some(pool));
          r := Success(slot);
        case Failure(e) =>
          if spec.config.value.optional {
            var slot := new Slot<P>(None);
            r := Success(slot);
          } else {
            r := Failure(e);
          }
      }
    } else {
      var slot := new Slot<P>(None);
      r := Success(slot);
    }
  }

  /**
    Fails with the first required eager backend that cannot connect. Otherwise three distinct slots, each
    as its kind prescribes, and one running task per lazy backend.
   */
  method Build<P, E>(db: Spec<P, E>, redis: Spec<P, E>, nats: Spec<P, E>)
    returns (r: Result<BuiltState<P>, E>, spawned: seq<LazyTask<P, E>>)
    ensures r.Failure? <==> MustFail(db) || MustFail(redis) || MustFail(nats)
    ensures MustFail(db) ==> r == Failure(db.connect.error)
    ensures !MustFail(db) && MustFail(redis) ==> r == Failure(redis.connect.error)
    ensures !MustFail(db) && !MustFail(redis) && MustFail(nats) ==> r == Failure(nats.connect.error)
    ensures r.Success? ==>
              var s := r.value;
              && fresh(s.db) && fresh(s.redis) && fresh(s.nats)
              && s.db != s.redis && s.redis != s.nats && s.db != s.nats
              && SlotOk(db, s.db.value, StartedTask(db))
              && SlotOk(redis, s.redis.value, StartedTask(redis))
              && SlotOk(nats, s.nats.value, StartedTask(nats))
              && spawned == (if IsLazy(db) then [LazyTask(0, s.db, db.connect)] else [])
                            + (if IsLazy(redis) then [LazyTask(1, s.redis, redis.connect)] else [])
                            + (if IsLazy(nats) then [LazyTask(2, s.nats, nats.connect)] else [])
  {
    var dbSlot, dbTask := VisitBackend(0, db);
    spawned := dbTask;
    if dbSlot.Failure? {
      return Failure(dbSlot.error), spawned;
    }
    var redisSlot, redisTask := VisitBackend(1, redis);
    spawned := spawned + redisTask;
    if redisSlot.Failure? {
      return Failure(redisSlot.error), spawned;
    }
    var natsSlot, natsTask := VisitBackend(2, nats);
    spawned := spawned + natsTask;
    if natsSlot.Failure? {
      return Failure(natsSlot.error), spawned;
    }
    r := Success(BuiltState(dbSlot.value, redisSlot.value, natsSlot.value));
  }

  /** A task's end: a successful connection fills the shared slot, a failed one leaves it alone. */
  method EndTask<P, E>(task: LazyTask<P, E>)
    modifies task.slot
    ensures task.slot.value == if task.connect.Success? then Some(task.connect.value) else old(task.slot.value)
  {
    match task.connect
    case Success(pool) => task.slot.value := Some(pool);
    case Failure(_) =>
  }

  // The builder and its tasks, as a run of the slot protocol.

  /** The slots hold what state `m` of the protocol says. */
  ghost predicate Mirrors<P(!new), E(!new)>(s: BuiltState<P>, m: State<P, E>)
    reads s.db, s.redis, s.nats
  {
    m.slots == [s.db.value, s.redis.value, s.nats.value]
  }

  function SlotOf<P>(s: BuiltState<P>, b: nat): Slot<P> {
    if b == 0 then s.db else if b == 1 then s.redis else s.nats
  }

  ghost predicate DistinctSlots<P(!new)>(s: BuiltState<P>) {
    s.db != s.redis && s.redis != s.nats && s.db != s.nats
  }

  function TaskOf<P, E>(s: BuiltState<P>, specs: seq<Spec<P, E>>, b: nat): LazyTask<P, E>
    requires b < |specs|
  {
    LazyTask(b, SlotOf(s, b), specs[b].connect)
  }

  /** `tasks` are the running tasks of `m`, each once. */
  ghost predicate RunningTasks<P(!new), E(!new)>(
    s: BuiltState<P>, specs: seq<Spec<P, E>>, m: State<P, E>, tasks: seq<LazyTask<P, E>>)
    requires |specs| == |m.tasks| == BUILT
  {
    && (forall task :: task in tasks ==>
          task.backend < BUILT && m.tasks[task.backend].Running? && task == TaskOf(s, specs, task.backend))
    && (forall b :: 0 <= b < BUILT && m.tasks[b].Running? ==> TaskOf(s, specs, b) in tasks)
    && NoneTwice(tasks)
  }

  ghost predicate NoneTwice<P, E>(tasks: seq<LazyTask<P, E>>) {
    forall i, j :: 0 <= i < j < |tasks| ==> tasks[i].backend != tasks[j].backend
  }

  lemma RemovedOne<P, E>(tasks: seq<LazyTask<P, E>>, i: nat)
    requires i < |tasks| && NoneTwice(tasks)
    ensures NoneTwice(tasks[..i] + tasks[i + 1..])
    ensures forall task :: task in tasks[..i] + tasks[i + 1..] ==> task in tasks && task.backend != tasks[i].backend
    ensures forall task :: task in tasks && task != tasks[i] ==> task in tasks[..i] + tasks[i + 1..]
  {
    var rest := tasks[..i] + tasks[i + 1..];
    forall task | task in rest ensures task in tasks && task.backend != tasks[i].backend {
      var k :| 0 <= k < |rest| && rest[k] == task;
      assert task == tasks[if k < i then k else k + 1];
    }
    forall task | task in tasks && task != tasks[i] ensures task in rest {
      var k :| 0 <= k < |tasks| && tasks[k] == task;
      assert rest[if k < i then k else k - 1] == task;
    }
  }

  lemma TaskRemoved<P(!new), E(!new)>(
    s: BuiltState<P>, specs: seq<Spec<P, E>>, m: State<P, E>, n: State<P, E>, tasks: seq<LazyTask<P, E>>, i: nat)
    requires |specs| == |m.tasks| == BUILT && i < |tasks| && RunningTasks(s, specs, m, tasks)
    requires tasks[i].backend < BUILT && n.tasks == m.tasks[tasks[i].backend := Finished]
    ensures RunningTasks(s, specs, n, tasks[..i] + tasks[i + 1..])
  {
    hide NoneTwice;
    RemovedOne(tasks, i);
  }

  /** The run that visits the first `n` backends, none of which fails the build. */
  lemma {:induction false} VisitRun<P(!new), E(!new)>(specs: seq<Spec<P, E>>, n: nat)
    returns (run: seq<State<P, E>>, events: seq<Event>)
    requires n <= |specs| == BUILT && forall b :: 0 <= b < n ==> !MustFail(specs[b])
    ensures IsRun(specs, run, events) && |events| == n
    ensures var end := run[n];
            && |end.slots| == |end.tasks| == n
            && (forall b :: 0 <= b < n ==> SlotOk(specs[b], end.slots[b], end.tasks[b]))
            && (forall b :: 0 <= b < n ==> end.tasks[b] == StartedTask(specs[b]))
            && end.verdict == if n == BUILT then Built else Building
  {
    if n == 0 {
      run, events := [State([], [], Building)], [];
    } else {
      run, events := VisitRun(specs, n - 1);
      VisitedExactly(specs[n - 1]);
      run, events := Extended(specs, run, events, Visit);
    }
  }

  lemma Extended<P(!new), E(!new)>(specs: seq<Spec<P, E>>, run: seq<State<P, E>>, events: seq<Event>, e: Event)
    returns (longer: seq<State<P, E>>, more: seq<Event>)
    requires IsRun(specs, run, events) && Enabled(specs, run[|events|], e)
    ensures IsRun(specs, longer, more) && more == events + [e]
    ensures longer == run + [Apply(specs, run[|events|], e)]
  {
    hide Apply, Enabled;
    longer, more := run + [Apply(specs, run[|events|], e)], events + [e];
    forall i | 0 <= i < |more| ensures Enabled(specs, longer[i], more[i]) && longer[i + 1] == Apply(specs, longer[i], more[i]) {
      if i < |events| {
        assert Enabled(specs, run[i], events[i]) && run[i + 1] == Apply(specs, run[i], events[i]);
      }
    }
  }

  /** A lazy backend's task may end before the builder visits the next one. */
  lemma TaskMayEndDuringTheBuild<P(!new), E(!new)>(specs: seq<Spec<P, E>>)
    returns (run: seq<State<P, E>>, events: seq<Event>)
    requires |specs| == BUILT && IsLazy(specs[0])
    ensures IsRun(specs, run, events) && events == [Visit, TaskEnds(0), Visit]
    ensures specs[0].connect.Success? ==> run[2].slots == [Some(specs[0].connect.value)] && run[2].verdict.Building?
  {
    run, events := VisitRun(specs, 1);
    run, events := Extended(specs, run, events, TaskEnds(0));
    run, events := Extended(specs, run, events, Visit);
  }

  /** Ends the given tasks in whatever order the scheduler picks, keeping up with the protocol. */
  method EndInAnyOrder<P(!new), E(!new)>(
    s: BuiltState<P>, ghost specs: seq<Spec<P, E>>, spawned: seq<LazyTask<P, E>>,
    ghost before: seq<State<P, E>>, ghost happened: seq<Event>)
    returns (ghost run: seq<State<P, E>>, ghost events: seq<Event>)
    requires IsRun(specs, before, happened) && before[|happened|].verdict.Built?
    requires DistinctSlots(s) && Mirrors(s, before[|happened|])
    requires |before[|happened|].tasks| == BUILT && RunningTasks(s, specs, before[|happened|], spawned)
    modifies s.db, s.redis, s.nats
    ensures IsRun(specs, run, events) && happened <= events
    ensures Mirrors(s, run[|events|]) && AllTasksEnded(run[|events|])
  {
    run, events := before, happened;
    var tasks := spawned;
    while tasks != []
      invariant IsRun(specs, run, events) && happened <= events
      invariant run[|events|].verdict.Built? && Mirrors(s, run[|events|])
      invariant |run[|events|].tasks| == BUILT && RunningTasks(s, specs, run[|events|], tasks)
      decreases |tasks|
    {
      var i :| 0 <= i < |tasks|;
      ghost var m := run[|events|];
      RunKeepsInv(specs, run, events, |events|);
      assert tasks[i] in tasks;
      EndTask(tasks[i]);
      run, events := Extended(specs, run, events, TaskEnds(tasks[i].backend));
      TaskRemoved(s, specs, m, run[|events|], tasks, i);
      tasks := tasks[..i] + tasks[i + 1..];
    }
  }

  /**
    The whole life of a build: it fails as some run of the protocol fails, or its tasks end in any order and leave
    every slot, seen through the state or through a clone made before any task ended, as a run of the protocol that
    has settled.
   */
  method BuildAndSettle<P(!new), E(!new)>(db: Spec<P, E>, redis: Spec<P, E>, nats: Spec<P, E>)
    returns (r: Result<BuiltState<P>, E>, clone: Result<BuiltState<P>, E>,
             ghost run: seq<State<P, E>>, ghost events: seq<Event>)
    ensures IsRun([db, redis, nats], run, events)
    ensures r.Failure? ==> run[|events|].verdict == BuildFailed(r.error)
    ensures r.Success? ==> AllTasksEnded(run[|events|]) && Mirrors(r.value, run[|events|])
    ensures clone.Failure? <==> r.Failure?
    ensures clone.Success? ==> Mirrors(clone.value, run[|events|])
    ensures clone.Success? ==>
              && SlotOk(db, clone.value.db.value, EndedTask(db))
              && SlotOk(redis, clone.value.redis.value, EndedTask(redis))
              && SlotOk(nats, clone.value.nats.value, EndedTask(nats))
  {
    hide SlotOk, IsLazy, Visited, Apply, Enabled, RunningTasks;
    ghost var specs := [db, redis, nats];
    var spawned;
    r, spawned := Build(db, redis, nats);
    clone := r;
    if r.Failure? {
      run, events := FailedRun(specs, if MustFail(db) then 0 else if MustFail(redis) then 1 else 2);
    } else {
      run, events := VisitRun(specs, BUILT);
      ghost var m := run[|events|];
      OneSlot(db, r.value.db.value, m.slots[0], StartedTask(db));
      OneSlot(redis, r.value.redis.value, m.slots[1], StartedTask(redis));
      OneSlot(nats, r.value.nats.value, m.slots[2], StartedTask(nats));
      BuiltRunning(r.value, specs, run[|events|], spawned);
      run, events := EndInAnyOrder(r.value, specs, spawned, run, events);
      EndedSlots(specs, run, events);
    }
  }

  /** A backend's kind and its task's progress leave one value for the slot. */
  lemma OneSlot<P, E>(spec: Spec<P, E>, a: Option<P>, b: Option<P>, task: Task)
    requires SlotOk(spec, a, task) && SlotOk(spec, b, task)
    ensures a == b
  {
  }

  /** The run that visits backends up to the first that fails the build. */
  lemma FailedRun<P(!new), E(!new)>(specs: seq<Spec<P, E>>, b: nat)
    returns (run: seq<State<P, E>>, events: seq<Event>)
    requires b < |specs| == BUILT && FirstFailure(specs, b)
    ensures IsRun(specs, run, events) && run[|events|].verdict == BuildFailed(specs[b].connect.error)
  {
    VisitedExactly(specs[b]);
    run, events := VisitRun(specs, b);
    run, events := Extended(specs, run, events, Visit);
  }

  /** The state of a backend's task once all tasks have ended. */
  ghost function EndedTask<P, E>(spec: Spec<P, E>): Task {
    if IsLazy(spec) then Finished else NoTask
  }

  lemma EndedSlots<P(!new), E(!new)>(specs: seq<Spec<P, E>>, run: seq<State<P, E>>, events: seq<Event>)
    requires IsRun(specs, run, events) && AllTasksEnded(run[|events|])
    ensures |run[|events|].slots| == |specs| == BUILT
    ensures forall b :: 0 <= b < BUILT ==> SlotOk(specs[b], run[|events|].slots[b], EndedTask(specs[b]))
  {
    RunKeepsInv(specs, run, events, |events|);
    var s := run[|events|];
    forall b | 0 <= b < BUILT ensures SlotOk(specs[b], s.slots[b], EndedTask(specs[b])) {
      assert SlotOk(specs[b], s.slots[b], s.tasks[b]);
    }
  }

  lemma BuiltRunning<P(!new), E(!new)>(
    s: BuiltState<P>, specs: seq<Spec<P, E>>, m: State<P, E>, spawned: seq<LazyTask<P, E>>)
    requires |specs| == |m.slots| == |m.tasks| == BUILT
    requires forall b :: 0 <= b < BUILT ==> m.tasks[b] == StartedTask(specs[b])
    requires spawned == (if IsLazy(specs[0]) then [TaskOf(s, specs, 0)] else [])
                        + (if IsLazy(specs[1]) then [TaskOf(s, specs, 1)] else [])
                        + (if IsLazy(specs[2]) then [TaskOf(s, specs, 2)] else [])
    ensures RunningTasks(s, specs, m, spawned)
  {
    hide IsLazy;
  }
}
