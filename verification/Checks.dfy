/**
  App-defined checks run concurrently under one shared deadline.

  A schedule is any sequence of polls: which check was polled, when, and whether its own future was
  ready at that poll. A timed poll looks at the check first and at the deadline only if it is pending.
 */
module Checks {
  import opened Wrappers

  const TIMED_OUT: string := "check timed out"

  datatype CheckOutcome = Ready | ReadyWithMessage(message: string) | Degraded(message: string) | Unready(message: string)

  /** What running a list of checks returns: each check's name with its outcome. */
  type Outcomes = seq<(string, CheckOutcome)>

  datatype Poll = Poll(check: nat, now: nat, answer: Option<CheckOutcome>)

  /** What a poll of a still pending check resolves it to, if anything. */
  function Resolution(expiry: nat, poll: Poll): Option<CheckOutcome> {
    if poll.answer.Some? then poll.answer
    else if poll.now >= expiry then Some(Unready(TIMED_OUT))
    else None
  }

  /** One entry per check; a resolved check is never polled again. */
  type Pending = seq<Option<CheckOutcome>>

  function Step(expiry: nat, state: Pending, poll: Poll): (next: Pending)
    ensures |next| == |state|
  {
    if poll.check < |state| && state[poll.check].None? then state[poll.check := Resolution(expiry, poll)] else state
  }

  function RunFrom(expiry: nat, state: Pending, schedule: seq<Poll>): (end: Pending)
    ensures |end| == |state|
    decreases |schedule|
  {
    if schedule == [] then state else RunFrom(expiry, Step(expiry, state, schedule[0]), schedule[1..])
  }

  function Started(checks: nat): (s: Pending)
    ensures |s| == checks && forall i :: 0 <= i < checks ==> s[i].None?
  {
    seq(checks, _ => None)
  }

  function Run(expiry: nat, checks: nat, schedule: seq<Poll>): Pending {
    RunFrom(expiry, Started(checks), schedule)
  }

  predicate Complete(state: Pending) {
    forall i :: 0 <= i < |state| ==> state[i].Some?
  }

  /** What the caller gets once every check has resolved: names paired in registration order. */
  function Report(names: seq<string>, state: Pending): Outcomes
    requires |names| == |state| && Complete(state)
  {
    seq(|names|, i requires 0 <= i < |names| => (names[i], state[i].value))
  }

  // Each check by itself.

  function Project(schedule: seq<Poll>, i: nat): seq<Poll> {
    if schedule == [] then []
    else (if schedule[0].check == i then [schedule[0]] else []) + Project(schedule[1..], i)
  }

  /** The outcome of one check from its own polls alone: the first that resolves. */
  function Alone(expiry: nat, polls: seq<Poll>): Option<CheckOutcome> {
    if polls == [] then None
    else if Resolution(expiry, polls[0]).Some? then Resolution(expiry, polls[0])
    else Alone(expiry, polls[1..])
  }

  lemma {:induction false} RunFromAt(expiry: nat, state: Pending, schedule: seq<Poll>, i: nat)
    requires i < |state|
    ensures RunFrom(expiry, state, schedule)[i] ==
            if state[i].Some? then state[i] else Alone(expiry, Project(schedule, i))
    decreases |schedule|
  {
    if schedule != [] {
      RunFromAt(expiry, Step(expiry, state, schedule[0]), schedule[1..], i);
      var mine := Project(schedule, i);
      if schedule[0].check == i {
        assert mine[0] == schedule[0] && mine[1..] == Project(schedule[1..], i);
      } else {
        assert mine == Project(schedule[1..], i);
      }
    }
  }

  /** Checks do not interfere: each outcome is what that check's own polls give, whatever the others do. */
  lemma ChecksAreIndependent(expiry: nat, checks: nat, schedule: seq<Poll>, i: nat)
    requires i < checks
    ensures Run(expiry, checks, schedule)[i] == Alone(expiry, Project(schedule, i))
  {
    RunFromAt(expiry, Started(checks), schedule, i);
  }

  /** `p` is the poll that resolved the check: it resolves, and no earlier one does. */
  ghost predicate ResolvedBy(expiry: nat, polls: seq<Poll>, p: nat) {
    && p < |polls| && (polls[p].answer.Some? || polls[p].now >= expiry)
    && forall q :: 0 <= q < p ==> polls[q].answer.None? && polls[q].now < expiry
  }

  /** `outcome` is what the first poll to answer or to meet the deadline gave. */
  ghost predicate DecidedBy(expiry: nat, polls: seq<Poll>, outcome: CheckOutcome) {
    exists p: nat :: ResolvedBy(expiry, polls, p)
                     && outcome == if polls[p].answer.Some? then polls[p].answer.value else Unready("check timed out")
  }

  lemma {:induction false} AloneExactly(expiry: nat, polls: seq<Poll>)
    ensures Alone(expiry, polls).Some? <==> exists p: nat :: ResolvedBy(expiry, polls, p)
    ensures forall p: nat :: ResolvedBy(expiry, polls, p) ==>
              Alone(expiry, polls) ==
              Some(if polls[p].answer.Some? then polls[p].answer.value else Unready("check timed out"))
    ensures Alone(expiry, polls).None? <==>
            forall q :: 0 <= q < |polls| ==> polls[q].answer.None? && polls[q].now < expiry
  {
    if polls != [] {
      var rest := polls[1..];
      AloneExactly(expiry, rest);
      if Resolution(expiry, polls[0]).Some? {
        assert ResolvedBy(expiry, polls, 0);
      } else {
        forall p: nat ensures ResolvedBy(expiry, rest, p) <==> ResolvedBy(expiry, polls, p + 1) {
          if ResolvedBy(expiry, rest, p) {
            forall q | 0 <= q < p + 1 ensures polls[q].answer.None? && polls[q].now < expiry {
              if q > 0 { assert polls[q] == rest[q - 1]; }
            }
          }
          if ResolvedBy(expiry, polls, p + 1) {
            forall q | 0 <= q < p ensures rest[q].answer.None? && rest[q].now < expiry {
              assert rest[q] == polls[q + 1];
            }
          }
        }
        assert !ResolvedBy(expiry, polls, 0);
        forall p: nat | ResolvedBy(expiry, polls, p) ensures Alone(expiry, polls) == Resolution(expiry, polls[p]) {
          assert ResolvedBy(expiry, rest, p - 1);
        }
        if q :| 0 <= q < |rest| && !(rest[q].answer.None? && rest[q].now < expiry) {
          assert polls[q + 1] == rest[q];
        } else {
          forall q | 0 <= q < |polls| ensures polls[q].answer.None? && polls[q].now < expiry {
            if q > 0 { assert polls[q] == rest[q - 1]; }
          }
        }
      }
    }
  }

  lemma {:induction false} ProjectMember(schedule: seq<Poll>, i: nat, poll: Poll)
    ensures poll in Project(schedule, i) <==> poll in schedule && poll.check == i
  {
    if schedule != [] {
      ProjectMember(schedule[1..], i, poll);
      assert schedule == [schedule[0]] + schedule[1..];
    }
  }

  // Theorems over every schedule.

  /**
    Under every schedule that resolves all checks there is one outcome per check, in registration order: entry
    `i` carries the `i`-th name and what the first of that check's own polls to answer or meet the deadline gave.
   */
  lemma ReportInRegistrationOrder(expiry: nat, names: seq<string>, schedule: seq<Poll>)
    requires Complete(Run(expiry, |names|, schedule))
    ensures var report := Report(names, Run(expiry, |names|, schedule));
            && |report| == |names|
            && forall i: nat :: i < |names| ==>
                 report[i].0 == names[i] && DecidedBy(expiry, Project(schedule, i), report[i].1)
  {
    forall i: nat | i < |names|
      ensures DecidedBy(expiry, Project(schedule, i), Run(expiry, |names|, schedule)[i].value)
    {
      ChecksAreIndependent(expiry, |names|, schedule, i);
      AloneExactly(expiry, Project(schedule, i));
    }
  }

  /** A check that answered at some poll before the deadline, and at none before that, keeps that answer. */
  lemma AnswerBeforeDeadlineIsKept(expiry: nat, checks: nat, schedule: seq<Poll>, i: nat, p: nat)
    requires i < checks && p < |Project(schedule, i)|
    requires Project(schedule, i)[p].answer.Some?
    requires forall q :: 0 <= q < p ==> Project(schedule, i)[q].answer.None? && Project(schedule, i)[q].now < expiry
    ensures Run(expiry, checks, schedule)[i] == Project(schedule, i)[p].answer
  {
    ChecksAreIndependent(expiry, checks, schedule, i);
    AloneExactly(expiry, Project(schedule, i));
    assert ResolvedBy(expiry, Project(schedule, i), p);
  }

  /** A check that never answers is pending until it is polled at the deadline, and then timed out. */
  lemma NeverReadyTimesOut(expiry: nat, checks: nat, schedule: seq<Poll>, i: nat)
    requires i < checks
    requires forall poll :: poll in schedule && poll.check == i ==> poll.answer.None?
    ensures Run(expiry, checks, schedule)[i] ==
            if exists poll :: poll in schedule && poll.check == i && poll.now >= expiry
            then Some(Unready("check timed out")) else None
  {
    var mine := Project(schedule, i);
    ChecksAreIndependent(expiry, checks, schedule, i);
    AloneExactly(expiry, mine);
    forall poll ensures poll in mine <==> poll in schedule && poll.check == i {
      ProjectMember(schedule, i, poll);
    }
    if Alone(expiry, mine).Some? {
      var p: nat :| ResolvedBy(expiry, mine, p);
      assert mine[p] in mine;
      assert mine[p] in schedule && mine[p].now >= expiry;
    } else {
      forall poll | poll in schedule && poll.check == i ensures poll.now < expiry {
        assert poll in mine;
      }
    }
  }

  /** Some poll of this check answered, or came at or after the deadline. */
  ghost predicate Settled(expiry: nat, schedule: seq<Poll>, i: nat) {
    exists poll :: poll in schedule && poll.check == i && (poll.answer.Some? || poll.now >= expiry)
  }

  /**
    One deadline for all: however many checks stall, once each has been polled at or after the shared
    expiry nothing is pending, and exactly the checks with some answer or such a poll are resolved.
   */
  lemma CompleteExactly(expiry: nat, checks: nat, schedule: seq<Poll>)
    ensures Complete(Run(expiry, checks, schedule)) <==>
            forall i: nat :: i < checks ==> Settled(expiry, schedule, i)
  {
    forall i: nat | i < checks
      ensures Run(expiry, checks, schedule)[i].Some? <==> Settled(expiry, schedule, i)
    {
      ResolvedExactly(expiry, checks, schedule, i);
    }
  }

  lemma ResolvedExactly(expiry: nat, checks: nat, schedule: seq<Poll>, i: nat)
    requires i < checks
    ensures Run(expiry, checks, schedule)[i].Some? <==> Settled(expiry, schedule, i)
  {
    var mine := Project(schedule, i);
    ChecksAreIndependent(expiry, checks, schedule, i);
    AloneExactly(expiry, mine);
    forall poll ensures poll in mine <==> poll in schedule && poll.check == i {
      ProjectMember(schedule, i, poll);
    }
    if q :| 0 <= q < |mine| && (mine[q].answer.Some? || mine[q].now >= expiry) {
      assert mine[q] in mine;
    }
  }

  /** The report depends only on each check's own polls, not on how the schedule interleaves them. */
  lemma InterleavingIsImmaterial(expiry: nat, checks: nat, a: seq<Poll>, b: seq<Poll>)
    requires forall i: nat :: i < checks ==> Project(a, i) == Project(b, i)
    ensures Run(expiry, checks, a) == Run(expiry, checks, b)
  {
    forall i: nat | i < checks ensures Run(expiry, checks, a)[i] == Run(expiry, checks, b)[i] {
      ChecksAreIndependent(expiry, checks, a, i);
      ChecksAreIndependent(expiry, checks, b, i);
    }
  }

  /** A resolved outcome is final: polling on changes nothing. */
  lemma {:induction false} OutcomesAreFinal(expiry: nat, state: Pending, schedule: seq<Poll>)
    requires Complete(state)
    ensures RunFrom(expiry, state, schedule) == state
    decreases |schedule|
  {
    if schedule != [] {
      OutcomesAreFinal(expiry, state, schedule[1..]);
    }
  }

  /** Liveness is binary, and this is all of it: only an unready check, timed out or not, takes the process down. */
  predicate NoCheckUnready(outcomes: Outcomes) {
    forall i :: 0 <= i < |outcomes| ==> !outcomes[i].1.Unready?
  }

  lemma StalledCheckFailsLiveness(expiry: nat, names: seq<string>, schedule: seq<Poll>, i: nat)
    requires i < |names| && Complete(Run(expiry, |names|, schedule))
    requires forall poll :: poll in schedule && poll.check == i ==> poll.answer.None?
    ensures !NoCheckUnready(Report(names, Run(expiry, |names|, schedule)))
  {
    NeverReadyTimesOut(expiry, |names|, schedule, i);
    assert Report(names, Run(expiry, |names|, schedule))[i].1.Unready?;
  }
}
