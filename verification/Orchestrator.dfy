/**
  The task pipeline of orchestrator.py with its state machine, lifecycle and retry loop.  What the
  executor, the validators, the watchdog and the audit log do is a parameter of each run.
 */
module Orchestrator {
  import opened Wrappers

  datatype TaskState =
    | QUEUED | PLANNING | WAITING_APPROVAL | RUNNING | VALIDATING | ROLLING_BACK
    | SUCCEEDED | FAILED | CANCELLED | DENIED | TIMED_OUT

  const TERMINAL_STATES := {SUCCEEDED, FAILED, CANCELLED, DENIED, TIMED_OUT}

  function Allowed(s: TaskState): set<TaskState> {
    match s
    case QUEUED => {PLANNING, CANCELLED, DENIED, TIMED_OUT}
    case PLANNING => {WAITING_APPROVAL, RUNNING, FAILED, DENIED, CANCELLED, TIMED_OUT}
    case WAITING_APPROVAL => {RUNNING, DENIED, CANCELLED, TIMED_OUT}
    case RUNNING => {VALIDATING, SUCCEEDED, FAILED, CANCELLED, TIMED_OUT}
    case VALIDATING => {SUCCEEDED, FAILED, ROLLING_BACK, CANCELLED, TIMED_OUT}
    case ROLLING_BACK => {FAILED, CANCELLED, TIMED_OUT}
    case _ => {}
  }

  // ---------- state machine and lifecycle ----------

  class TaskStateMachine {
    var state: TaskState

    constructor ()
      ensures state == QUEUED
    {
      state := QUEUED;
    }

    method Transition(target: TaskState) returns (ok: bool)
      modifies this
      ensures ok <==> target in Allowed(old(state))
      ensures state == if ok then target else old(state)
    {
      if state in TERMINAL_STATES || target !in Allowed(state) {
        return false;
      }
      state := target;
      return true;
    }
  }

  datatype Event = Event(state: TaskState, sequence: nat)

  function Before(path: seq<TaskState>, k: nat): TaskState
    requires k <= |path|
  {
    if k == 0 then QUEUED else path[k - 1]
  }

  // A path along allowed edges, out of QUEUED.
  ghost predicate Legal(path: seq<TaskState>) {
    path == [] ||
    var n := |path| - 1;
    Legal(path[..n]) && path[n] in Allowed(Before(path, n))
  }

  lemma {:induction false} LegalEdges(path: seq<TaskState>, k: nat)
    requires Legal(path) && k < |path|
    ensures path[k] in Allowed(Before(path, k))
  {
    if k < |path| - 1 {
      LegalEdges(path[..|path| - 1], k);
    }
  }

  lemma Onward(path: seq<TaskState>, next: TaskState)
    requires Legal(path) && next in Allowed(Before(path, |path|))
    ensures Legal(path + [next])
  {
    hide Allowed;
    assert (path + [next])[..|path|] == path;
  }

  function States(events: seq<Event>): (states: seq<TaskState>)
    ensures |states| == |events| && forall k :: 0 <= k < |states| ==> states[k] == events[k].state
  {
    seq(|events|, k requires 0 <= k < |events| => events[k].state)
  }

  // Events numbered from 1, one for each state entered.
  ghost predicate Numbered(events: seq<Event>) {
    forall k :: 0 <= k < |events| ==> events[k].sequence == k + 1
  }

  class TaskLifecycle {
    const machine: TaskStateMachine
    var sequence: nat
    var events: seq<Event>

    ghost predicate Valid()
      reads this, machine
    {
      && sequence == |events| && Numbered(events) && Legal(States(events))
      && machine.state == Before(States(events), |events|)
    }

    lemma ValidIs()
      requires Valid()
      ensures Numbered(events) && Legal(States(events)) && machine.state == Before(States(events), |events|)
    {
    }

    constructor ()
      ensures Valid() && events == [] && fresh(machine)
    {
      var m := new TaskStateMachine();
      machine := m;
      sequence, events := 0, [];
    }

    method Transition(target: TaskState) returns (ok: bool)
      requires Valid()
      modifies this, machine
      ensures Valid()
      ensures ok <==> target in Allowed(old(machine.state))
      ensures machine.state == if ok then target else old(machine.state)
      ensures events == if ok then old(events) + [Event(target, |old(events)| + 1)] else old(events)
      ensures States(events) == if ok then States(old(events)) + [target] else States(old(events))
    {
      hide Allowed, Legal;
      ghost var before := events;
      ok := machine.Transition(target);
      if ok {
        Onward(States(events), target);
        sequence := sequence + 1;
        events := events + [Event(target, sequence)];
        assert States(events) == States(before) + [target];
      }
    }
  }

  // ---------- retry ----------

  datatype Raised = CancellationRequested | PermissionDenied | TimeoutError | Other

  datatype Attempt<T> = Returns(value: T) | Raises(raised: Raised)

  // The attempt whose outcome counts: the first that does not time out, or else the last allowed.
  function Decisive<T>(attempts: nat -> Attempt<T>, first: nat, last: nat): (n: nat)
    requires first <= last
    ensures first <= n <= last
    ensures forall k :: first <= k < n ==> attempts(k) == Raises(TimeoutError)
    ensures n == last || attempts(n) != Raises(TimeoutError)
    decreases last - first
  {
    if first == last || attempts(first) != Raises(TimeoutError) then first else Decisive(attempts, first + 1, last)
  }

  // run_with_retry with the orchestrator's predicate: only a TimeoutError is retried.
  method RunWithRetry<T>(attempts: nat -> Attempt<T>, maxAttempts: nat) returns (r: Attempt<T>, ghost used: nat)
    requires maxAttempts > 0
    ensures 0 < used <= maxAttempts && used == Decisive(attempts, 0, maxAttempts - 1) + 1
    ensures r == attempts(Decisive(attempts, 0, maxAttempts - 1))
  {
    used := 0;
    for attempt := 1 to maxAttempts + 1
      invariant used == attempt - 1
      invariant attempt <= maxAttempts ==> Decisive(attempts, attempt - 1, maxAttempts - 1) == Decisive(attempts, 0, maxAttempts - 1)
      invariant attempt <= maxAttempts
    {
      used := attempt;
      r := attempts(attempt - 1);
      if r.Returns? || attempt >= maxAttempts || r.raised != TimeoutError {
        return;
      }
    }
    assert false;
  }

  // ---------- one run ----------

  // Everything a run meets: validation of request, call and result, preflight, the attempts (a
  // result carries its terminal status), whether the watchdog fired, and the audit writes.
  datatype Plan = Plan(
    requestValid: bool, callValid: bool, preflight: Option<Raised>, timeoutMs: int, safeRetry: bool,
    attempts: nat -> Attempt<TaskState>, watchdogFired: bool, resultValid: bool, audits: nat -> bool)

  datatype Code = TaskCancelled | PermissionDeniedCode | TaskTimedOut | RuntimeFailure

  datatype Outcome = Outcome(state: TaskState, result: Option<TaskState>, error: Option<Code>, events: seq<Event>)

  // What a run amounts to before its audit record: the states entered, the result and error it
  // reports, and whether it got there inside the try block or through its handler.
  datatype Course = Course(path: seq<TaskState>, result: Option<TaskState>, error: Option<Code>, handled: bool)

  function Failed(path: seq<TaskState>): Course {
    Course(path + [FAILED], None, Some(RuntimeFailure), true)
  }

  function Ends(path: seq<TaskState>, state: TaskState, error: Code): Course {
    Course(path + [state], None, Some(error), false)
  }

  function MaxAttempts(p: Plan): nat {
    if p.safeRetry then 2 else 1
  }

  function Timeout(p: Plan, defaultMs: int): int {
    if p.timeoutMs != 0 then p.timeoutMs else defaultMs
  }

  function CourseOf(p: Plan, defaultMs: int): Course {
    if !p.callValid then Failed([PLANNING])
    else
      match p.preflight
      case Some(CancellationRequested) => Ends([PLANNING], CANCELLED, TaskCancelled)
      case Some(PermissionDenied) => Ends([PLANNING], DENIED, PermissionDeniedCode)
      case Some(_) => Failed([PLANNING])
      case None =>
        if Timeout(p, defaultMs) <= 0 then Failed([PLANNING, RUNNING])
        else AfterAttempts(p, p.attempts(Decisive(p.attempts, 0, MaxAttempts(p) - 1)))
  }

  function AfterAttempts(p: Plan, attempt: Attempt<TaskState>): Course {
    match attempt
    case Raises(CancellationRequested) =>
      if p.watchdogFired then Ends([PLANNING, RUNNING], TIMED_OUT, TaskTimedOut)
      else Ends([PLANNING, RUNNING], CANCELLED, TaskCancelled)
    case Raises(TimeoutError) => Ends([PLANNING, RUNNING], TIMED_OUT, TaskTimedOut)
    case Raises(_) => Failed([PLANNING, RUNNING])
    case Returns(status) =>
      if !p.resultValid || status == DENIED then Failed([PLANNING, RUNNING, VALIDATING])
      else
        Course([PLANNING, RUNNING, VALIDATING, status], Some(status),
               if status == TIMED_OUT then Some(TaskTimedOut) else None, false)
  }

  ghost predicate Sound(p: Plan) {
    forall n :: p.attempts(n).Returns? ==> p.attempts(n).value in TERMINAL_STATES
  }

  function LastState(path: seq<TaskState>): TaskState
    requires path != []
  {
    path[|path| - 1]
  }

  lemma AttemptIsTerminal(p: Plan, n: nat)
    requires Sound(p)
    ensures p.attempts(n).Returns? ==> p.attempts(n).value in TERMINAL_STATES
  {
  }

  lemma RunningIsLegal()
    ensures Legal([PLANNING]) && Legal([PLANNING, RUNNING]) && Legal([PLANNING, RUNNING, VALIDATING])
  {
    assert Legal([]);
    hide Legal;
    Onward([], PLANNING);
    Onward([PLANNING], RUNNING);
    Onward([PLANNING, RUNNING], VALIDATING);
    assert [] + [PLANNING] == [PLANNING] && [PLANNING] + [RUNNING] == [PLANNING, RUNNING];
    assert [PLANNING, RUNNING] + [VALIDATING] == [PLANNING, RUNNING, VALIDATING];
  }

  lemma AfterAttemptsIsLegal(p: Plan, attempt: Attempt<TaskState>)
    requires attempt.Returns? ==> attempt.value in TERMINAL_STATES
    ensures var c := AfterAttempts(p, attempt);
            c.path != [] && Legal(c.path) && LastState(c.path) in TERMINAL_STATES
            && (c.handled ==> LastState(c.path) == FAILED && c.result == None && c.error == Some(RuntimeFailure))
  {
    hide Legal;
    RunningIsLegal();
    var c := AfterAttempts(p, attempt);
    Onward([PLANNING, RUNNING], FAILED);
    Onward([PLANNING, RUNNING], CANCELLED);
    Onward([PLANNING, RUNNING], TIMED_OUT);
    Onward([PLANNING, RUNNING, VALIDATING], FAILED);
    if attempt.Returns? && attempt.value != DENIED {
      Onward([PLANNING, RUNNING, VALIDATING], attempt.value);
      assert [PLANNING, RUNNING, VALIDATING] + [attempt.value] == [PLANNING, RUNNING, VALIDATING, attempt.value];
    }
  }

  // Every run goes along allowed edges to a terminal state.
  lemma CourseEndsTerminal(p: Plan, defaultMs: int)
    requires Sound(p)
    ensures var c := CourseOf(p, defaultMs);
            c.path != [] && Legal(c.path) && LastState(c.path) in TERMINAL_STATES
            && (c.handled ==> LastState(c.path) == FAILED && c.result == None && c.error == Some(RuntimeFailure))
  {
    hide Decisive, AfterAttempts, Legal;
    var n := Decisive(p.attempts, 0, MaxAttempts(p) - 1);
    AttemptIsTerminal(p, n);
    AfterAttemptsIsLegal(p, p.attempts(n));
    RunningIsLegal();
    Onward([PLANNING], FAILED);
    Onward([PLANNING], CANCELLED);
    Onward([PLANNING], DENIED);
    Onward([PLANNING, RUNNING], FAILED);
  }

  // The handler is only reached from states that may fail.
  lemma HandlerMayFail(before: seq<TaskState>, path: seq<TaskState>)
    requires Legal(path) && before + [FAILED] == path
    ensures FAILED in Allowed(Before(before, |before|)) && LastState(path) == FAILED
    ensures Before(before, |before|) !in TERMINAL_STATES
  {
    LegalEdges(path, |before|);
    assert before != [] ==> path[|before| - 1] == before[|before| - 1];
  }

  // A task is DENIED exactly when the preflight denies it.  A denial that comes after RUNNING,
  // raised by the executor or returned as a status, ends FAILED.
  lemma DeniedExactlyWhen(p: Plan, defaultMs: int)
    requires Sound(p)
    ensures var c := CourseOf(p, defaultMs);
            && (LastState(c.path) == DENIED <==> p.callValid && p.preflight == Some(PermissionDenied))
            && (RUNNING in c.path ==> LastState(c.path) != DENIED)
            && (GoesOn(p, defaultMs) && LastAttempt(p) in {Raises(PermissionDenied), Returns(DENIED)} ==>
                  LastState(c.path) == FAILED && c.error == Some(RuntimeFailure))
  {
    hide Decisive;
  }

  // A run succeeds exactly when every check passes and the decisive attempt returns SUCCEEDED.
  lemma SucceedsExactlyWhen(p: Plan, defaultMs: int)
    requires Sound(p)
    ensures LastState(CourseOf(p, defaultMs).path) == SUCCEEDED <==>
              GoesOn(p, defaultMs) && p.resultValid && LastAttempt(p) == Returns(SUCCEEDED)
    ensures LastState(CourseOf(p, defaultMs).path) == SUCCEEDED ==> CourseOf(p, defaultMs).error.None?
  {
    hide Decisive;
  }

  // The call runs: every check before RUNNING passes, and its own timeout, or else the default, is
  // positive.
  predicate GoesOn(p: Plan, defaultMs: int) {
    p.callValid && p.preflight.None? && (p.timeoutMs > 0 || (p.timeoutMs == 0 && defaultMs > 0))
  }

  // The outcome that counts: of the first attempt, or of the second when the first times out and the
  // call may be retried.
  function LastAttempt(p: Plan): (last: Attempt<TaskState>)
    ensures last == if p.safeRetry && p.attempts(0) == Raises(TimeoutError) then p.attempts(1) else p.attempts(0)
  {
    assert Decisive(p.attempts, 1, 1) == 1;
    p.attempts(Decisive(p.attempts, 0, MaxAttempts(p) - 1))
  }

  // A run ends CANCELLED when it is cancelled before it runs, or while it runs other than by the
  // watchdog, or when a valid result says so; it ends TIMED_OUT when the watchdog cancelled it, the
  // last attempt timed out, or a valid result says so.
  lemma StopsExactlyWhen(p: Plan, defaultMs: int)
    requires Sound(p)
    ensures var (state, last) := (LastState(CourseOf(p, defaultMs).path), LastAttempt(p));
            && (state == CANCELLED <==>
                  || (p.callValid && p.preflight == Some(CancellationRequested))
                  || (GoesOn(p, defaultMs) && last == Raises(CancellationRequested) && !p.watchdogFired)
                  || (GoesOn(p, defaultMs) && last == Returns(CANCELLED) && p.resultValid))
            && (state == TIMED_OUT <==>
                  GoesOn(p, defaultMs)
                  && (|| (last == Raises(CancellationRequested) && p.watchdogFired)
                      || last == Raises(TimeoutError)
                      || (last == Returns(TIMED_OUT) && p.resultValid)))
  {
    hide Decisive;
  }

  // A run ends FAILED when a check raises anything but a cancellation or a denial, the timeout is not
  // positive, an attempt is denied or raises anything else, or the result is invalid, denied or says so.
  lemma FailsExactlyWhen(p: Plan, defaultMs: int)
    requires Sound(p)
    ensures var last := LastAttempt(p);
            LastState(CourseOf(p, defaultMs).path) == FAILED <==>
              || !p.callValid
              || p.preflight in {Some(TimeoutError), Some(Other)}
              || (p.preflight.None? && !GoesOn(p, defaultMs))
              || (GoesOn(p, defaultMs) &&
                  (|| last in {Raises(PermissionDenied), Raises(Other), Returns(DENIED), Returns(FAILED)}
                   || (last.Returns? && !p.resultValid)))
  {
    hide Decisive;
  }

  // The result reported is the status returned, when the run got as far as accepting it; the error is
  // fixed by the final state and by whether there is a result.
  lemma ReportsExactly(p: Plan, defaultMs: int)
    requires Sound(p)
    ensures var (c, last) := (CourseOf(p, defaultMs), LastAttempt(p));
            var state := LastState(c.path);
            && (c.result.Some? <==> GoesOn(p, defaultMs) && last.Returns? && p.resultValid && last.value != DENIED)
            && (c.result.Some? ==> last.Returns? && c.result == Some(last.value) && state == last.value
                                   && c.error == if state == TIMED_OUT then Some(TaskTimedOut) else None)
            && (c.result.None? ==>
                  && state != SUCCEEDED
                  && c.error == Some(if state == CANCELLED then TaskCancelled
                                     else if state == DENIED then PermissionDeniedCode
                                     else if state == TIMED_OUT then TaskTimedOut
                                     else RuntimeFailure))
  {
    hide Decisive;
  }

  // What the audit log gains, write by write, and what run returns.  A write that fails inside the
  // try block leads to the handler, which records FAILED whatever the state; one that fails in the
  // handler escapes.
  function Recorded(c: Course, audits: nat -> bool): (seq<TaskState>, Option<(Option<TaskState>, Option<Code>)>)
    requires c.path != []
  {
    if audits(0) then ([LastState(c.path)], Some((c.result, c.error)))
    else if c.handled || !audits(1) then ([], None)
    else ([FAILED], Some((None, Some(RuntimeFailure))))
  }

  // With the audit log working there is exactly one record and its outcome is the final state; and
  // whenever run returns there is exactly one, which differs from the state exactly when the first
  // write failed and the state was not FAILED.
  lemma OneRecordPerRun(p: Plan, defaultMs: int)
    requires Sound(p)
    ensures var c := CourseOf(p, defaultMs);
            && c.path != []
            && var (records, returned) := Recorded(c, p.audits);
               && (p.audits(0) ==> records == [LastState(c.path)] && returned == Some((c.result, c.error)))
               && (returned.None? <==> !p.audits(0) && (c.handled || !p.audits(1)))
               && (!p.audits(0) && returned.Some? ==> records == [FAILED] && returned == Some((None, Some(RuntimeFailure))))
               && (returned.Some? <==> |records| == 1)
               && (returned.Some? ==>
                     (records == [LastState(c.path)] <==> p.audits(0) || LastState(c.path) == FAILED))
  {
    CourseEndsTerminal(p, defaultMs);
    hide CourseOf;
  }

  class TaskOrchestrator {
    const defaultTimeoutMs: int
    var log: seq<TaskState>

    constructor (defaultTimeoutMs: int)
      requires defaultTimeoutMs > 0
      ensures this.defaultTimeoutMs == defaultTimeoutMs && log == []
    {
      this.defaultTimeoutMs := defaultTimeoutMs;
      log := [];
    }

    method AuditTask(outcome: TaskState, ok: bool)
      modifies this`log
      ensures log == if ok then old(log) + [outcome] else old(log)
    {
      if ok {
        log := log + [outcome];
      }
    }

    // The try block of run, up to its audit write: None when something raises into the handler.
    method Pursue(p: Plan, lifecycle: TaskLifecycle) returns (end: Option<(Option<TaskState>, Option<Code>)>)
      requires Sound(p) && lifecycle.Valid() && lifecycle.events == []
      modifies lifecycle, lifecycle.machine
      ensures lifecycle.Valid()
      ensures var c := CourseOf(p, defaultTimeoutMs);
              && (end.None? <==> c.handled)
              && (end.Some? ==> end.value == (c.result, c.error) && States(lifecycle.events) == c.path)
              && (end.None? ==> States(lifecycle.events) + [FAILED] == c.path)
    {
      hide Legal, Numbered, Sound;
      var _ := lifecycle.Transition(PLANNING);
      if !p.callValid {
        return None;
      }
      if p.preflight.Some? {
        if p.preflight.value == CancellationRequested {
          var _ := lifecycle.Transition(CANCELLED);
          return Some((None, Some(TaskCancelled)));
        }
        if p.preflight.value == PermissionDenied {
          var _ := lifecycle.Transition(DENIED);
          return Some((None, Some(PermissionDeniedCode)));
        }
        return None;
      }
      var _ := lifecycle.Transition(RUNNING);
      var timeout := if p.timeoutMs != 0 then p.timeoutMs else defaultTimeoutMs;
      if timeout <= 0 {
        return None;
      }
      var attempt, used := RunWithRetry(p.attempts, if p.safeRetry then 2 else 1);
      assert attempt == p.attempts(Decisive(p.attempts, 0, MaxAttempts(p) - 1));
      AttemptIsTerminal(p, used - 1);
      hide Decisive, AfterAttempts;
      end := Conclude(p, attempt, lifecycle);
    }

    // From the outcome of the attempts to the last transition.
    method Conclude(p: Plan, attempt: Attempt<TaskState>, lifecycle: TaskLifecycle)
      returns (end: Option<(Option<TaskState>, Option<Code>)>)
      requires lifecycle.Valid() && States(lifecycle.events) == [PLANNING, RUNNING]
      requires attempt.Returns? ==> attempt.value in TERMINAL_STATES
      modifies lifecycle, lifecycle.machine
      ensures lifecycle.Valid()
      ensures var c := AfterAttempts(p, attempt);
              && (end.None? <==> c.handled)
              && (end.Some? ==> end.value == (c.result, c.error) && States(lifecycle.events) == c.path)
              && (end.None? ==> States(lifecycle.events) + [FAILED] == c.path)
    {
      hide Legal, Numbered;
      assert lifecycle.machine.state == RUNNING;
      match attempt {
        case Raises(CancellationRequested) =>
          if p.watchdogFired {
            var _ := lifecycle.Transition(TIMED_OUT);
            return Some((None, Some(TaskTimedOut)));
          }
          var _ := lifecycle.Transition(CANCELLED);
          return Some((None, Some(TaskCancelled)));
        case Raises(PermissionDenied) =>
          // RUNNING does not allow DENIED: the transition raises into the handler.
          var denied := lifecycle.Transition(DENIED);
          return if denied then Some((None, Some(PermissionDeniedCode))) else None;
        case Raises(TimeoutError) =>
          var _ := lifecycle.Transition(TIMED_OUT);
          return Some((None, Some(TaskTimedOut)));
        case Raises(Other) =>
          return None;
        case Returns(status) =>
          var _ := lifecycle.Transition(VALIDATING);
          if !p.resultValid {
            return None;
          }
          var reached := lifecycle.Transition(status);
          if !reached {
            return None;
          }
          return Some((Some(status), if status == TIMED_OUT then Some(TaskTimedOut) else None));
      }
    }

    // run; Failure when it raises: an invalid request, or an audit log that fails in the handler.
    method Run(p: Plan) returns (r: Result<Outcome, ()>)
      requires Sound(p) && defaultTimeoutMs > 0
      modifies this`log
      ensures !p.requestValid ==> r.Failure? && log == old(log)
      ensures p.requestValid ==>
                var c := CourseOf(p, defaultTimeoutMs);
                && c.path != [] && Legal(c.path) && LastState(c.path) in TERMINAL_STATES
                && log == old(log) + Recorded(c, p.audits).0
                && (r.Success? <==> Recorded(c, p.audits).1.Some?)
                && (r.Success? ==>
                      && (r.value.result, r.value.error) == Recorded(c, p.audits).1.value
                      && r.value.state == LastState(c.path)
                      && States(r.value.events) == c.path && Numbered(r.value.events))
    {
      hide *;
      if !p.requestValid {
        return Failure(());
      }
      CourseEndsTerminal(p, defaultTimeoutMs);
      ghost var c := CourseOf(p, defaultTimeoutMs);
      RecordedIs(c, p.audits);
      PathEnd(c.path);
      var lifecycle := new TaskLifecycle();
      var end := Pursue(p, lifecycle);
      lifecycle.ValidIs();
      if end.Some? {
        var state := lifecycle.machine.state;
        AuditTask(state, p.audits(0));
        if p.audits(0) {
          return Success(Outcome(state, end.value.0, end.value.1, lifecycle.events));
        }
        r := Handle(lifecycle, c.path, p.audits(1));
      } else {
        r := Handle(lifecycle, c.path, p.audits(0));
      }
    }

    // The handler of run: FAILED unless terminal already, then its own record.
    method Handle(lifecycle: TaskLifecycle, ghost path: seq<TaskState>, audited: bool) returns (r: Result<Outcome, ()>)
      requires lifecycle.Valid() && path != [] && Legal(path) && LastState(path) in TERMINAL_STATES
      requires States(lifecycle.events) == path || States(lifecycle.events) + [FAILED] == path
      modifies this`log, lifecycle, lifecycle.machine
      ensures log == if audited then old(log) + [FAILED] else old(log)
      ensures r.Success? <==> audited
      ensures r.Success? ==>
                && r.value.result == None && r.value.error == Some(RuntimeFailure)
                && r.value.state == LastState(path) && States(r.value.events) == path && Numbered(r.value.events)
    {
      ghost var reached := States(lifecycle.events);
      lifecycle.ValidIs();
      PathEnd(path);
      if reached != path {
        HandlerMayFail(reached, path);
      }
      hide *;
      if lifecycle.machine.state !in TERMINAL_STATES {
        var _ := lifecycle.Transition(FAILED);
        lifecycle.ValidIs();
      }
      AuditTask(FAILED, audited);
      if !audited {
        return Failure(());
      }
      return Success(Outcome(lifecycle.machine.state, None, Some(RuntimeFailure), lifecycle.events));
    }
  }

  lemma PathEnd(path: seq<TaskState>)
    requires path != []
    ensures Before(path, |path|) == LastState(path)
  {
  }

  lemma RecordedIs(c: Course, audits: nat -> bool)
    requires c.path != []
    ensures audits(0) && !c.handled ==> Recorded(c, audits) == ([LastState(c.path)], Some((c.result, c.error)))
    ensures !audits(0) && (c.handled || !audits(1)) ==> Recorded(c, audits) == ([], None)
    ensures !audits(0) && !c.handled && audits(1) ==> Recorded(c, audits) == ([FAILED], Some((None, Some(RuntimeFailure))))
    ensures audits(0) && c.handled ==> Recorded(c, audits) == ([LastState(c.path)], Some((c.result, c.error)))
  {
  }
}
