/**
  The authorized tool runner and the tool executor: tooling.py and tool_executor.py.  Authority is
  derived once by the runner from the call and once by the executor from the descriptor, and the
  two are compared.  Handlers, validators, deadlines and cancellation are a parameter of each run.
 */
module ToolExecution {
  import opened Policy
  import opened ToolContracts
  import opened Wrappers
  import Orchestrator
  import Strings

  datatype Request = Request(
    schemaVersion: string, requestId: string, principalType: string, principalId: string, permission: Permission,
    reason: string, taskId: string)

  function RequestsFor(call: Call, permissions: seq<Permission>, principalType: string, principalId: string): seq<Request> {
    seq(|permissions|, k requires 0 <= k < |permissions| =>
      Request(call.schemaVersion, call.requestId, principalType, principalId, permissions[k],
              "Tool operation " + call.tool + "." + call.operation, call.taskId))
  }

  // ---------- the runner ----------

  const AGENT := "agent"
  const RUNTIME := "runtime"

  function RunnerRequests(call: Call): seq<Request> {
    RequestsFor(call, call.permissions, AGENT, RUNTIME)
  }

  type Evaluator = Permission -> Decision

  // None when some permission is not allowed.
  function Authorize(call: Call, evaluate: Evaluator): Option<seq<Request>> {
    if exists p <- call.permissions :: evaluate(p) != ALLOW then None else Some(RunnerRequests(call))
  }

  // ---------- what happens to one attempt ----------

  // Cancelled before the attempt is recorded, before its handler starts, or later; past its
  // deadline (a handler or validator that raises TimeoutError counts as that); raising anything
  // else; or returning, with the validator's word if there is one.
  datatype Try =
    | CancelledBefore
    | CancelledEarly(byTimeout: bool)
    | CancelledLate(byTimeout: bool)
    | Overruns
    | Raises(name: string)
    | Returns(valid: Option<bool>)

  datatype Code =
    | NoCode | UnknownToolCode | InvalidInvocation | AuthorizationMismatch | ApprovalRequired | PermissionDenied
    | TimeoutCode | CancelledCode | ValidationFailed | Exception(name: string)

  datatype Status =
    | REJECTED | APPROVAL_REQUIRED | DENIED | AUTHORIZED_EXECUTION | VALIDATION_FAILED | SUCCEEDED | TIMED_OUT
    | CANCELLED | RETRYING | FAILED

  type Records = seq<(Permission, Decision)>

  datatype Event = Event(status: Status, attempt: nat, authorization: Records, code: Code)

  // A ToolResult, by its status and error code.
  datatype Reply = Reply(status: Orchestrator.TaskState, code: Code)

  datatype Raised = CancellationRequested | ApprovalRequiredError

  // `starts` counts how often a handler was started.
  datatype Trace = Trace(events: seq<Event>, reply: Result<Reply, Raised>, starts: nat)

  function Interrupted(byTimeout: bool, attempt: nat, records: Records): Event {
    if byTimeout then Event(TIMED_OUT, attempt, records, TimeoutCode) else Event(CANCELLED, attempt, records, CancelledCode)
  }

  // One attempt: what it records, how often it starts the handler, and the reply unless it is to be
  // retried.
  datatype Attempted = Attempted(events: seq<Event>, starts: nat, reply: Option<Result<Reply, Raised>>)

  function Ended(begun: Event, end: Event, starts: nat, reply: Result<Reply, Raised>): Attempted {
    Attempted([begun, end], starts, Some(reply))
  }

  function OneAttempt(now: Try, attempt: nat, retry: bool, records: Records): Attempted {
    var begun := Event(AUTHORIZED_EXECUTION, attempt, records, NoCode);
    match now
    case CancelledBefore => Attempted([], 0, Some(Failure(CancellationRequested)))
    case CancelledEarly(t) => Ended(begun, Interrupted(t, attempt, records), 0, Failure(CancellationRequested))
    case CancelledLate(t) => Ended(begun, Interrupted(t, attempt, records), 1, Failure(CancellationRequested))
    case Overruns =>
      Ended(begun, Event(TIMED_OUT, attempt, records, TimeoutCode), 1, Success(Reply(Orchestrator.TIMED_OUT, TimeoutCode)))
    case Raises(name) =>
      if retry then Attempted([begun, Event(RETRYING, attempt, records, Exception(name))], 1, None)
      else
        Ended(begun, Event(FAILED, attempt, records, Exception(name)), 1, Success(Reply(Orchestrator.FAILED, Exception(name))))
    case Returns(Some(false)) =>
      Ended(begun, Event(VALIDATION_FAILED, attempt, records, ValidationFailed), 1,
            Success(Reply(Orchestrator.FAILED, ValidationFailed)))
    case Returns(_) =>
      Ended(begun, Event(SUCCEEDED, attempt, records, NoCode), 1, Success(Reply(Orchestrator.SUCCEEDED, NoCode)))
  }

  // An attempt goes unanswered exactly when its handler or validator raised, by neither time-out nor
  // cancellation, and another attempt is left.  It starts the handler at most once, and never unless
  // it has recorded the authorized execution; every attempt that recorded one records one more event,
  // which says retrying, succeeded, timed out or cancelled exactly when the answer does.
  lemma AttemptIsAccountable(now: Try, attempt: nat, retry: bool, records: Records)
    ensures var (events, starts, reply) := (OneAttempt(now, attempt, retry, records).events,
                                            OneAttempt(now, attempt, retry, records).starts,
                                            OneAttempt(now, attempt, retry, records).reply);
            && (reply.None? <==> retry && now.Raises?)
            && starts <= 1
            && (events == [] ==> starts == 0 && reply == Some(Failure(CancellationRequested)))
            && (events != [] ==>
                  && |events| == 2 && events[0] == Event(AUTHORIZED_EXECUTION, attempt, records, NoCode)
                  && events[1].attempt == attempt && events[1].authorization == records
                  && (events[1].status == RETRYING <==> reply.None?)
                  && (events[1].status == SUCCEEDED <==> reply == Some(Success(Reply(Orchestrator.SUCCEEDED, NoCode))))
                  && (events[1].status in {TIMED_OUT, CANCELLED} <==>
                        reply in {Some(Success(Reply(Orchestrator.TIMED_OUT, TimeoutCode))), Some(Failure(CancellationRequested))})
                  && (reply == Some(Failure(CancellationRequested)) ==>
                        (events[1].status == TIMED_OUT <==> (now.CancelledEarly? || now.CancelledLate?) && now.byTimeout))
                  && (events[1].status == VALIDATION_FAILED <==> now == Returns(Some(false)))
                  && (events[1].status == FAILED <==> now.Raises? && !retry))
  {
  }

  // The attempt loop from `attempt` to `last`.
  function Attempts(tries: nat -> Try, attempt: nat, last: nat, records: Records): Trace
    requires attempt <= last
    decreases last - attempt
  {
    var now := OneAttempt(tries(attempt), attempt, attempt < last, records);
    if now.reply.Some? then Trace(now.events, now.reply.value, now.starts)
    else
      var rest := Attempts(tries, attempt + 1, last, records);
      Trace(now.events + rest.events, rest.reply, now.starts + rest.starts)
  }

  // ---------- the executor ----------

  function RecordsOf(permissions: seq<Permission>, evaluate: Evaluator): Records {
    seq(|permissions|, k requires 0 <= k < |permissions| => (permissions[k], evaluate(permissions[k])))
  }

  // The first permission the policy does not allow.
  function Refused(permissions: seq<Permission>, evaluate: Evaluator): (k: nat)
    ensures k <= |permissions|
    ensures forall i :: 0 <= i < k ==> evaluate(permissions[i]) == ALLOW
    ensures k < |permissions| ==> evaluate(permissions[k]) != ALLOW
  {
    if permissions == [] then 0
    else
      var n := |permissions| - 1;
      var k := Refused(permissions[..n], evaluate);
      if k < n then k else if evaluate(permissions[n]) == ALLOW then n + 1 else n
  }

  function Rejection(code: Code): Trace {
    Trace([Event(REJECTED, 0, [], code)], Success(Reply(Orchestrator.FAILED, code)), 0)
  }

  function MaxAttempts(d: Descriptor, call: Call): nat {
    if d.retryMode == SAFE && call.retryMode == SAFE then 2 else 1
  }

  datatype Principal = Principal(kind: string, id: string)

  function ExecuteTrace(tools: Tools, principal: Principal, call: Call, authorization: Option<seq<Request>>, cancelled: bool,
                        evaluate: Evaluator, tries: nat -> Try): Trace
  {
    if cancelled then Trace([], Failure(CancellationRequested), 0)
    else if call.tool !in tools then Rejection(UnknownToolCode)
    else
      var d := tools[call.tool];
      var expected := RequestsFor(call, d.permissions, principal.kind, principal.id);
      if CheckInvocation(call, d).Failure? then Rejection(InvalidInvocation)
      else if authorization.Some? && authorization.value != expected then Rejection(AuthorizationMismatch)
      else Judged(d, call, evaluate, tries)
  }

  // An accepted call: the policy on every permission, then the attempts.
  function Judged(d: Descriptor, call: Call, evaluate: Evaluator, tries: nat -> Try): Trace {
    var k := Refused(d.permissions, evaluate);
    if k == |d.permissions| then Attempts(tries, 1, MaxAttempts(d, call), RecordsOf(d.permissions, evaluate))
    else
      var records := RecordsOf(d.permissions[..k + 1], evaluate);
      if evaluate(d.permissions[k]) == REQUIRE_APPROVAL then
        Trace([Event(APPROVAL_REQUIRED, 0, records, ApprovalRequired)], Failure(ApprovalRequiredError), 0)
      else
        Trace([Event(DENIED, 0, records, PermissionDenied)], Success(Reply(Orchestrator.DENIED, PermissionDenied)), 0)
  }

  class ToolExecutor {
    const tools: Tools
    const principal: Principal
    var audit: seq<Event>
    ghost var starts: nat

    constructor (tools: Tools, principal: Principal)
      ensures this.tools == tools && this.principal == principal && audit == [] && starts == 0
    {
      this.tools, this.principal := tools, principal;
      audit, starts := [], 0;
    }

    method Record(event: Event)
      modifies this`audit
      ensures audit == old(audit) + [event]
    {
      audit := audit + [event];
    }

    method Reject(code: Code) returns (r: Result<Reply, Raised>)
      modifies this`audit
      ensures audit == old(audit) + Rejection(code).events && r == Rejection(code).reply
    {
      Record(Event(REJECTED, 0, [], code));
      return Success(Reply(Orchestrator.FAILED, code));
    }

    method Execute(call: Call, authorization: Option<seq<Request>>, cancelled: bool, evaluate: Evaluator, tries: nat -> Try)
      returns (r: Result<Reply, Raised>)
      modifies this
      ensures var t := ExecuteTrace(tools, principal, call, authorization, cancelled, evaluate, tries);
              audit == old(audit) + t.events && r == t.reply && starts == old(starts) + t.starts
    {
      hide Attempts, CheckInvocation, RequestsFor;
      if cancelled {
        return Failure(CancellationRequested);
      }
      if call.tool !in tools {
        r := Reject(UnknownToolCode);
        return;
      }
      var d := tools[call.tool];
      if CheckInvocation(call, d).Failure? {
        r := Reject(InvalidInvocation);
        return;
      }
      var expected := RequestsFor(call, d.permissions, principal.kind, principal.id);
      var supplied := if authorization.Some? then authorization.value else expected;
      if supplied != expected {
        r := Reject(AuthorizationMismatch);
        return;
      }
      var records: Records := [];
      for k := 0 to |d.permissions|
        invariant records == RecordsOf(d.permissions[..k], evaluate)
        invariant forall i :: 0 <= i < k ==> evaluate(d.permissions[i]) == ALLOW
        invariant audit == old(audit) && starts == old(starts)
      {
        var decision := evaluate(d.permissions[k]);
        records := records + [(d.permissions[k], decision)];
        assert records == RecordsOf(d.permissions[..k + 1], evaluate);
        if decision == REQUIRE_APPROVAL {
          Record(Event(APPROVAL_REQUIRED, 0, records, ApprovalRequired));
          return Failure(ApprovalRequiredError);
        }
        if decision == DENY {
          Record(Event(DENIED, 0, records, PermissionDenied));
          return Success(Reply(Orchestrator.DENIED, PermissionDenied));
        }
      }
      assert d.permissions[..|d.permissions|] == d.permissions;
      var retryAllowed := d.retryMode == SAFE && call.retryMode == SAFE;
      r := RunAttempts(tries, if retryAllowed then 2 else 1, records);
    }

    // The attempt loop: a failed attempt is retried, everything else returns.
    method RunAttempts(tries: nat -> Try, last: nat, records: Records) returns (r: Result<Reply, Raised>)
      requires last > 0
      modifies this
      ensures var t := Attempts(tries, 1, last, records);
              audit == old(audit) + t.events && r == t.reply && starts == old(starts) + t.starts
    {
      ghost var whole := Attempts(tries, 1, last, records);
      hide OneAttempt, Attempts;
      for attempt := 1 to last + 1
        invariant attempt <= last
        invariant var rest := Attempts(tries, attempt, last, records);
                  audit + rest.events == old(audit) + whole.events && rest.reply == whole.reply
                  && starts + rest.starts == old(starts) + whole.starts
      {
        AttemptsStep(tries, attempt, last, records, audit);
        var reply := RunAttempt(tries(attempt), attempt, attempt < last, records);
        if reply.Some? {
          return reply.value;
        }
      }
      assert false;
    }

    // One attempt; it ends without an answer exactly when it is to be retried.
    method RunAttempt(now: Try, attempt: nat, retry: bool, records: Records) returns (reply: Option<Result<Reply, Raised>>)
      modifies this
      ensures var one := OneAttempt(now, attempt, retry, records);
              audit == old(audit) + one.events && starts == old(starts) + one.starts && reply == one.reply
      ensures reply.None? <==> retry && now.Raises?
    {
      if now.CancelledBefore? {
        return Some(Failure(CancellationRequested));
      }
      Record(Event(AUTHORIZED_EXECUTION, attempt, records, NoCode));
      if !now.CancelledEarly? {
        starts := starts + 1;
      }
      match now {
        case CancelledEarly(t) =>
          Record(Interrupted(t, attempt, records));
          return Some(Failure(CancellationRequested));
        case CancelledLate(t) =>
          Record(Interrupted(t, attempt, records));
          return Some(Failure(CancellationRequested));
        case Overruns =>
          Record(Event(TIMED_OUT, attempt, records, TimeoutCode));
          return Some(Success(Reply(Orchestrator.TIMED_OUT, TimeoutCode)));
        case Raises(name) =>
          if retry {
            Record(Event(RETRYING, attempt, records, Exception(name)));
            return None;
          }
          Record(Event(FAILED, attempt, records, Exception(name)));
          return Some(Success(Reply(Orchestrator.FAILED, Exception(name))));
        case Returns(valid) =>
          if valid == Some(false) {
            Record(Event(VALIDATION_FAILED, attempt, records, ValidationFailed));
            return Some(Success(Reply(Orchestrator.FAILED, ValidationFailed)));
          }
          Record(Event(SUCCEEDED, attempt, records, NoCode));
          return Some(Success(Reply(Orchestrator.SUCCEEDED, NoCode)));
      }
    }
  }

  // The trace from one attempt on, after the events before it.
  lemma AttemptsStep(tries: nat -> Try, attempt: nat, last: nat, records: Records, before: seq<Event>)
    requires attempt <= last
    ensures var (now, t) := (OneAttempt(tries(attempt), attempt, attempt < last, records), Attempts(tries, attempt, last, records));
            && (now.reply.Some? ==> t == Trace(now.events, now.reply.value, now.starts))
            && (now.reply.None? ==>
                  && attempt < last
                  && var rest := Attempts(tries, attempt + 1, last, records);
                     && before + t.events == before + now.events + rest.events
                     && t.reply == rest.reply && t.starts == now.starts + rest.starts)
  {
  }

  // ---------- what every execution keeps ----------

  function CountOf(events: seq<Event>, status: Status): nat {
    if events == [] then 0 else CountOf(events[1..], status) + if events[0].status == status then 1 else 0
  }

  lemma {:induction false} CountSplits(a: seq<Event>, b: seq<Event>, status: Status)
    ensures CountOf(a + b, status) == CountOf(a, status) + CountOf(b, status)
  {
    if a == [] {
      assert a + b == b;
    } else {
      CountSplits(a[1..], b, status);
      assert (a + b)[1..] == a[1..] + b;
    }
  }

  // The loop starts its handler at most once an attempt, only after recording the attempt, and the
  // last thing it records says how the call ended.
  ghost predicate Recorded(t: Trace, records: Records) {
    && t.starts <= CountOf(t.events, AUTHORIZED_EXECUTION) <= t.starts + 1
    && (forall e <- t.events :: e.authorization == records && e.status != REJECTED)
    && (t.reply.Success? ==> t.starts > 0 && t.events != [] && t.events[|t.events| - 1].code == t.reply.value.code)
    && (t.reply.Success? ==> t.reply.value.code !in {UnknownToolCode, InvalidInvocation, AuthorizationMismatch})
    && t.reply != Failure(ApprovalRequiredError)
    && CountOf(t.events, SUCCEEDED) == if t.reply == Success(Reply(Orchestrator.SUCCEEDED, NoCode)) then 1 else 0
  }

  lemma {:induction false} AttemptsAreRecorded(tries: nat -> Try, attempt: nat, last: nat, records: Records)
    requires attempt <= last
    ensures Attempts(tries, attempt, last, records).starts <= last - attempt + 1
    ensures Recorded(Attempts(tries, attempt, last, records), records)
    decreases last - attempt
  {
    hide Recorded, OneAttempt;
    var now := OneAttempt(tries(attempt), attempt, attempt < last, records);
    AttemptIsRecorded(tries(attempt), attempt, attempt < last, records);
    if now.reply.None? {
      AttemptsAreRecorded(tries, attempt + 1, last, records);
      RetryIsRecorded(tries(attempt), attempt, records, Attempts(tries, attempt + 1, last, records));
    }
  }

  lemma AttemptIsRecorded(now: Try, attempt: nat, retry: bool, records: Records)
    ensures var one := OneAttempt(now, attempt, retry, records);
            && one.starts <= 1 && (one.reply.None? ==> one.starts == 1 && now.Raises? && retry)
            && (one.reply.Some? ==> Recorded(Trace(one.events, one.reply.value, one.starts), records))
  {
    var events := OneAttempt(now, attempt, retry, records).events;
    if !now.CancelledBefore? {
      assert events == [events[0], events[1]];
      TwoEvents(events[0], events[1]);
    }
    hide CountOf;
  }

  lemma RetryIsRecorded(now: Try, attempt: nat, records: Records, rest: Trace)
    requires now.Raises? && Recorded(rest, records)
    ensures var one := OneAttempt(now, attempt, true, records);
            Recorded(Trace(one.events + rest.events, rest.reply, one.starts + rest.starts), records)
  {
    var events := OneAttempt(now, attempt, true, records).events;
    assert events == [events[0], events[1]];
    TwoEvents(events[0], events[1]);
    CountSplits(events, rest.events, AUTHORIZED_EXECUTION);
    CountSplits(events, rest.events, SUCCEEDED);
    hide CountOf;
  }

  lemma TwoEvents(a: Event, b: Event)
    ensures forall s :: CountOf([a, b], s) == (if a.status == s then 1 else 0) + (if b.status == s then 1 else 0)
  {
    forall s ensures CountOf([a, b], s) == (if a.status == s then 1 else 0) + (if b.status == s then 1 else 0) {
      assert [a, b][1..] == [b] && [b][1..] == [];
      assert CountOf([b], s) == if b.status == s then 1 else 0;
    }
  }

  // After its checks an execution starts handlers only when every permission is allowed.
  lemma JudgedKeeps(d: Descriptor, call: Call, evaluate: Evaluator, tries: nat -> Try)
    ensures var t := Judged(d, call, evaluate, tries);
            && t.starts <= MaxAttempts(d, call)
            && (forall e <- t.events :: e.status != REJECTED)
            && (t.reply.Success? ==> t.reply.value.code !in {UnknownToolCode, InvalidInvocation, AuthorizationMismatch})
            && (t.starts > 0 || (t.reply.Success? && t.reply.value.status == Orchestrator.SUCCEEDED) ==>
                  forall p <- d.permissions :: evaluate(p) == ALLOW)
  {
    AttemptsAreRecorded(tries, 1, MaxAttempts(d, call), RecordsOf(d.permissions, evaluate));
    hide Attempts, CountOf;
  }

  // Whatever the call and the authorization handed in, a handler starts only when the call stays
  // within its registered descriptor and the policy allows every permission the descriptor names;
  // and it starts at most twice, at most once unless descriptor and call are both SAFE.
  lemma HandlerOnlyWhenAllowed(tools: Tools, principal: Principal, call: Call, authorization: Option<seq<Request>>,
                               cancelled: bool, evaluate: Evaluator, tries: nat -> Try)
    ensures var t := ExecuteTrace(tools, principal, call, authorization, cancelled, evaluate, tries);
            && t.starts <= 2
            && (t.starts == 2 ==> call.tool in tools && tools[call.tool].retryMode == SAFE && call.retryMode == SAFE)
            && (t.starts > 0 || (t.reply.Success? && t.reply.value.status == Orchestrator.SUCCEEDED) ==>
                  && call.tool in tools && CheckInvocation(call, tools[call.tool]).Success?
                  && forall p <- tools[call.tool].permissions :: evaluate(p) == ALLOW)
  {
    if !cancelled && call.tool in tools {
      hide CheckInvocation, RequestsFor, Judged;
      JudgedKeeps(tools[call.tool], call, evaluate, tries);
    }
  }

  // A call the resolver made, authorized by the runner on the same registry, is never rejected by an
  // executor that acts as the same principal: what is left is the policy and the handler.
  lemma ResolvedCallIsNeverRejected(tools: Tools, proposal: Proposal, key: string, cancelled: bool,
                                    atRunner: Evaluator, evaluate: Evaluator, tries: nat -> Try)
    requires Consistent(tools) && Strings.Strip(key) != "" && Resolve(tools, proposal, key).Success?
    requires Authorize(Resolve(tools, proposal, key).value, atRunner).Some?
    ensures var call := Resolve(tools, proposal, key).value;
            var authorization := Authorize(call, atRunner);
            var t := ExecuteTrace(tools, Principal(AGENT, RUNTIME), call, authorization, cancelled, evaluate, tries);
            && (forall e <- t.events :: e.status != REJECTED)
            && (t.reply.Success? ==> t.reply.value.code !in {UnknownToolCode, InvalidInvocation, AuthorizationMismatch})
            && (t.starts > 0 ==> forall p <- tools[proposal.tool].permissions :: atRunner(p) == ALLOW && evaluate(p) == ALLOW)
  {
    hide Resolve, CheckInvocation, RequestsFor, Judged;
    ResolvesExactlyWhen(tools, proposal, key);
    JudgedKeeps(tools[proposal.tool], Resolve(tools, proposal, key).value, evaluate, tries);
  }

  // ---------- exactly how an execution ends ----------

  // The first attempt raised and both modes are SAFE.
  predicate Retried(d: Descriptor, call: Call, tries: nat -> Try) {
    d.retryMode == SAFE && call.retryMode == SAFE && tries(1).Raises?
  }

  predicate Starts(now: Try) {
    !now.CancelledBefore? && !now.CancelledEarly?
  }

  // What the loop answers, by the attempt that counts.
  lemma AttemptsEndExactlyWhen(d: Descriptor, call: Call, tries: nat -> Try, records: Records)
    ensures var t := Attempts(tries, 1, MaxAttempts(d, call), records);
            var last := if Retried(d, call, tries) then tries(2) else tries(1);
            && (t.reply == Failure(CancellationRequested) <==> last.CancelledBefore? || last.CancelledEarly? || last.CancelledLate?)
            && (t.reply == Success(Reply(Orchestrator.TIMED_OUT, TimeoutCode)) <==> last.Overruns?)
            && (last.Raises? ==> t.reply == Success(Reply(Orchestrator.FAILED, Exception(last.name))))
            && (last == Returns(Some(false)) ==> t.reply == Success(Reply(Orchestrator.FAILED, ValidationFailed)))
            && (t.reply == Success(Reply(Orchestrator.SUCCEEDED, NoCode)) <==> last.Returns? && last.valid != Some(false))
            && t.starts == (if Retried(d, call, tries) then 1 else 0) + (if Starts(last) then 1 else 0)
  {
    if Retried(d, call, tries) {
      assert Attempts(tries, 2, 2, records).reply == OneAttempt(tries(2), 2, false, records).reply.value;
    }
  }

  // The first permission the policy does not allow, and what it says of it.
  ghost predicate StopsAt(permissions: seq<Permission>, evaluate: Evaluator, decision: Decision) {
    exists k :: 0 <= k < |permissions| && evaluate(permissions[k]) == decision != ALLOW
                && forall i :: 0 <= i < k ==> evaluate(permissions[i]) == ALLOW
  }

  // Every execution ends in exactly one way: cancelled, one of three rejections, one of the policy's
  // two refusals, or as its last attempt does.
  lemma ExecutesExactlyWhen(tools: Tools, principal: Principal, call: Call, authorization: Option<seq<Request>>,
                            cancelled: bool, evaluate: Evaluator, tries: nat -> Try)
    ensures var t := ExecuteTrace(tools, principal, call, authorization, cancelled, evaluate, tries);
            && (cancelled ==> t == Trace([], Failure(CancellationRequested), 0))
            && (!cancelled && call.tool !in tools ==>
                  t == Trace([Event(REJECTED, 0, [], UnknownToolCode)], Success(Reply(Orchestrator.FAILED, UnknownToolCode)), 0))
            && (!cancelled && call.tool in tools ==>
                  var d := tools[call.tool];
                  var invalid := CheckInvocation(call, d).Failure?;
                  var mismatch := authorization.Some? && authorization.value != RequestsFor(call, d.permissions, principal.kind, principal.id);
                  && (invalid ==>
                        t == Trace([Event(REJECTED, 0, [], InvalidInvocation)], Success(Reply(Orchestrator.FAILED, InvalidInvocation)), 0))
                  && (!invalid && mismatch ==>
                        t == Trace([Event(REJECTED, 0, [], AuthorizationMismatch)],
                                   Success(Reply(Orchestrator.FAILED, AuthorizationMismatch)), 0))
                  && (!invalid && !mismatch ==>
                        && (StopsAt(d.permissions, evaluate, DENY) ==>
                              t.reply == Success(Reply(Orchestrator.DENIED, PermissionDenied)) && t.starts == 0)
                        && (StopsAt(d.permissions, evaluate, REQUIRE_APPROVAL) ==>
                              t.reply == Failure(ApprovalRequiredError) && t.starts == 0)
                        && ((forall p <- d.permissions :: evaluate(p) == ALLOW) ==>
                              t == Attempts(tries, 1, MaxAttempts(d, call), RecordsOf(d.permissions, evaluate)))
                        && (StopsAt(d.permissions, evaluate, DENY) || StopsAt(d.permissions, evaluate, REQUIRE_APPROVAL)
                            || forall p <- d.permissions :: evaluate(p) == ALLOW)))
  {
    hide Attempts, CheckInvocation, RequestsFor, RecordsOf;
    if !cancelled && call.tool in tools {
      JudgedEnds(tools[call.tool], call, evaluate, tries);
    }
    hide Judged, StopsAt;
  }

  lemma JudgedEnds(d: Descriptor, call: Call, evaluate: Evaluator, tries: nat -> Try)
    ensures var t := Judged(d, call, evaluate, tries);
            && (StopsAt(d.permissions, evaluate, DENY) ==>
                  t.reply == Success(Reply(Orchestrator.DENIED, PermissionDenied)) && t.starts == 0)
            && (StopsAt(d.permissions, evaluate, REQUIRE_APPROVAL) ==> t.reply == Failure(ApprovalRequiredError) && t.starts == 0)
            && ((forall p <- d.permissions :: evaluate(p) == ALLOW) ==>
                  t == Attempts(tries, 1, MaxAttempts(d, call), RecordsOf(d.permissions, evaluate)))
            && (StopsAt(d.permissions, evaluate, DENY) || StopsAt(d.permissions, evaluate, REQUIRE_APPROVAL)
                || forall p <- d.permissions :: evaluate(p) == ALLOW)
  {
    hide Attempts, RecordsOf;
    var k := Refused(d.permissions, evaluate);
    if k < |d.permissions| {
      assert StopsAt(d.permissions, evaluate, evaluate(d.permissions[k]));
      forall decision | StopsAt(d.permissions, evaluate, decision) ensures decision == evaluate(d.permissions[k]) {
      }
    }
  }

  // The runner's requests are the executor's exactly when call and descriptor list the same
  // permissions and, if there are any, the executor acts as the runner's principal.
  lemma RequestsAgreeExactlyWhen(call: Call, d: Descriptor, principal: Principal)
    ensures RunnerRequests(call) == RequestsFor(call, d.permissions, principal.kind, principal.id) <==>
              call.permissions == d.permissions && (d.permissions == [] || principal == Principal(AGENT, RUNTIME))
  {
    var mine, theirs := RunnerRequests(call), RequestsFor(call, d.permissions, principal.kind, principal.id);
    if mine == theirs {
      assert |call.permissions| == |d.permissions|;
      forall k | 0 <= k < |d.permissions| ensures call.permissions[k] == d.permissions[k] {
        assert mine[k].permission == theirs[k].permission;
      }
      if d.permissions != [] {
        assert mine[0] == theirs[0];
      }
    }
  }

  // The runner authorizes exactly the calls all of whose permissions the policy allows.
  lemma AuthorizesExactlyWhen(call: Call, evaluate: Evaluator)
    ensures Authorize(call, evaluate).Some? <==> forall p <- call.permissions :: evaluate(p) == ALLOW
    ensures Authorize(call, evaluate).Some? ==>
              var requests := Authorize(call, evaluate).value;
              && |requests| == |call.permissions|
              && forall k :: 0 <= k < |requests| ==>
                   && requests[k].permission == call.permissions[k] && requests[k].requestId == call.requestId
                   && requests[k].taskId == call.taskId && requests[k].principalType == "agent" && requests[k].principalId == "runtime"
  {
  }

  // ---------- under the orchestrator's retry loop ----------

  // What the orchestrator's attempt sees of an execution.
  function AsAttempt(reply: Result<Reply, Raised>): Orchestrator.Attempt<Orchestrator.TaskState> {
    match reply
    case Success(r) => Orchestrator.Returns(r.status)
    case Failure(CancellationRequested) => Orchestrator.Raises(Orchestrator.CancellationRequested)
    case Failure(ApprovalRequiredError) => Orchestrator.Raises(Orchestrator.Other)
  }

  // No TimeoutError leaves the executor, so the orchestrator never repeats an execution, and the
  // handler starts at most twice through both retry loops together.
  lemma NestedRetriesExecuteOnce(tools: Tools, principal: Principal, call: Call, authorization: Option<seq<Request>>,
                                 cancelled: nat -> bool, evaluate: nat -> Evaluator, tries: nat -> nat -> Try,
                                 attempts: nat -> Orchestrator.Attempt<Orchestrator.TaskState>, last: nat)
    requires forall n :: attempts(n) ==
               AsAttempt(ExecuteTrace(tools, principal, call, authorization, cancelled(n), evaluate(n), tries(n)).reply)
    ensures Orchestrator.Decisive(attempts, 0, last) == 0
    ensures var starts := ExecuteTrace(tools, principal, call, authorization, cancelled(0), evaluate(0), tries(0)).starts;
            && starts <= 2
            && (starts == 2 ==> call.tool in tools && tools[call.tool].retryMode == SAFE && call.retryMode == SAFE)
  {
    hide ExecuteTrace;
    HandlerOnlyWhenAllowed(tools, principal, call, authorization, cancelled(0), evaluate(0), tries(0));
    assert attempts(0) != Orchestrator.Raises(Orchestrator.TimeoutError);
  }
}
