/**
  Parent and child of worker_process.py over two FIFO queues.  A call of a parent method is one
  step; its fate says how far the child gets meanwhile, whether it dies, and which sends fail.
 */
module WorkerProtocol {
  import opened Wrappers

  const PROTOCOL_VERSION := "0.1"

  datatype MessageType = START | READY | EXECUTE | RESULT | CANCEL | SHUTDOWN | ERROR

  type Payload = string

  datatype Message = Message(
    version: string, requestId: string, taskId: string, workerId: string,
    kind: MessageType, sequence: int, payload: Payload)
  {
    predicate Validates(expectedWorker: string) {
      version == PROTOCOL_VERSION && workerId == expectedWorker && sequence >= 0
    }
  }

  // `fits` stands for the encoded message being within the byte limit, `handler` for the worker's
  // handler, which raises or returns a non-object when it gives None.
  datatype Config = Config(workerId: string, fits: Message -> bool, handler: Message -> Option<Payload>)

  datatype ParentState = NEW | STARTING | Ready | RUNNING | CANCELLING | TERMINATING | STOPPED | CRASHED

  // `requestId` and `taskId` are those of the START message; a dead child exited cleanly or not.
  datatype Child =
    | Unborn
    | AwaitingStart
    | Serving(requestId: string, taskId: string, expected: int)
    | Dead(clean: bool)

  // The child and the two queues; the parent closes its end by disconnecting.
  datatype Link = Link(connected: bool, child: Child, toChild: seq<Message>, toParent: seq<Message>)

  // `completed` counts the execute calls that returned normally.
  datatype World = World(
    state: ParentState, nextSequence: int, requestId: string, taskId: string, completed: nat, link: Link)

  const CREATED := World(NEW, 1, "", "", 0, Link(false, Unborn, [], []))

  // ---------- the child ----------

  function Reply(l: Link, c: Config, requestId: string, taskId: string, kind: MessageType, sequence: int,
                 payload: Payload, child: Child): Link
  {
    var m := Message(PROTOCOL_VERSION, requestId, taskId, c.workerId, kind, sequence, payload);
    l.(toParent := l.toParent + [m], child := child)
  }

  // Any exception in the child: an ERROR with sequence 0, and the process is gone.
  function ChildFails(l: Link, c: Config, requestId: string, taskId: string): Link {
    Reply(l, c, requestId, taskId, ERROR, 0, "WORKER_FAILED", Dead(false))
  }

  function Serve(l: Link, c: Config, m: Message): Link
    requires l.child.Serving?
  {
    var (r, t, e) := (l.child.requestId, l.child.taskId, l.child.expected);
    if !m.Validates(c.workerId) || m.requestId != r || m.taskId != t || m.sequence != e then ChildFails(l, c, r, t)
    else
      match m.kind
      case EXECUTE =>
        (match c.handler(m)
         case None => ChildFails(l, c, r, t)
         case Some(payload) => Reply(l, c, r, t, RESULT, e, payload, Serving(r, t, e + 1)))
      case CANCEL => Reply(l, c, r, t, ERROR, e, "WORKER_CANCELLED", Dead(true))
      case SHUTDOWN => l.(child := Dead(true))
      case _ => ChildFails(l, c, r, t)
  }

  // One turn of the child's loop; it blocks on an empty queue until the parent closes its end.
  function ChildTurn(l: Link, c: Config): Link {
    if l.toChild == [] then
      if !l.connected && (l.child.AwaitingStart? || l.child.Serving?) then l.(child := Dead(true)) else l
    else
      var (m, rest) := (l.toChild[0], l.(toChild := l.toChild[1..]));
      match l.child
      case AwaitingStart =>
        if !m.Validates(c.workerId) || m.kind != START || m.sequence != 0 then ChildFails(rest, c, m.requestId, m.taskId)
        else
          Reply(rest, c, m.requestId, m.taskId, MessageType.READY, 0, "0.4.7", Serving(m.requestId, m.taskId, 1))
      case Serving(_, _, _) => Serve(rest, c, m)
      case _ => l
  }

  function ChildTurns(l: Link, c: Config, turns: nat): Link {
    if turns == 0 then l else ChildTurn(ChildTurns(l, c, turns - 1), c)
  }

  function Kill(l: Link): Link {
    if l.child.Dead? || l.child.Unborn? then l else l.(child := Dead(false))
  }

  // ---------- the parent ----------

  // What happens between a call and its return: the send may fail; the child takes some turns and
  // may then be killed; the receive may break, as it may once the child is dead.
  datatype Fate = Fate(sendFails: bool, turns: nat, killed: bool, breaks: bool)

  // Creating the process may fail, and so may the enforcement callback on the process created.
  datatype Spawn = SpawnFails | CallbackFails(timesOut: bool) | Spawned

  datatype Failure = BadState | BadMessage | NotConnected | TooLarge | Broken | Timeout | WrongCorrelation | WrongType | WrongSequence

  type Answer = Result<Message, Failure>

  function Send(w: World, c: Config, m: Message, fate: Fate): (World, Option<Failure>) {
    if !w.link.connected then (w, Some(NotConnected))
    else if !c.fits(m) then (w, Some(TooLarge))
    else if fate.sendFails then (w.(state := CRASHED), Some(Broken))
    else (w.(link := w.link.(toChild := w.link.toChild + [m])), None)
  }

  function Meanwhile(l: Link, c: Config, turns: nat, killed: bool): Link {
    var later := ChildTurns(l, c, turns);
    if killed then Kill(later) else later
  }

  function Receive(w: World, c: Config, fate: Fate): (World, Answer) {
    if fate.breaks then (w.(state := CRASHED), Failure(Broken))
    else if w.link.toParent == [] then (w, Failure(Timeout))
    else
      var (m, rest) := (w.link.toParent[0], w.(link := w.link.(toParent := w.link.toParent[1..])));
      if !c.fits(m) then (rest.(state := CRASHED), Failure(TooLarge)) else (rest, Success(m))
  }

  function Check(w: World, c: Config, m: Message, kind: MessageType, sequence: int): (World, Answer) {
    if !m.Validates(c.workerId) then (w, Failure(BadMessage))
    else if m.requestId != w.requestId || m.taskId != w.taskId then (w.(state := CRASHED), Failure(WrongCorrelation))
    else if m.kind != kind then (w.(state := CRASHED), Failure(WrongType))
    else if m.sequence != sequence then (w.(state := CRASHED), Failure(WrongSequence))
    else (w, Success(m))
  }

  // The child's turns, then receive and check; execute passes the sequence of the message it got,
  // so `sequence` is optional.
  function Await(w: World, c: Config, fate: Fate, kind: MessageType, sequence: Option<int>): (World, Answer) {
    var (got, reply) := Receive(w.(link := Meanwhile(w.link, c, fate.turns, fate.killed)), c, fate);
    if reply.Failure? then (got, reply)
    else Check(got, c, reply.value, kind, if sequence.Some? then sequence.value else reply.value.sequence)
  }

  function Build(w: World, c: Config, kind: MessageType, payload: Payload): Message {
    Message(PROTOCOL_VERSION, w.requestId, w.taskId, c.workerId, kind, w.nextSequence, payload)
  }

  function Start(w: World, c: Config, m: Message, spawn: Spawn, fate: Fate): (World, Answer) {
    if w.state != NEW then (w, Failure(BadState))
    else if !m.Validates(c.workerId) || m.kind != START || m.sequence != 0 then (w, Failure(BadMessage))
    else
      var starting := w.(state := STARTING, nextSequence := 1, requestId := m.requestId, taskId := m.taskId,
                         link := w.link.(connected := true));
      var born := starting.(link := starting.link.(child := AwaitingStart));
      match spawn
      case SpawnFails => (starting.(state := CRASHED), Failure(Broken))
      case CallbackFails(timesOut) =>
        if timesOut then (born, Failure(Timeout)) else (born.(state := CRASHED), Failure(Broken))
      case Spawned =>
        var (sent, failure) := Send(born, c, m, fate);
        if failure.Some? then (sent.(state := CRASHED), Failure(failure.value))
        else
          var (done, reply) := Await(sent, c, fate, MessageType.READY, Some(0));
          if reply.Success? then (done.(state := Ready), reply)
          else if reply.error == Timeout then (done, reply)
          else (done.(state := CRASHED), reply)
  }

  function Execute(w: World, c: Config, payload: Payload, fate: Fate): (World, Answer) {
    if w.state != Ready then (w, Failure(BadState))
    else
      var m := Build(w, c, EXECUTE, payload);
      var (sent, failure) := Send(w.(nextSequence := w.nextSequence + 1, state := RUNNING), c, m, fate);
      if failure.Some? then (sent, Failure(failure.value))
      else
        var (done, reply) := Await(sent, c, fate, RESULT, None);
        if reply.Success? then (done.(state := Ready, completed := done.completed + 1), reply) else (done, reply)
  }

  function Cancel(w: World, c: Config, fate: Fate): (World, Answer) {
    if w.state != Ready && w.state != RUNNING then (w, Failure(BadState))
    else
      var m := Build(w, c, CANCEL, "supervisor_cancelled");
      var (sent, failure) := Send(w.(state := CANCELLING, nextSequence := w.nextSequence + 1), c, m, fate);
      if failure.Some? then (sent, Failure(failure.value))
      else
        var (done, reply) := Await(sent, c, fate, ERROR, Some(2));
        if reply.Success? then (done.(state := STOPPED), reply) else (done, reply)
  }

  function Terminate(w: World, c: Config, fate: Fate): World {
    var child := w.link.child;
    if child.Unborn? then w.(state := STOPPED)
    else if child.Dead? then w.(state := if child.clean then STOPPED else CRASHED)
    else
      var asked :=
        if !w.link.connected then w
        else Send(w.(state := TERMINATING, nextSequence := w.nextSequence + 1), c, Build(w, c, SHUTDOWN, ""), fate).0;
      asked.(state := STOPPED, link := Meanwhile(asked.link, c, fate.turns, true))
  }

  function Close(w: World): World {
    w.(link := w.link.(connected := false))
  }

  // ---------- what every call keeps ----------

  // Nothing is on its way, and the child, if it lives, expects the parent's next sequence.
  ghost predicate Quiet(w: World) {
    && w.link.toChild == [] && w.link.toParent == [] && w.nextSequence == w.completed + 1
    && (w.link.child == Serving(w.requestId, w.taskId, w.nextSequence) || w.link.child.Dead?)
  }

  // A reply that is no answer to a CANCEL: a RESULT, or the ERROR of a failed child.
  ghost predicate NotCancelled(m: Message) {
    m.kind == RESULT || m.sequence == 0
  }

  // Whatever is sent next, the first reply to reach the parent is no answer to a CANCEL.
  ghost predicate Stale(l: Link) {
    if l.toParent != [] then NotCancelled(l.toParent[0])
    else
      || l.child.Dead?
      || (l.child.Serving? && l.toChild != [] &&
          (l.toChild[0].kind == EXECUTE || l.toChild[0].sequence != l.child.expected))
  }

  // The EXECUTE was never sent: the child still expects its sequence.
  ghost predicate Unsent(w: World) {
    var l := w.link;
    l.child.Serving? && l.toChild == [] && l.toParent == [] && l.child.expected != w.nextSequence
  }

  // After an execute that did not return normally the parent is one sequence ahead, and a CANCEL
  // sent now would not be answered.
  ghost predicate Abandoned(w: World) {
    w.nextSequence == w.completed + 2 && (Stale(w.link) || Unsent(w))
  }

  ghost predicate Inv(w: World) {
    match w.state
    case NEW => w == CREATED
    case Ready => Quiet(w)
    case RUNNING => Abandoned(w)
    case _ => true
  }

  lemma {:induction false} TurnsSettle(l: Link, c: Config, turns: nat)
    requires var once := ChildTurn(l, c); ChildTurn(once, c) == once
    ensures ChildTurns(l, c, turns) == if turns == 0 then l else ChildTurn(l, c)
  {
    hide ChildTurn;
    if turns > 1 {
      TurnsSettle(l, c, turns - 1);
    }
  }

  lemma TurnKeepsStale(l: Link, c: Config)
    requires Stale(l)
    ensures Stale(ChildTurn(l, c))
  {
  }

  lemma {:induction false} TurnsKeepStale(l: Link, c: Config, turns: nat)
    requires Stale(l)
    ensures Stale(ChildTurns(l, c, turns))
  {
    hide Stale, ChildTurn;
    if turns > 0 {
      TurnsKeepStale(l, c, turns - 1);
      TurnKeepsStale(ChildTurns(l, c, turns - 1), c);
    }
  }

  // ---------- start ----------

  lemma StartTurns(l: Link, c: Config, m: Message, turns: nat)
    requires l == Link(true, AwaitingStart, [m], []) && m.Validates(c.workerId) && m.kind == START && m.sequence == 0
    ensures ChildTurns(l, c, turns) ==
            if turns == 0 then l
            else
              Reply(l.(toChild := []), c, m.requestId, m.taskId, MessageType.READY, 0, "0.4.7",
                    Serving(m.requestId, m.taskId, 1))
  {
    TurnsSettle(l, c, turns);
  }

  lemma StartKeepsInv(w: World, c: Config, m: Message, spawn: Spawn, fate: Fate)
    requires Inv(w)
    ensures Inv(Start(w, c, m, spawn, fate).0)
  {
    if w.state == NEW && m.Validates(c.workerId) && m.kind == START && m.sequence == 0 && spawn.Spawned? {
      assert [] + [m] == [m];
      StartTurns(Link(true, AwaitingStart, [m], []), c, m, fate.turns);
      hide ChildTurns, ChildTurn;
    }
  }

  // Start returns normally exactly when the worker is new, the START is in order and gets through to
  // the child it creates, and the READY gets back; the parent is then READY in step with the child.
  lemma StartExactlyWhen(w: World, c: Config, m: Message, spawn: Spawn, fate: Fate)
    requires Inv(w)
    ensures var answer := Message(PROTOCOL_VERSION, m.requestId, m.taskId, c.workerId, MessageType.READY, 0, "0.4.7");
            var (done, reply) := Start(w, c, m, spawn, fate);
            && (reply.Success? <==>
                  && w.state == NEW && m.Validates(c.workerId) && m.kind == START && m.sequence == 0 && spawn.Spawned?
                  && c.fits(m) && !fate.sendFails && fate.turns > 0 && !fate.breaks && c.fits(answer))
            && (reply.Success? ==>
                  && reply.value == answer
                  && done == World(Ready, 1, m.requestId, m.taskId, 0,
                                   Link(true, if fate.killed then Dead(false) else Serving(m.requestId, m.taskId, 1), [], [])))
            && (reply.Failure? ==> done.state != Ready || done == w)
  {
    if w.state == NEW && m.Validates(c.workerId) && m.kind == START && m.sequence == 0 && spawn.Spawned? {
      assert [] + [m] == [m];
      StartTurns(Link(true, AwaitingStart, [m], []), c, m, fate.turns);
      hide ChildTurns, ChildTurn;
    }
  }

  // ---------- execute ----------

  // The child has answered an EXECUTE, or failed over it.
  lemma ExecuteTurns(l: Link, c: Config, m: Message, turns: nat)
    requires l == Link(true, Serving(m.requestId, m.taskId, m.sequence), [m], [])
    requires m.kind == EXECUTE && m.Validates(c.workerId)
    ensures ChildTurns(l, c, turns) ==
            if turns == 0 then l
            else if c.handler(m).None? then ChildFails(l.(toChild := []), c, m.requestId, m.taskId)
            else
              Reply(l.(toChild := []), c, m.requestId, m.taskId, RESULT, m.sequence, c.handler(m).value,
                    Serving(m.requestId, m.taskId, m.sequence + 1))
  {
    TurnsSettle(l, c, turns);
  }

  lemma DeadTurns(l: Link, c: Config, turns: nat)
    requires l.child.Dead?
    ensures ChildTurns(l, c, turns) == l
  {
    TurnsSettle(l, c, turns);
  }

  lemma AwaitedResult(w: World, sent: World, c: Config, m: Message, fate: Fate)
    requires Quiet(w) && w.link.connected && m == Build(w, c, EXECUTE, m.payload)
    requires sent == w.(nextSequence := w.nextSequence + 1, state := RUNNING, link := w.link.(toChild := [m]))
    ensures var (done, reply) := Await(sent, c, fate, RESULT, None);
            var answer := Message(PROTOCOL_VERSION, w.requestId, w.taskId, c.workerId, RESULT, w.nextSequence,
                                  if c.handler(m).Some? then c.handler(m).value else "");
            && (reply.Success? ==> Quiet(done.(completed := done.completed + 1)) && reply.value == answer)
            && (reply.Failure? && done.state == RUNNING ==> Abandoned(done))
            && (done.state == RUNNING || done.state == CRASHED)
            && (reply.Success? <==>
                  && w.link.child.Serving? && fate.turns > 0 && c.handler(m).Some? && !fate.breaks && c.fits(answer))
  {
    if w.link.child.Dead? {
      DeadTurns(sent.link, c, fate.turns);
    } else {
      ExecuteTurns(sent.link, c, m, fate.turns);
    }
    hide ChildTurns, ChildTurn;
  }

  lemma ExecuteKeepsInv(w: World, c: Config, payload: Payload, fate: Fate)
    requires Inv(w)
    ensures Inv(Execute(w, c, payload, fate).0)
  {
    if w.state == Ready {
      hide Quiet, Abandoned, Await, ChildTurns;
      var m := Build(w, c, EXECUTE, payload);
      var (sent, failure) := Send(w.(nextSequence := w.nextSequence + 1, state := RUNNING), c, m, fate);
      if failure.None? {
        AwaitedResult(w, sent, c, m, fate);
      }
    }
  }

  // An execute from READY returns normally exactly when the message and its reply get through and
  // the handler answers; the reply then carries that EXECUTE's own sequence and what the handler
  // made of that very message, although the source compares the reply's sequence with itself.
  lemma ExecuteExactlyWhen(w: World, c: Config, payload: Payload, fate: Fate)
    requires Inv(w)
    ensures var m := Build(w, c, EXECUTE, payload);
            var answer := Message(PROTOCOL_VERSION, w.requestId, w.taskId, c.workerId, RESULT, w.nextSequence,
                                  if c.handler(m).Some? then c.handler(m).value else "");
            && (Execute(w, c, payload, fate).1.Success? <==>
                  && w.state == Ready && w.link.connected && c.fits(m) && !fate.sendFails && w.link.child.Serving?
                  && fate.turns > 0 && c.handler(m).Some? && !fate.breaks && c.fits(answer))
            && (Execute(w, c, payload, fate).1.Success? ==> Execute(w, c, payload, fate).1.value == answer)
  {
    if w.state == Ready {
      hide Quiet, Abandoned, Await, ChildTurns;
      var m := Build(w, c, EXECUTE, payload);
      var (sent, failure) := Send(w.(nextSequence := w.nextSequence + 1, state := RUNNING), c, m, fate);
      if failure.None? {
        AwaitedResult(w, sent, c, m, fate);
      }
    }
  }

  // What an execute leaves behind: after a normal return the next one can follow at once; after any
  // other the parent is no longer READY, one sequence ahead, and has crashed unless the message was
  // never sent or the reply was late.
  lemma ExecuteLeaves(w: World, c: Config, payload: Payload, fate: Fate)
    requires Inv(w) && w.state == Ready
    ensures var (done, reply) := Execute(w, c, payload, fate);
            && done.requestId == w.requestId && done.taskId == w.taskId && done.nextSequence == w.nextSequence + 1
            && done.link.connected == w.link.connected
            && (reply.Success? ==>
                  && done.state == Ready && done.completed == w.completed + 1
                  && done.link.toChild == [] && done.link.toParent == []
                  && done.link.child ==
                     if fate.killed then Dead(false) else Serving(w.requestId, w.taskId, w.nextSequence + 1))
            && (reply.Failure? ==>
                  && done.completed == w.completed
                  && done.state == if reply.error == Timeout || reply.error == NotConnected || !c.fits(Build(w, c, EXECUTE, payload))
                                   then RUNNING else CRASHED)
  {
    var m := Build(w, c, EXECUTE, payload);
    var sent := w.(nextSequence := w.nextSequence + 1, state := RUNNING, link := w.link.(toChild := [m]));
    assert [] + [m] == [m];
    if w.link.child.Dead? {
      DeadTurns(sent.link, c, fate.turns);
    } else if w.link.connected {
      ExecuteTurns(sent.link, c, m, fate.turns);
    }
    hide ChildTurns, ChildTurn;
  }

  // ---------- cancel ----------

  // Sent over an execute that did not return, a CANCEL is never answered.
  lemma AbandonedIsNotCancelled(w: World, c: Config, fate: Fate)
    requires w.state == RUNNING && Abandoned(w)
    ensures Cancel(w, c, fate).1.Failure?
  {
    var m := Build(w, c, CANCEL, "supervisor_cancelled");
    var (sent, failure) := Send(w.(state := CANCELLING, nextSequence := w.nextSequence + 1), c, m, fate);
    if failure.None? {
      TurnsKeepStale(sent.link, c, fate.turns);
      hide ChildTurns, ChildTurn;
    }
  }

  lemma CancelTurns(l: Link, c: Config, m: Message, turns: nat)
    requires l == Link(true, Serving(m.requestId, m.taskId, m.sequence), [m], [])
    requires m.kind == CANCEL && m.Validates(c.workerId)
    ensures ChildTurns(l, c, turns) ==
            if turns == 0 then l
            else Reply(l.(toChild := []), c, m.requestId, m.taskId, ERROR, m.sequence, "WORKER_CANCELLED", Dead(true))
  {
    TurnsSettle(l, c, turns);
  }

  // Cancel demands a reply with sequence 2, so it returns normally only from READY after exactly
  // one completed execute, and then exactly when message and reply get through.
  lemma CancelExactlyWhen(w: World, c: Config, fate: Fate)
    requires Inv(w)
    ensures var m := Build(w, c, CANCEL, "supervisor_cancelled");
            var answer := Message(PROTOCOL_VERSION, w.requestId, w.taskId, c.workerId, ERROR, 2, "WORKER_CANCELLED");
            Cancel(w, c, fate).1.Success? <==>
              && w.state == Ready && w.completed == 1 && w.link.connected && c.fits(m) && !fate.sendFails
              && w.link.child.Serving? && fate.turns > 0 && !fate.breaks && c.fits(answer)
  {
    if w.state == RUNNING {
      AbandonedIsNotCancelled(w, c, fate);
    } else if w.state == Ready {
      var m := Build(w, c, CANCEL, "supervisor_cancelled");
      var (sent, failure) := Send(w.(state := CANCELLING, nextSequence := w.nextSequence + 1), c, m, fate);
      if failure.None? {
        assert [] + [m] == [m];
        if w.link.child.Dead? {
          DeadTurns(sent.link, c, fate.turns);
        } else {
          CancelTurns(sent.link, c, m, fate.turns);
        }
        hide ChildTurns, ChildTurn;
      }
    }
  }

  // A cancel that returns normally leaves the parent STOPPED and the child gone of its own accord; one
  // that fails leaves a parent that can only be terminated.
  lemma CancelLeaves(w: World, c: Config, fate: Fate)
    requires Inv(w) && (w.state == Ready || w.state == RUNNING)
    ensures var (done, reply) := Cancel(w, c, fate);
            && (reply.Success? ==>
                  && done.state == STOPPED && done.link.child == Dead(true)
                  && done.link.toChild == [] && done.link.toParent == [])
            && (reply.Failure? ==> done.state == CANCELLING || done.state == CRASHED)
  {
    CancelExactlyWhen(w, c, fate);
    if Cancel(w, c, fate).1.Success? {
      var m := Build(w, c, CANCEL, "supervisor_cancelled");
      assert [] + [m] == [m];
      CancelTurns(w.link.(toChild := [m]), c, m, fate.turns);
    }
    hide ChildTurns, ChildTurn;
  }

  // ---------- terminate ----------

  predicate Alive(child: Child) {
    child.AwaitingStart? || child.Serving?
  }

  // Whatever happens meanwhile, terminate leaves no live child, and the parent CRASHED exactly when the
  // child had already died uncleanly.
  lemma TerminateEnds(w: World, c: Config, fate: Fate)
    ensures var done := Terminate(w, c, fate);
            && !Alive(done.link.child)
            && done.state == (if w.link.child == Dead(false) then CRASHED else STOPPED)
            && (!Alive(w.link.child) ==> done == w.(state := done.state))
            && done.requestId == w.requestId && done.taskId == w.taskId && done.completed == w.completed
  {
    hide ChildTurns;
  }

  ghost predicate Ended(w: World) {
    (w.state == STOPPED || w.state == CRASHED) && !Alive(w.link.child)
  }

  lemma CallKeepsEnded(w: World, c: Config, call: Call)
    requires Ended(w)
    ensures Ended(Perform(w, c, call))
  {
    match call {
      case ChildRuns(turns, killed) =>
        TurnsSettle(w.link, c, turns);
        hide ChildTurns;
      case TerminateCall(fate) => TerminateEnds(w, c, fate);
      case _ =>
    }
  }

  lemma {:induction false} RunKeepsEnded(w: World, c: Config, calls: seq<Call>)
    requires Ended(w)
    ensures Ended(PerformAll(w, c, calls))
  {
    hide Perform, Ended;
    if calls != [] {
      RunKeepsEnded(w, c, calls[..|calls| - 1]);
      CallKeepsEnded(PerformAll(w, c, calls[..|calls| - 1]), c, calls[|calls| - 1]);
    }
  }

  // In every run a terminate is for good: after it no child ever lives and no call succeeds.
  lemma TerminatedForGood(c: Config, before: seq<Call>, fate: Fate, after: seq<Call>, m: Message, spawn: Spawn,
                          payload: Payload, later: Fate)
    ensures var w := PerformAll(Terminate(PerformAll(CREATED, c, before), c, fate), c, after);
            && !Alive(w.link.child)
            && Start(w, c, m, spawn, later).1.Failure?
            && Execute(w, c, payload, later).1.Failure?
            && Cancel(w, c, later).1.Failure?
  {
    var w := PerformAll(CREATED, c, before);
    TerminateEnds(w, c, fate);
    RunKeepsEnded(Terminate(w, c, fate), c, after);
    hide PerformAll, Terminate;
  }

  // ---------- runs ----------

  datatype Call =
    | StartCall(m: Message, spawn: Spawn, fate: Fate)
    | ExecuteCall(payload: Payload, fate: Fate)
    | CancelCall(fate: Fate)
    | TerminateCall(fate: Fate)
    | CloseCall
    | ChildRuns(turns: nat, killed: bool)

  function Perform(w: World, c: Config, call: Call): World {
    match call
    case StartCall(m, spawn, fate) => Start(w, c, m, spawn, fate).0
    case ExecuteCall(payload, fate) => Execute(w, c, payload, fate).0
    case CancelCall(fate) => Cancel(w, c, fate).0
    case TerminateCall(fate) => Terminate(w, c, fate)
    case CloseCall => Close(w)
    case ChildRuns(turns, killed) => w.(link := Meanwhile(w.link, c, turns, killed))
  }

  lemma ChildKeepsInv(w: World, c: Config, turns: nat, killed: bool)
    requires Inv(w)
    ensures Inv(w.(link := Meanwhile(w.link, c, turns, killed)))
  {
    if w.state == RUNNING && Stale(w.link) {
      TurnsKeepStale(w.link, c, turns);
    } else if w.state == NEW || w.state == Ready || w.state == RUNNING {
      TurnsSettle(w.link, c, turns);
    }
    hide ChildTurns;
  }

  lemma CancelKeepsInv(w: World, c: Config, fate: Fate)
    requires Inv(w)
    ensures Inv(Cancel(w, c, fate).0)
  {
    hide ChildTurns, Quiet, Abandoned;
  }

  lemma CallKeepsInv(w: World, c: Config, call: Call)
    requires Inv(w)
    ensures Inv(Perform(w, c, call))
  {
    hide ChildTurns, ChildTurn, Start, Execute, Cancel, Await, Send;
    match call {
      case StartCall(m, spawn, fate) => StartKeepsInv(w, c, m, spawn, fate);
      case ExecuteCall(payload, fate) => ExecuteKeepsInv(w, c, payload, fate);
      case CancelCall(fate) => CancelKeepsInv(w, c, fate);
      case TerminateCall(fate) =>
      case CloseCall =>
      case ChildRuns(turns, killed) => ChildKeepsInv(w, c, turns, killed);
    }
  }

  function PerformAll(w: World, c: Config, calls: seq<Call>): World {
    if calls == [] then w else Perform(PerformAll(w, c, calls[..|calls| - 1]), c, calls[|calls| - 1])
  }

  lemma {:induction false} RunKeepsInv(c: Config, calls: seq<Call>)
    ensures Inv(PerformAll(CREATED, c, calls))
  {
    hide Perform;
    if calls != [] {
      RunKeepsInv(c, calls[..|calls| - 1]);
      CallKeepsInv(PerformAll(CREATED, c, calls[..|calls| - 1]), c, calls[|calls| - 1]);
    }
  }

  // In every run, whenever the parent is READY nothing is on its way and a live child expects
  // exactly the parent's next sequence.
  lemma ReadyIsInStep(c: Config, calls: seq<Call>)
    requires PerformAll(CREATED, c, calls).state == Ready
    ensures var w := PerformAll(CREATED, c, calls);
            && w.link.toChild == [] && w.link.toParent == [] && w.nextSequence == w.completed + 1
            && (w.link.child.Dead? || w.link.child == Serving(w.requestId, w.taskId, w.nextSequence))
  {
    RunKeepsInv(c, calls);
    hide PerformAll;
  }

  // In every run a cancel that returns normally follows exactly one completed execute.
  lemma CancelFollowsOneExecute(c: Config, calls: seq<Call>, fate: Fate)
    requires Cancel(PerformAll(CREATED, c, calls), c, fate).1.Success?
    ensures PerformAll(CREATED, c, calls).completed == 1
  {
    RunKeepsInv(c, calls);
    CancelExactlyWhen(PerformAll(CREATED, c, calls), c, fate);
    hide PerformAll, Cancel;
  }

  // ---------- the parent as an object ----------

  class WorkerProcess {
    const c: Config
    var state: ParentState
    var nextSequence: int
    var requestId: string
    var taskId: string
    var link: Link
    ghost var completed: nat

    ghost function Contents(): World
      reads this
    {
      World(state, nextSequence, requestId, taskId, completed, link)
    }

    ghost predicate Valid()
      reads this
    {
      Inv(Contents())
    }

    constructor (c: Config)
      ensures Valid() && this.c == c && Contents() == CREATED
    {
      this.c := c;
      state, nextSequence, requestId, taskId, completed := NEW, 1, "", "", 0;
      link := Link(false, Unborn, [], []);
    }

    // The child's loop while the parent waits or is away, and perhaps its death.
    method RunChild(turns: nat, killed: bool)
      modifies this`link
      ensures link == Meanwhile(old(link), c, turns, killed)
    {
      for turn := 0 to turns
        invariant link == ChildTurns(old(link), c, turn)
      {
        link := ChildTurn(link, c);
      }
      if killed {
        link := Kill(link);
      }
    }

    // A send puts the message behind all others in the child's queue, or leaves both queues alone; it
    // crashes the parent exactly when the pipe breaks.
    method SendMessage(m: Message, fate: Fate) returns (failure: Option<Failure>)
      modifies this`state, this`link
      ensures (Contents(), failure) == Send(old(Contents()), c, m, fate)
      ensures failure.None? <==> old(link.connected) && c.fits(m) && !fate.sendFails
      ensures link == old(link).(toChild := if failure.None? then old(link.toChild) + [m] else old(link.toChild))
      ensures state == if failure == Some(Broken) then CRASHED else old(state)
    {
      if !link.connected {
        return Some(NotConnected);
      }
      if !c.fits(m) {
        return Some(TooLarge);
      }
      if fate.sendFails {
        state := CRASHED;
        return Some(Broken);
      }
      link := link.(toChild := link.toChild + [m]);
      return None;
    }

    // A message received is the oldest one on its way, and exactly that one is consumed; a time-out
    // finds the queue empty and changes nothing, so the parent can go on; all else crashes it.
    method ReceiveMessage(fate: Fate) returns (reply: Answer)
      modifies this`state, this`link
      ensures (Contents(), reply) == Receive(old(Contents()), c, fate)
      ensures reply.Success? ==> old(link.toParent) == [reply.value] + link.toParent && c.fits(reply.value)
      ensures reply == Failure(Timeout) <==> !fate.breaks && old(link.toParent) == []
      ensures reply in {Failure(Timeout), Failure(Broken)} ==> link == old(link)
      ensures link == old(link).(toParent := link.toParent)
      ensures state == if reply.Success? || reply == Failure(Timeout) then old(state) else CRASHED
    {
      if fate.breaks {
        state := CRASHED;
        return Failure(Broken);
      }
      if link.toParent == [] {
        return Failure(Timeout);
      }
      var m := link.toParent[0];
      link := link.(toParent := link.toParent[1..]);
      if !c.fits(m) {
        state := CRASHED;
        return Failure(TooLarge);
      }
      return Success(m);
    }

    // A message is taken exactly when it is well formed and of this worker, this request and task, and
    // of the type and sequence awaited; one that is well formed but not awaited crashes the parent.
    method ValidateResponse(m: Message, kind: MessageType, sequence: int) returns (reply: Answer)
      modifies this`state
      ensures (Contents(), reply) == Check(old(Contents()), c, m, kind, sequence)
      ensures reply.Success? <==>
                m == Message(PROTOCOL_VERSION, requestId, taskId, c.workerId, kind, sequence, m.payload) && sequence >= 0
      ensures reply.Success? ==> reply.value == m
      ensures state == if reply.Success? || !m.Validates(c.workerId) then old(state) else CRASHED
    {
      if !m.Validates(c.workerId) {
        return Failure(BadMessage);
      }
      if m.requestId != requestId || m.taskId != taskId {
        state := CRASHED;
        return Failure(WrongCorrelation);
      }
      if m.kind != kind {
        state := CRASHED;
        return Failure(WrongType);
      }
      if m.sequence != sequence {
        state := CRASHED;
        return Failure(WrongSequence);
      }
      return Success(m);
    }

    method ConsumeSequence() returns (sequence: int)
      modifies this`nextSequence
      ensures sequence == old(nextSequence) && nextSequence == sequence + 1
    {
      sequence := nextSequence;
      nextSequence := nextSequence + 1;
    }

    method StartWorker(m: Message, spawn: Spawn, fate: Fate) returns (reply: Answer)
      requires Valid()
      modifies this
      ensures Valid() && (Contents(), reply) == Start(old(Contents()), c, m, spawn, fate)
    {
      StartKeepsInv(Contents(), c, m, spawn, fate);
      hide Send, Meanwhile, Receive, Check, Inv;
      if state != NEW {
        return Failure(BadState);
      }
      if !m.Validates(c.workerId) || m.kind != START || m.sequence != 0 {
        return Failure(BadMessage);
      }
      link := link.(connected := true);
      requestId, taskId, nextSequence, state := m.requestId, m.taskId, 1, STARTING;
      if spawn.SpawnFails? {
        state := CRASHED;
        return Failure(Broken);
      }
      link := link.(child := AwaitingStart);
      if spawn.CallbackFails? {
        if !spawn.timesOut {
          state := CRASHED;
        }
        return Failure(if spawn.timesOut then Timeout else Broken);
      }
      var failure := SendMessage(m, fate);
      if failure.Some? {
        state := CRASHED;
        return Failure(failure.value);
      }
      RunChild(fate.turns, fate.killed);
      reply := ReceiveMessage(fate);
      if reply.Success? {
        reply := ValidateResponse(reply.value, MessageType.READY, 0);
      }
      if reply.Success? {
        state := Ready;
      } else if reply.error != Timeout {
        state := CRASHED;
      }
    }

    method ExecuteWorker(payload: Payload, fate: Fate) returns (reply: Answer)
      requires Valid()
      modifies this
      ensures Valid() && (Contents(), reply) == Execute(old(Contents()), c, payload, fate)
    {
      ExecuteKeepsInv(Contents(), c, payload, fate);
      hide Send, Meanwhile, Receive, Check, Inv, Message.Validates;
      ghost var start := Contents();
      if state != Ready {
        return Failure(BadState);
      }
      var sequence := ConsumeSequence();
      var m := Message(PROTOCOL_VERSION, requestId, taskId, c.workerId, EXECUTE, sequence, payload);
      state := RUNNING;
      assert m == Build(start, c, EXECUTE, payload);
      assert Contents() == start.(nextSequence := start.nextSequence + 1, state := RUNNING);
      var failure := SendMessage(m, fate);
      if failure.Some? {
        return Failure(failure.value);
      }
      RunChild(fate.turns, fate.killed);
      reply := ReceiveMessage(fate);
      if reply.Success? {
        reply := ValidateResponse(reply.value, RESULT, reply.value.sequence);
      }
      if reply.Success? {
        state := Ready;
        completed := completed + 1;
      }
    }

    method CancelWorker(fate: Fate) returns (reply: Answer)
      requires Valid()
      modifies this
      ensures Valid() && (Contents(), reply) == Cancel(old(Contents()), c, fate)
    {
      CancelKeepsInv(Contents(), c, fate);
      hide Send, Meanwhile, Receive, Check, Inv;
      if state != Ready && state != RUNNING {
        return Failure(BadState);
      }
      state := CANCELLING;
      var sequence := ConsumeSequence();
      var m := Message(PROTOCOL_VERSION, requestId, taskId, c.workerId, CANCEL, sequence, "supervisor_cancelled");
      var failure := SendMessage(m, fate);
      if failure.Some? {
        return Failure(failure.value);
      }
      RunChild(fate.turns, fate.killed);
      reply := ReceiveMessage(fate);
      if reply.Success? {
        reply := ValidateResponse(reply.value, ERROR, 2);
      }
      if reply.Success? {
        state := STOPPED;
      }
    }

    method TerminateWorker(fate: Fate)
      requires Valid()
      modifies this
      ensures Valid() && Contents() == Terminate(old(Contents()), c, fate)
      ensures link.child.Unborn? || link.child.Dead?
      ensures state == if old(link.child) == Dead(false) then CRASHED else STOPPED
    {
      TerminateEnds(Contents(), c, fate);
      hide Send, ChildTurns;
      if link.child.Unborn? {
        state := STOPPED;
        return;
      }
      if link.child.Dead? {
        state := if link.child.clean then STOPPED else CRASHED;
        return;
      }
      state := TERMINATING;
      if link.connected {
        var sequence := ConsumeSequence();
        var m := Message(PROTOCOL_VERSION, requestId, taskId, c.workerId, SHUTDOWN, sequence, "");
        var _ := SendMessage(m, fate);
      }
      RunChild(fate.turns, true);
      state := STOPPED;
    }
  }
}
