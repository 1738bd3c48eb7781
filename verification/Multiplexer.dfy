/**
  The request multiplexer of runtime/manager.rs: callers, readers, timeouts and stops race on one
  pending map.  A step is one critical section or channel operation, a run any enabled sequence.
 */
module Multiplexer {
  import opened Wrappers

  type Id = string

  // serde_json::Value, as far as a response is inspected.
  datatype Json =
    | Null
    | Bool(flag: bool)
    | Number(number: real)
    | Str(text: string)
    | Arr(items: seq<Json>)
    | Obj(fields: map<string, Json>)

  // ---------- responses ----------

  const PROTOCOL_VERSION := "1.0"
  const REQUIRED_FIELDS := ["protocol_version", "type", "request_id", "task_id", "status", "payload"]
  const STATUSES := {"accepted", "completed", "failed", "cancelled"}

  datatype ValidationError =
    | NotAnObject
    | MissingField(name: string)
    | UnknownFields
    | WrongVersion
    | WrongType
    | WrongRequest
    | WrongTask
    | StatusNotText
    | WrongStatus(status: string)
    | PayloadNotObject

  // value.get(name).and_then(Value::as_str)
  function TextAt(value: Json, name: string): Option<string> {
    if value.Obj? && name in value.fields && value.fields[name].Str? then Some(value.fields[name].text) else None
  }

  function FirstMissing(fields: map<string, Json>, names: seq<string>): (r: Option<string>)
    ensures r == None <==> forall n <- names :: n in fields
    ensures r.Some? ==> r.value in names && r.value !in fields
  {
    if names == [] then None
    else if names[0] !in fields then Some(names[0])
    else FirstMissing(fields, names[1..])
  }

  function ValidateResponse(response: Json, requestId: Id, taskId: string): Result<(), ValidationError> {
    if !response.Obj? then Failure(NotAnObject)
    else
      var missing := FirstMissing(response.fields, REQUIRED_FIELDS);
      if missing.Some? then Failure(MissingField(missing.value))
      else if |response.fields| != |REQUIRED_FIELDS| then Failure(UnknownFields)
      else if TextAt(response, "protocol_version") != Some(PROTOCOL_VERSION) then Failure(WrongVersion)
      else if TextAt(response, "type") != Some("response") then Failure(WrongType)
      else if TextAt(response, "request_id") != Some(requestId) then Failure(WrongRequest)
      else if TextAt(response, "task_id") != Some(taskId) then Failure(WrongTask)
      else if TextAt(response, "status").None? then Failure(StatusNotText)
      else if TextAt(response, "status").value !in STATUSES then Failure(WrongStatus(TextAt(response, "status").value))
      else if !response.fields["payload"].Obj? then Failure(PayloadNotObject)
      else Success(())
  }

  // A response that answers one request: these six fields and no others.
  ghost predicate Answers(response: Json, requestId: Id, taskId: string) {
    && response.Obj?
    && response.fields.Keys == {"protocol_version", "type", "request_id", "task_id", "status", "payload"}
    && response.fields["protocol_version"] == Str(PROTOCOL_VERSION)
    && response.fields["type"] == Str("response")
    && response.fields["request_id"] == Str(requestId)
    && response.fields["task_id"] == Str(taskId)
    && response.fields["status"].Str? && response.fields["status"].text in STATUSES
    && response.fields["payload"].Obj?
  }

  // Validation accepts exactly the responses that answer the request, so no response can be
  // accepted for two requests.
  lemma ValidatesExactly(response: Json, requestId: Id, taskId: string)
    ensures ValidateResponse(response, requestId, taskId).Success? <==> Answers(response, requestId, taskId)
  {
    var names := {"protocol_version", "type", "request_id", "task_id", "status", "payload"};
    if response.Obj? {
      var keys := response.fields.Keys;
      assert |names| == 6;
      if names <= keys {
        SubsetOfSameSize(names, keys);
        assert forall n <- REQUIRED_FIELDS :: n in names;
      } else {
        var n :| n in names && n !in keys;
        assert n in REQUIRED_FIELDS;
      }
    }
  }

  lemma SubsetOfSameSize<T>(a: set<T>, b: set<T>)
    requires a <= b
    ensures |a| == |b| <==> a == b
  {
    assert b == a + (b - a);
  }

  // ---------- the shared state ----------

  datatype Message = Response(response: Json) | Error(text: string)

  datatype Outcome = Answer(response: Json) | WriteError | ProcessIo(text: string) | TimedOut | Disconnected

  // A caller inside send_request, once its request is pending.
  datatype Phase =
    | Writing
    | Waiting
    | Leaving(reason: Outcome)
    | Returned(outcome: Outcome)

  // `channel` holds every message ever sent to this caller.
  datatype Call = Call(taskId: string, phase: Phase, channel: seq<Message>)

  datatype ReaderPhase = Checking | Reading | Gone

  datatype StopPhase = Took(process: Option<nat>) | Flagged | Drained

  // `inFlight` holds the messages for requests already taken out of the pending map but not yet
  // sent; `removed` records every removal from the pending map.
  datatype State = State(
    calls: map<Id, Call>,
    pending: map<Id, string>,
    inFlight: map<Id, Message>,
    removed: multiset<Id>,
    process: Option<nat>,
    launched: nat,
    shutdown: set<nat>,
    readers: map<nat, ReaderPhase>,
    stops: map<nat, StopPhase>)

  const INITIAL := State(map[], map[], map[], multiset{}, None, 0, {}, map[], map[])

  datatype Step =
    | Issue(id: Id, taskId: string)
    | Written(id: Id)
    | WriteFails(id: Id)
    | Receive(id: Id)
    | TimesOut(id: Id)
    | FindsDisconnected(id: Id)
    | Leave(id: Id)
    | Start
    | ClearExited
    | StopTakes(stop: nat)
    | StopFlags(stop: nat)
    | StopDrains(stop: nat)
    | ReaderChecks(reader: nat)
    | ReaderReads(reader: nat, line: Json)
    | ReaderFails(reader: nat, text: string)
    | Deliver(id: Id)

  predicate Enabled(s: State, step: Step) {
    match step
    case Issue(id, _) => id !in s.calls
    case Written(id) => id in s.calls && s.calls[id].phase.Writing? && s.process.Some?
    case WriteFails(id) => id in s.calls && s.calls[id].phase.Writing?
    case Receive(id) => id in s.calls && s.calls[id].phase.Waiting? && s.calls[id].channel != []
    case TimesOut(id) => id in s.calls && s.calls[id].phase.Waiting? && s.calls[id].channel == []
    case FindsDisconnected(id) =>
      && id in s.calls && s.calls[id].phase.Waiting? && s.calls[id].channel == []
      && id !in s.pending && id !in s.inFlight
    case Leave(id) => id in s.calls && s.calls[id].phase.Leaving?
    case Start => s.process.None?
    case ClearExited => s.process.Some?
    case StopTakes(k) => k !in s.stops
    case StopFlags(k) => k in s.stops && s.stops[k].Took?
    case StopDrains(k) => k in s.stops && s.stops[k].Flagged?
    case ReaderChecks(g) => g in s.readers && s.readers[g].Checking?
    case ReaderReads(g, _) => g in s.readers && s.readers[g].Reading?
    case ReaderFails(g, _) => g in s.readers && s.readers[g].Reading?
    case Deliver(id) => id in s.inFlight && id in s.calls
  }

  // The steps by which a caller itself moves on.
  predicate Moves(step: Step) {
    step.Written? || step.WriteFails? || step.Receive? || step.TimesOut? || step.FindsDisconnected? || step.Leave?
  }

  // The steps that take requests out of the pending map on a caller's behalf.
  predicate Removes(step: Step) {
    step.StopDrains? || step.ReaderReads? || step.ReaderFails?
  }

  // Where a caller's own step takes it.
  function NextPhase(c: Call, step: Step): Phase
    requires Moves(step)
    requires step.Receive? ==> c.channel != []
    requires step.Leave? ==> c.phase.Leaving?
  {
    match step
    case Written(_) => Waiting
    case WriteFails(_) => Leaving(WriteError)
    case Receive(_) =>
      (match c.channel[0]
       case Response(r) => Returned(Answer(r))
       case Error(text) => Leaving(ProcessIo(text)))
    case TimesOut(_) => Leaving(TimedOut)
    case FindsDisconnected(_) => Leaving(Disconnected)
    case Leave(_) => Returned(c.phase.reason)
  }

  function SetPhase(s: State, id: Id, phase: Phase): State
    requires id in s.calls
  {
    s.(calls := s.calls[id := s.calls[id].(phase := phase)])
  }

  // One request out of the pending map, if it is still there.
  function Remove(s: State, id: Id): State {
    if id !in s.pending then s
    else s.(pending := s.pending - {id}, removed := s.removed + multiset{id})
  }

  // The whole map out at once, every request owed the same error.
  function Drain(s: State, text: string): State {
    s.(pending := map[],
       removed := s.removed + multiset(s.pending.Keys),
       inFlight := s.inFlight + map id | id in s.pending :: Error(text))
  }

  const STOPPED := "Runtime host was stopped before the response was received."
  const NO_REQUEST_ID := "Runtime response is missing request_id."

  // The steps that empty the map, and the error each sends.
  predicate Drains(step: Step, text: string) {
    match step
    case StopDrains(_) => text == STOPPED
    case ReaderFails(_, t) => text == t
    case ReaderReads(_, line) => TextAt(line, "request_id").None? && text == NO_REQUEST_ID
    case _ => false
  }

  // The message a line earns the request it names.
  function Judge(line: Json, id: Id, taskId: string): Message {
    if ValidateResponse(line, id, taskId).Success? then Response(line) else Error("invalid response")
  }

  function Take(s: State, id: Id, line: Json): State
    requires id in s.pending
  {
    var r := Remove(s, id);
    r.(inFlight := r.inFlight[id := Judge(line, id, s.pending[id])])
  }

  function Apply(s: State, step: Step): State
    requires Enabled(s, step)
  {
    match step
    case Issue(id, task) => s.(calls := s.calls[id := Call(task, Writing, [])], pending := s.pending[id := task])
    case Written(id) => SetPhase(s, id, NextPhase(s.calls[id], step))
    case WriteFails(id) => SetPhase(s, id, NextPhase(s.calls[id], step))
    case Receive(id) => SetPhase(s, id, NextPhase(s.calls[id], step))
    case TimesOut(id) => SetPhase(s, id, NextPhase(s.calls[id], step))
    case FindsDisconnected(id) => SetPhase(s, id, NextPhase(s.calls[id], step))
    case Leave(id) => Remove(SetPhase(s, id, NextPhase(s.calls[id], step)), id)
    case Start =>
      s.(process := Some(s.launched), launched := s.launched + 1, readers := s.readers[s.launched := Checking])
    case ClearExited => s.(process := None)
    case StopTakes(k) => s.(process := None, stops := s.stops[k := Took(s.process)])
    case StopFlags(k) =>
      var flagged := s.(stops := s.stops[k := Flagged]);
      if s.stops[k].process.Some? then flagged.(shutdown := s.shutdown + {s.stops[k].process.value}) else flagged
    case StopDrains(k) => Drain(s, STOPPED).(stops := s.stops[k := Drained])
    case ReaderChecks(g) => s.(readers := s.readers[g := if g in s.shutdown then Gone else Reading])
    case ReaderReads(g, line) =>
      var name := TextAt(line, "request_id");
      if name.None? then Drain(s, NO_REQUEST_ID).(readers := s.readers[g := Gone])
      else
        var checking := s.(readers := s.readers[g := Checking]);
        if name.value in s.pending then Take(checking, name.value, line) else checking
    case ReaderFails(g, text) => Drain(s, text).(readers := s.readers[g := Gone])
    case Deliver(id) =>
      var c := s.calls[id];
      s.(inFlight := s.inFlight - {id}, calls := s.calls[id := c.(channel := c.channel + [s.inFlight[id]])])
  }

  // ---------- the invariant ----------

  function Find<V>(m: map<Id, V>, id: Id): Option<V> {
    if id in m then Some(m[id]) else None
  }

  ghost predicate Truthful(m: Message, id: Id, taskId: string) {
    m.Response? ==> Answers(m.response, id, taskId)
  }

  // What holds of one caller, its entry in the pending map and the message owed to it.
  ghost predicate CallOk(id: Id, c: Call, entry: Option<string>, owed: Option<Message>) {
    && (entry.Some? ==> entry.value == c.taskId && owed.None?)
    && |c.channel| <= 1
    && (entry.Some? || owed.Some? ==> c.channel == [])
    && (c.channel != [] ==> Truthful(c.channel[0], id, c.taskId))
    && (owed.Some? ==> Truthful(owed.value, id, c.taskId))
    && (c.phase.Writing? || c.phase.Waiting? ==> entry.Some? || owed.Some? || c.channel != [])
    && (c.phase.Returned? ==> entry.None?)
    && (c.phase.Leaving? ==> !c.phase.reason.Disconnected? && !c.phase.reason.Answer?)
    && (c.phase.Returned? ==> !c.phase.outcome.Disconnected?)
    && (c.phase.Returned? && c.phase.outcome.Answer? ==> c.channel == [Response(c.phase.outcome.response)])
  }

  ghost predicate CallInv(s: State, id: Id)
    requires id in s.calls
  {
    CallOk(id, s.calls[id], Find(s.pending, id), Find(s.inFlight, id))
  }

  // Every issued request is pending or was removed, and was removed at most once.
  ghost predicate Conserved(s: State) {
    && s.pending.Keys <= s.calls.Keys && s.inFlight.Keys <= s.calls.Keys
    && multiset(s.calls.Keys) == multiset(s.pending.Keys) + s.removed
  }

  ghost predicate Inv(s: State) {
    && Conserved(s)
    && forall id <- s.calls :: CallInv(s, id)
  }

  lemma InitialInv()
    ensures Inv(INITIAL)
  {
  }

  lemma RemoveConserves(s: State, id: Id)
    requires Conserved(s)
    ensures Conserved(Remove(s, id))
  {
    if id in s.pending {
      assert s.pending.Keys == (s.pending - {id}).Keys + {id};
    }
  }

  lemma DrainConserves(s: State, text: string)
    requires Conserved(s)
    ensures Conserved(Drain(s, text))
  {
  }

  lemma OneMore(ids: set<Id>, id: Id)
    requires id !in ids
    ensures multiset(ids + {id}) == multiset(ids) + multiset{id}
  {
  }

  lemma StepKeepsConserved(s: State, step: Step)
    requires Inv(s) && Enabled(s, step)
    ensures Conserved(Apply(s, step))
  {
    hide *;
    if step.Issue? {
      IssueConserves(s, step);
    } else if Moves(step) || step.Deliver? {
      PhaseConserves(s, step);
    } else if Removes(step) {
      ReaderConserves(s, step);
    } else {
      QuietStep(s, step);
      InvIsConserved(s);
      SameConserved(s, Apply(s, step));
    }
  }

  lemma InvIsConserved(s: State)
    requires Inv(s)
    ensures Conserved(s)
  {
  }

  lemma SameConserved(s: State, t: State)
    requires Conserved(s) && t.calls == s.calls && t.pending == s.pending && t.removed == s.removed
    requires t.inFlight == s.inFlight
    ensures Conserved(t)
  {
  }

  lemma QuietStep(s: State, step: Step)
    requires Enabled(s, step) && !step.Issue? && !Moves(step) && !step.Deliver? && !Removes(step)
    ensures var t := Apply(s, step);
            t.calls == s.calls && t.pending == s.pending && t.removed == s.removed && t.inFlight == s.inFlight
  {
  }

  lemma IssueConserves(s: State, step: Step)
    requires Inv(s) && step.Issue? && Enabled(s, step)
    ensures Conserved(Apply(s, step))
  {
    var t := Apply(s, step);
    assert t.calls.Keys == s.calls.Keys + {step.id} && t.pending.Keys == s.pending.Keys + {step.id};
    OneMore(s.calls.Keys, step.id);
    OneMore(s.pending.Keys, step.id);
  }

  lemma PhaseConserves(s: State, step: Step)
    requires Inv(s) && (Moves(step) || step.Deliver?) && Enabled(s, step)
    ensures Conserved(Apply(s, step))
  {
    hide CallInv;
    if step.Leave? {
      var phase := NextPhase(s.calls[step.id], step);
      RemoveConserves(SetPhase(s, step.id, phase), step.id);
    } else {
      assert Apply(s, step).calls.Keys == s.calls.Keys;
    }
  }

  lemma ReaderConserves(s: State, step: Step)
    requires Inv(s) && Removes(step) && Enabled(s, step)
    ensures Conserved(Apply(s, step))
  {
    hide *;
    InvIsConserved(s);
    RemovalIs(step);
    if step.ReaderReads? && TextAt(step.line, "request_id").Some? {
      ReadConserves(s, step);
    } else {
      var text := if step.StopDrains? then STOPPED else if step.ReaderFails? then step.text else NO_REQUEST_ID;
      DrainStep(s, step, text);
      DrainConserves(s, text);
      SameConserved(Drain(s, text), Apply(s, step));
    }
  }

  lemma ReadConserves(s: State, step: Step)
    requires Inv(s) && step.ReaderReads? && Enabled(s, step) && TextAt(step.line, "request_id").Some?
    ensures Conserved(Apply(s, step))
  {
    hide CallInv, TextAt, Judge;
    var checking := s.(readers := s.readers[step.reader := Checking]);
    RemoveConserves(checking, TextAt(step.line, "request_id").value);
  }

  // What a line earns the request it names: itself when it answers the request, otherwise an error.
  ghost predicate Earns(line: Json, id: Id, taskId: string, sent: seq<Message>) {
    |sent| == 1 && if Answers(line, id, taskId) then sent[0] == Response(line) else sent[0].Error?
  }

  lemma JudgesExactly(line: Json, id: Id, taskId: string)
    ensures Earns(line, id, taskId, [Judge(line, id, taskId)])
  {
    ValidatesExactly(line, id, taskId);
  }

  lemma JudgeIsTruthful(line: Json, id: Id, taskId: string)
    ensures Truthful(Judge(line, id, taskId), id, taskId)
  {
    ValidatesExactly(line, id, taskId);
  }

  // The callers' part of a step, for one caller.
  lemma StepKeepsCall(s: State, step: Step, id: Id)
    requires Inv(s) && Enabled(s, step) && id in Apply(s, step).calls
    ensures CallInv(Apply(s, step), id)
  {
    hide *;
    if step.Issue? {
      IssueKeepsCall(s, step, id);
    } else if step.Deliver? {
      DeliverKeepsCall(s, step, id);
    } else if Moves(step) {
      PhaseKeepsCall(s, step, id);
    } else if Removes(step) {
      RemovalKeepsCall(s, step, id);
    } else {
      QuietStep(s, step);
      QuietKeepsCall(s, Apply(s, step), id);
    }
  }

  lemma QuietKeepsCall(s: State, t: State, id: Id)
    requires Inv(s) && id in t.calls && t.calls == s.calls && t.pending == s.pending && t.inFlight == s.inFlight
    ensures CallInv(t, id)
  {
    assert CallInv(s, id);
  }

  lemma RemovalKeepsCall(s: State, step: Step, id: Id)
    requires Inv(s) && Removes(step) && Enabled(s, step) && id in Apply(s, step).calls
    ensures CallInv(Apply(s, step), id)
  {
    hide *;
    if step.ReaderReads? {
      ReadKeepsCall(s, step, id);
    } else {
      RemovalIs(step);
      var text := if step.StopDrains? then STOPPED else step.text;
      DrainStep(s, step, text);
      DrainCalls(s, text);
      InvCall(s, id);
      DrainKeepsCall(s, text, id);
      SameParts(Drain(s, text), Apply(s, step), id);
    }
  }

  lemma RemovalIs(step: Step)
    requires Removes(step)
    ensures step.StopDrains? || step.ReaderReads? || step.ReaderFails?
  {
  }

  lemma InvCall(s: State, id: Id)
    requires Inv(s) && id in s.calls
    ensures CallInv(s, id)
  {
  }

  lemma DrainStep(s: State, step: Step, text: string)
    requires Enabled(s, step)
    requires Drains(step, text)
    ensures var t := Apply(s, step);
            t == Drain(s, text).(readers := t.readers, stops := t.stops)
  {
  }

  lemma SameParts(s: State, t: State, id: Id)
    requires id in s.calls && CallInv(s, id) && t.calls == s.calls && t.pending == s.pending && t.inFlight == s.inFlight
    ensures CallInv(t, id)
  {
  }

  lemma ReadKeepsCall(s: State, step: Step, id: Id)
    requires Inv(s) && step.ReaderReads? && Enabled(s, step) && id in Apply(s, step).calls
    ensures CallInv(Apply(s, step), id)
  {
    InvKeys(s);
    hide Conserved, CallOk, Find, ValidateResponse, Answers, Judge, Truthful;
    assert id in s.calls && CallInv(s, id);
    var name := TextAt(step.line, "request_id");
    if name.None? {
      DrainKeepsCall(s, NO_REQUEST_ID, id);
    } else if name.value in s.pending {
      assert CallInv(s, name.value);
      TakeKeepsCall(s.(readers := s.readers[step.reader := Checking]), name.value, step.line, id);
    }
  }

  lemma MoveEffect(s: State, step: Step)
    requires Moves(step) && Enabled(s, step)
    ensures var t, id := Apply(s, step), step.id;
            && t.inFlight == s.inFlight
            && t.calls == s.calls[id := s.calls[id].(phase := NextPhase(s.calls[id], step))]
            && t.pending == (if step.Leave? then s.pending - {id} else s.pending)
            && t == s.(calls := t.calls, pending := t.pending, removed := t.removed)
  {
    hide NextPhase;
  }

  lemma DeliverEffect(s: State, id: Id)
    requires Enabled(s, Deliver(id))
    ensures var c := s.calls[id];
            Apply(s, Deliver(id)) ==
            s.(inFlight := s.inFlight - {id}, calls := s.calls[id := c.(channel := c.channel + [s.inFlight[id]])])
  {
  }

  lemma PhaseKeepsCall(s: State, step: Step, id: Id)
    requires Inv(s) && Moves(step) && Enabled(s, step) && id in Apply(s, step).calls
    ensures CallInv(Apply(s, step), id)
  {
    MoveEffect(s, step);
    assert id in s.calls && CallInv(s, id);
    hide Apply, Conserved, Answers, Inv;
    if id == step.id {
      MoveKeepsCall(id, s.calls[id], step, Find(s.pending, id), Find(s.inFlight, id));
    }
  }

  lemma MoveKeepsCall(id: Id, c: Call, step: Step, entry: Option<string>, owed: Option<Message>)
    requires Moves(step) && CallOk(id, c, entry, owed)
    requires match step
             case Receive(_) => c.phase.Waiting? && c.channel != []
             case TimesOut(_) => c.phase.Waiting?
             case FindsDisconnected(_) => c.phase.Waiting? && c.channel == [] && entry.None? && owed.None?
             case Leave(_) => c.phase.Leaving?
             case _ => c.phase.Writing?
    ensures CallOk(id, c.(phase := NextPhase(c, step)), if step.Leave? then None else entry, owed)
  {
    hide Answers;
  }

  lemma InvKeys(s: State)
    requires Inv(s)
    ensures s.pending.Keys <= s.calls.Keys && s.inFlight.Keys <= s.calls.Keys
  {
  }

  lemma IssueKeepsCall(s: State, step: Step, id: Id)
    requires Inv(s) && step.Issue? && Enabled(s, step) && id in Apply(s, step).calls
    ensures CallInv(Apply(s, step), id)
  {
    InvKeys(s);
    hide Conserved, Answers;
    if id != step.id {
      assert CallInv(s, id);
    }
  }

  lemma DeliverKeepsCall(s: State, step: Step, id: Id)
    requires Inv(s) && step.Deliver? && Enabled(s, step) && id in Apply(s, step).calls
    ensures CallInv(Apply(s, step), id)
  {
    InvKeys(s);
    hide Conserved, Answers;
    assert CallInv(s, id) && CallInv(s, step.id);
  }

  lemma DrainKeepsCall(s: State, text: string, id: Id)
    requires id in s.calls && CallInv(s, id)
    ensures CallInv(Drain(s, text), id)
  {
    hide Answers;
  }

  lemma TakeKeepsCall(s: State, taken: Id, line: Json, id: Id)
    requires taken in s.pending && taken in s.calls && CallInv(s, taken)
    requires id in s.calls && CallInv(s, id)
    ensures CallInv(Take(s, taken, line), id)
  {
    JudgeIsTruthful(line, taken, s.pending[taken]);
    hide Judge, Truthful;
  }

  lemma StepKeepsInv(s: State, step: Step)
    requires Inv(s) && Enabled(s, step)
    ensures Inv(Apply(s, step))
  {
    StepKeepsConserved(s, step);
    forall id | id in Apply(s, step).calls ensures CallInv(Apply(s, step), id) {
      StepKeepsCall(s, step, id);
    }
    hide Conserved, CallInv, Apply;
  }

  // ---------- runs ----------

  predicate Runs(s: State, steps: seq<Step>)
    decreases |steps|
  {
    steps == [] || (Enabled(s, steps[0]) && Runs(Apply(s, steps[0]), steps[1..]))
  }

  function After(s: State, steps: seq<Step>): State
    requires Runs(s, steps)
    decreases |steps|
  {
    if steps == [] then s else After(Apply(s, steps[0]), steps[1..])
  }

  lemma {:induction false} RunKeepsInv(s: State, steps: seq<Step>)
    requires Inv(s) && Runs(s, steps)
    ensures Inv(After(s, steps))
    decreases |steps|
  {
    if steps != [] {
      StepKeepsInv(s, steps[0]);
      RunKeepsInv(Apply(s, steps[0]), steps[1..]);
    }
  }

  // Over every interleaving: a request leaves the pending map at most once, its channel gets at
  // most one message, an answer it returns is a response to that very request, no caller finds its
  // channel disconnected, and every issued request is still pending or was removed exactly once.
  lemma EveryRunIsSafe(steps: seq<Step>)
    requires Runs(INITIAL, steps)
    ensures var s := After(INITIAL, steps);
            && multiset(s.calls.Keys) == multiset(s.pending.Keys) + s.removed
            && (forall id :: s.removed[id] <= 1)
            && (forall id <- s.calls :: |s.calls[id].channel| <= 1)
            && (forall id <- s.calls :: s.calls[id].phase.Returned? ==> id !in s.pending)
            && (forall id <- s.calls :: s.calls[id].phase.Returned? && s.calls[id].phase.outcome.Answer? ==>
                  Answers(s.calls[id].phase.outcome.response, id, s.calls[id].taskId))
            && (forall id :: !Enabled(s, FindsDisconnected(id)))
  {
    InitialInv();
    RunKeepsInv(INITIAL, steps);
    var s := After(INITIAL, steps);
    forall id ensures s.removed[id] <= 1 {
      assert s.removed[id] <= multiset(s.calls.Keys)[id];
    }
    forall id | id in s.calls ensures CallInv(s, id) {
    }
    hide Answers;
  }

  // A caller that is still waiting is always owed its message: it is pending, or its message is
  // on the way, or already there.
  lemma WaitingIsOwed(steps: seq<Step>, id: Id)
    requires Runs(INITIAL, steps) && id in After(INITIAL, steps).calls
    requires After(INITIAL, steps).calls[id].phase.Waiting?
    ensures var s := After(INITIAL, steps);
            id in s.pending || id in s.inFlight || |s.calls[id].channel| == 1
  {
    InitialInv();
    RunKeepsInv(INITIAL, steps);
    InvCall(After(INITIAL, steps), id);
    hide Answers;
  }

  // ---------- what a step cannot change ----------

  // Once out of the pending map a request never comes back, and what a caller returned never
  // changes: late, repeated and unknown responses are without effect on it.
  lemma StepKeepsReturned(s: State, step: Step, id: Id)
    requires Inv(s) && Enabled(s, step) && id in s.calls
    ensures id in Apply(s, step).calls && Apply(s, step).calls[id].taskId == s.calls[id].taskId
    ensures id !in s.pending ==> id !in Apply(s, step).pending
    ensures s.calls[id].phase.Returned? ==> Apply(s, step).calls[id].phase == s.calls[id].phase
  {
    if Moves(step) {
      MoveEffect(s, step);
    } else if Removes(step) {
      RemovalEffect(s, step);
    } else if !step.Issue? && !step.Deliver? {
      QuietStep(s, step);
    }
    hide Inv, NextPhase, Remove, Drain, Take;
  }

  lemma RemovalEffect(s: State, step: Step)
    requires Enabled(s, step) && Removes(step)
    ensures Apply(s, step).calls == s.calls && Apply(s, step).pending.Keys <= s.pending.Keys
  {
    hide *;
    RemovalIs(step);
    if step.ReaderReads? && TextAt(step.line, "request_id").Some? {
      ReadStep(s, step);
    } else {
      var text := if step.StopDrains? then STOPPED else if step.ReaderFails? then step.text else NO_REQUEST_ID;
      DrainStep(s, step, text);
      DrainCalls(s, text);
    }
  }

  lemma DrainCalls(s: State, text: string)
    ensures Drain(s, text).calls == s.calls && Drain(s, text).pending == map[]
  {
  }

  lemma ReadStep(s: State, step: Step)
    requires step.ReaderReads? && Enabled(s, step) && TextAt(step.line, "request_id").Some?
    ensures Apply(s, step).calls == s.calls && Apply(s, step).pending.Keys <= s.pending.Keys
  {
    hide Judge, TextAt;
  }

  lemma {:induction false} RunKeepsReturned(s: State, steps: seq<Step>, id: Id)
    requires Inv(s) && Runs(s, steps) && id in s.calls && s.calls[id].phase.Returned?
    ensures var t := After(s, steps);
            id in t.calls && t.calls[id].phase == s.calls[id].phase && id !in t.pending
    decreases |steps|
  {
    InvCall(s, id);
    if steps != [] {
      StepKeepsReturned(s, steps[0], id);
      StepKeepsInv(s, steps[0]);
      RunKeepsReturned(Apply(s, steps[0]), steps[1..], id);
    }
  }

  // A line naming a request that is not pending, late or unknown, changes no caller, no entry and
  // no message.
  lemma UnknownResponseChangesNothing(s: State, reader: nat, line: Json)
    requires Enabled(s, ReaderReads(reader, line))
    requires TextAt(line, "request_id").Some? && TextAt(line, "request_id").value !in s.pending
    ensures Apply(s, ReaderReads(reader, line)) == s.(readers := s.readers[reader := Checking])
  {
  }

  // ---------- two runs the design permits ----------

  lemma {:induction false} Extend(s: State, steps: seq<Step>, step: Step)
    requires Runs(s, steps) && Enabled(After(s, steps), step)
    ensures Runs(s, steps + [step]) && After(s, steps + [step]) == Apply(After(s, steps), step)
    decreases |steps|
  {
    hide Apply, Enabled;
    if steps == [] {
      assert [step][1..] == [];
      assert steps + [step] == [step];
    } else {
      Extend(Apply(s, steps[0]), steps[1..], step);
      assert (steps + [step])[1..] == steps[1..] + [step];
    }
  }

  // The pending map outlives a process: the reader of a stopped process can still fail a request
  // issued to its successor.
  lemma OldReaderFailsNewRequest(id: Id, taskId: string, text: string) returns (steps: seq<Step>)
    ensures Runs(INITIAL, steps)
    ensures var s := After(INITIAL, steps);
            && s.process == Some(1) && 0 in s.shutdown && 1 !in s.shutdown
            && id in s.calls && s.calls[id] == Call(taskId, Returned(ProcessIo(text)), [Error(text)])
  {
    hide Runs, After;
    steps := FailedByOldReader(id, taskId, text);
    Extend(INITIAL, steps, Deliver(id));
    steps := steps + [Deliver(id)];
    Extend(INITIAL, steps, Receive(id));
    steps := steps + [Receive(id)];
    Extend(INITIAL, steps, Leave(id));
    steps := steps + [Leave(id)];
  }

  lemma FailedByOldReader(id: Id, taskId: string, text: string) returns (steps: seq<Step>)
    ensures Runs(INITIAL, steps)
    ensures After(INITIAL, steps) ==
            State(map[id := Call(taskId, Waiting, [])], map[], map[id := Error(text)], multiset{id}, Some(1), 2, {0},
                  map[0 := Gone, 1 := Checking], map[0 := Drained])
  {
    hide Runs, After;
    steps := Restarted();
    var s := After(INITIAL, steps);
    Extend(INITIAL, steps, Issue(id, taskId));
    steps := steps + [Issue(id, taskId)];
    Extend(INITIAL, steps, Written(id));
    steps := steps + [Written(id)];
    assert After(INITIAL, steps) == s.(calls := map[id := Call(taskId, Waiting, [])], pending := map[id := taskId]);
    Extend(INITIAL, steps, ReaderFails(0, text));
    steps := steps + [ReaderFails(0, text)];
  }

  // Started, stopped and started again while the first reader is still blocked in its read.
  lemma Restarted() returns (steps: seq<Step>)
    ensures Runs(INITIAL, steps)
    ensures After(INITIAL, steps) ==
            State(map[], map[], map[], multiset{}, Some(1), 2, {0}, map[0 := Reading, 1 := Checking], map[0 := Drained])
  {
    Nothing(INITIAL);
    hide Runs, After;
    steps := [];
    Extend(INITIAL, steps, Start);
    steps := steps + [Start];
    Extend(INITIAL, steps, ReaderChecks(0));
    steps := steps + [ReaderChecks(0)];
    var reading := INITIAL.(process := Some(0), launched := 1, readers := map[0 := Reading]);
    assert After(INITIAL, steps) == reading;
    Extend(INITIAL, steps, StopTakes(0));
    steps := steps + [StopTakes(0)];
    Extend(INITIAL, steps, StopFlags(0));
    steps := steps + [StopFlags(0)];
    assert After(INITIAL, steps) == reading.(process := None, shutdown := {0}, stops := map[0 := Flagged]);
    Extend(INITIAL, steps, StopDrains(0));
    steps := steps + [StopDrains(0)];
    Extend(INITIAL, steps, Start);
    steps := steps + [Start];
  }

  lemma Nothing(s: State)
    ensures Runs(s, []) && After(s, []) == s
  {
  }

  // So can a stop that took the previous process and has not drained yet.
  lemma EarlierStopFailsNewRequest(id: Id, taskId: string) returns (steps: seq<Step>)
    ensures Runs(INITIAL, steps)
    ensures var s := After(INITIAL, steps);
            && s.process == Some(1) && s.stops == map[0 := Drained] && 1 !in s.shutdown
            && id !in s.pending && s.inFlight == map[id := Error(STOPPED)]
  {
    Nothing(INITIAL);
    hide Runs, After;
    steps := [];
    Extend(INITIAL, steps, Start);
    steps := steps + [Start];
    Extend(INITIAL, steps, StopTakes(0));
    steps := steps + [StopTakes(0)];
    Extend(INITIAL, steps, Start);
    steps := steps + [Start];
    var restarted := INITIAL.(process := Some(1), launched := 2, readers := map[0 := Checking, 1 := Checking],
                              stops := map[0 := Took(Some(0))]);
    assert After(INITIAL, steps) == restarted;
    Extend(INITIAL, steps, Issue(id, taskId));
    steps := steps + [Issue(id, taskId)];
    Extend(INITIAL, steps, StopFlags(0));
    steps := steps + [StopFlags(0)];
    assert After(INITIAL, steps) == restarted.(calls := map[id := Call(taskId, Writing, [])], pending := map[id := taskId],
                                               stops := map[0 := Flagged], shutdown := {0});
    Extend(INITIAL, steps, StopDrains(0));
    steps := steps + [StopDrains(0)];
  }

  // A line read for a pending request whose caller waits is returned to that caller if and only if it
  // answers the request; otherwise the caller is on its way out with an error.
  lemma AnswerReachesCaller(s: State, g: nat, id: Id, line: Json)
    requires Inv(s) && id in s.pending && id in s.calls && s.calls[id].phase.Waiting?
    requires g in s.readers && s.readers[g].Reading? && TextAt(line, "request_id") == Some(id)
    ensures var steps := [ReaderReads(g, line), Deliver(id), Receive(id)];
            && Runs(s, steps) && id in After(s, steps).calls && id !in After(s, steps).pending
            && var phase := After(s, steps).calls[id].phase;
               && (phase == Returned(Answer(line)) <==> Answers(line, id, s.calls[id].taskId))
               && (phase != Returned(Answer(line)) ==> phase.Leaving? && phase.reason.ProcessIo?)
  {
    InvCall(s, id);
    var c, message := s.calls[id], Judge(line, id, s.calls[id].taskId);
    var read, deliver, receive := ReaderReads(g, line), Deliver(id), Receive(id);
    JudgesExactly(line, id, c.taskId);
    ReadTakes(s, g, id, line);
    assert c.channel + [message] == [message];
    hide Inv, CallInv, Answers, Judge, TextAt, ValidateResponse, Drain, Take;
    var t := Apply(s, read);
    var u := Apply(t, deliver);
    ReceiveEnds(u, id, message);
    hide Apply, Enabled;
    TwoSteps(t, deliver, receive);
    var steps := [read, deliver, receive];
    assert steps[1..] == [deliver, receive];
  }

  lemma ReadTakes(s: State, g: nat, id: Id, line: Json)
    requires id in s.pending && Enabled(s, ReaderReads(g, line)) && TextAt(line, "request_id") == Some(id)
    ensures var t := Apply(s, ReaderReads(g, line));
            t.calls == s.calls && id !in t.pending && id in t.inFlight && t.inFlight[id] == Judge(line, id, s.pending[id])
  {
    hide Judge, TextAt;
  }

  lemma ReceiveEnds(s: State, id: Id, message: Message)
    requires id in s.calls && s.calls[id].phase.Waiting? && s.calls[id].channel == [message]
    ensures Enabled(s, Receive(id))
    ensures var t := Apply(s, Receive(id));
            && t.pending == s.pending && id in t.calls
            && t.calls[id].phase == if message.Response? then Returned(Answer(message.response)) else Leaving(ProcessIo(message.text))
  {
  }

  // ---------- exactly when a request can be taken out by others ----------

  // A reader that is in its read, or will enter it.
  predicate Active(s: State, g: nat) {
    g in s.readers && (s.readers[g].Reading? || (s.readers[g].Checking? && g !in s.shutdown))
  }

  predicate Open(s: State, k: nat) {
    k in s.stops && !s.stops[k].Drained?
  }

  // An active reader of another process, or a stop under way.
  ghost predicate Threatened(s: State, p: nat) {
    (exists g :: g != p && Active(s, g)) || (exists k :: Open(s, k))
  }

  // The steps that leave process p and the request to themselves: no start or stop begins, the
  // reader of p does nothing, and the caller does not leave.
  predicate Foreign(step: Step, p: nat, id: Id) {
    match step
    case Start => false
    case StopTakes(_) => false
    case Leave(other) => other != id
    case ReaderChecks(g) => g != p
    case ReaderReads(g, _) => g != p
    case ReaderFails(g, _) => g != p
    case _ => true
  }

  predicate AllForeign(steps: seq<Step>, p: nat, id: Id) {
    forall k :: 0 <= k < |steps| ==> Foreign(steps[k], p, id)
  }

  // The steps by which a reader or a stop empties the map.
  predicate Draining(step: Step) {
    step.StopFlags? || step.StopDrains? || step.ReaderChecks? || step.ReaderFails?
  }

  lemma ForeignStepKeeps(s: State, step: Step, p: nat, id: Id)
    requires Enabled(s, step) && Foreign(step, p, id) && !Threatened(s, p) && id in s.pending
    ensures !Threatened(Apply(s, step), p) && id in Apply(s, step).pending
  {
    var t := Apply(s, step);
    assert !step.StopFlags? && !step.StopDrains? by {
      if step.StopFlags? || step.StopDrains? {
        assert Open(s, step.stop);
      }
    }
    assert !step.ReaderReads? && !step.ReaderFails? by {
      if step.ReaderReads? || step.ReaderFails? {
        assert Active(s, step.reader);
      }
    }
    forall g | g != p ensures !Active(t, g) {
      assert !Active(s, g);
    }
    forall k ensures !Open(t, k) {
      assert !Open(s, k);
    }
  }

  lemma {:induction false} ForeignRunKeeps(s: State, steps: seq<Step>, p: nat, id: Id)
    requires Runs(s, steps) && AllForeign(steps, p, id) && !Threatened(s, p) && id in s.pending
    ensures id in After(s, steps).pending
    decreases |steps|
  {
    hide Apply, Enabled, Foreign, Threatened;
    if steps != [] {
      assert Foreign(steps[0], p, id);
      ForeignStepKeeps(s, steps[0], p, id);
      ForeignRunKeeps(Apply(s, steps[0]), steps[1..], p, id);
    }
  }

  // What a drain leaves behind.
  ghost predicate DrainedFrom(s: State, t: State) {
    t.calls == s.calls && t.pending == map[] && forall id <- s.pending :: id in t.inFlight
  }

  lemma ReaderDrains(s: State, g: nat) returns (steps: seq<Step>)
    requires Active(s, g)
    ensures Runs(s, steps) && DrainedFrom(s, After(s, steps))
    ensures forall k :: 0 <= k < |steps| ==> Draining(steps[k]) && (forall p, id :: g != p ==> Foreign(steps[k], p, id))
  {
    var fails := ReaderFails(g, "");
    if s.readers[g].Reading? {
      steps := [fails];
      OneStep(s, fails);
    } else {
      steps := [ReaderChecks(g), fails];
      TwoSteps(s, ReaderChecks(g), fails);
    }
  }

  lemma StopEmpties(s: State, k: nat) returns (steps: seq<Step>)
    requires Open(s, k)
    ensures Runs(s, steps) && DrainedFrom(s, After(s, steps))
    ensures forall i :: 0 <= i < |steps| ==> Draining(steps[i]) && forall p, id :: Foreign(steps[i], p, id)
  {
    if s.stops[k].Flagged? {
      steps := [StopDrains(k)];
      OneStep(s, StopDrains(k));
    } else {
      steps := [StopFlags(k), StopDrains(k)];
      TwoSteps(s, StopFlags(k), StopDrains(k));
    }
  }

  lemma OneStep(s: State, step: Step)
    requires Enabled(s, step)
    ensures Runs(s, [step]) && After(s, [step]) == Apply(s, step)
  {
    hide Enabled, Apply;
    assert [step][1..] == [];
  }

  lemma TwoSteps(s: State, first: Step, second: Step)
    requires Enabled(s, first) && Enabled(Apply(s, first), second)
    ensures Runs(s, [first, second]) && After(s, [first, second]) == Apply(Apply(s, first), second)
  {
    hide Enabled, Apply;
    assert [first, second][1..] == [second];
    OneStep(Apply(s, first), second);
  }

  // A pending request can be taken out without a step of its own caller, of its process's reader or
  // of a new start or stop, if and only if a reader of another process is active or a stop is open.
  lemma TakenByOthersExactlyWhen(s: State, p: nat, id: Id)
    requires id in s.pending
    ensures (exists steps :: Runs(s, steps) && AllForeign(steps, p, id) && id !in After(s, steps).pending)
       <==> Threatened(s, p)
  {
    hide Apply, Enabled, Foreign, Runs, After, Active, Open;
    forall steps | Runs(s, steps) && AllForeign(steps, p, id) && !Threatened(s, p) ensures id in After(s, steps).pending {
      ForeignRunKeeps(s, steps, p, id);
    }
    if Threatened(s, p) {
      var steps: seq<Step>;
      if g :| g != p && Active(s, g) {
        steps := ReaderDrains(s, g);
      } else {
        var k :| Open(s, k);
        steps := StopEmpties(s, k);
      }
      assert AllForeign(steps, p, id) && id !in After(s, steps).pending;
    }
  }

  // ---------- exactly when a waiting request can only time out ----------

  // No reader is active, no stop is open, no message is on the way, and a caller waits for one.
  ghost predicate Stranded(s: State, id: Id) {
    && (forall g :: !Active(s, g))
    && (forall k :: !Open(s, k))
    && id in s.calls && s.calls[id].channel == [] && id !in s.inFlight
    && (s.calls[id].phase.Waiting? || s.calls[id].phase == Leaving(TimedOut) || s.calls[id].phase == Returned(TimedOut))
    && (s.calls[id].phase.Waiting? ==> id in s.pending)
  }

  lemma StepKeepsStranded(s: State, step: Step, id: Id)
    requires Stranded(s, id) && Enabled(s, step) && !step.Start? && !step.StopTakes?
    ensures Stranded(Apply(s, step), id)
  {
    var t := Apply(s, step);
    assert !step.StopFlags? && !step.StopDrains? by {
      if step.StopFlags? || step.StopDrains? {
        assert Open(s, step.stop);
      }
    }
    assert !step.ReaderReads? && !step.ReaderFails? by {
      if step.ReaderReads? || step.ReaderFails? {
        assert Active(s, step.reader);
      }
    }
    if Moves(step) {
      MoveEffect(s, step);
    }
    forall g ensures !Active(t, g) {
      assert !Active(s, g);
    }
    forall k ensures !Open(t, k) {
      assert !Open(s, k);
    }
  }

  predicate NoneBegins(steps: seq<Step>) {
    forall k :: 0 <= k < |steps| ==> !steps[k].Start? && !steps[k].StopTakes?
  }

  // A reader leaves its loop for good on a line it cannot use, but the process stays: until the
  // next start or stop, a request that waits can only time out.
  lemma {:induction false} StrandedRequestsOnlyTimeOut(s: State, steps: seq<Step>, id: Id)
    requires Stranded(s, id) && Runs(s, steps) && NoneBegins(steps)
    ensures Stranded(After(s, steps), id)
    decreases |steps|
  {
    hide Apply, Enabled, Stranded;
    if steps != [] {
      assert !steps[0].Start? && !steps[0].StopTakes?;
      StepKeepsStranded(s, steps[0], id);
      StrandedRequestsOnlyTimeOut(Apply(s, steps[0]), steps[1..], id);
    }
  }

  ghost predicate Served(s: State, steps: seq<Step>, id: Id) {
    Runs(s, steps) && NoneBegins(steps) && id in After(s, steps).calls && After(s, steps).calls[id].channel != []
  }

  // A waiting caller without a message can still get one before the next start or stop if and only
  // if it is not stranded.
  lemma StrandedExactlyWhen(s: State, id: Id)
    requires Inv(s) && id in s.calls && s.calls[id].phase.Waiting? && s.calls[id].channel == []
    ensures (exists steps :: Served(s, steps, id)) <==> !Stranded(s, id)
  {
    InvCall(s, id);
    assert id in s.pending || id in s.inFlight;
    hide Inv, CallInv, Runs, After, Active, Open;
    if Stranded(s, id) {
      forall steps ensures !Served(s, steps, id) {
        if Served(s, steps, id) {
          StrandedRequestsOnlyTimeOut(s, steps, id);
        }
      }
    } else if id in s.inFlight {
      Nothing(s);
      Delivered(s, [], id);
    } else if g :| Active(s, g) {
      var steps := ReaderDrains(s, g);
      Delivered(s, steps, id);
    } else {
      var k :| Open(s, k);
      var steps := StopEmpties(s, k);
      Delivered(s, steps, id);
    }
  }

  // Once a run has put a message on its way, one more step delivers it.
  lemma Delivered(s: State, steps: seq<Step>, id: Id)
    requires Runs(s, steps) && NoneBegins(steps) && After(s, steps).calls == s.calls
    requires id in s.calls && id in After(s, steps).inFlight
    ensures Served(s, steps + [Deliver(id)], id)
  {
    hide Runs, After;
    Extend(s, steps, Deliver(id));
  }

  lemma ReaderFailureStrands(id: Id, taskId: string, text: string) returns (steps: seq<Step>)
    ensures Runs(INITIAL, steps)
    ensures var s := After(INITIAL, steps);
            Stranded(s, id) && s.calls[id].phase.Waiting? && s.process == Some(0)
  {
    Nothing(INITIAL);
    hide Runs, After;
    steps := [];
    Extend(INITIAL, steps, Start);
    steps := steps + [Start];
    Extend(INITIAL, steps, ReaderChecks(0));
    steps := steps + [ReaderChecks(0)];
    Extend(INITIAL, steps, ReaderFails(0, text));
    steps := steps + [ReaderFails(0, text)];
    assert After(INITIAL, steps) == INITIAL.(process := Some(0), launched := 1, readers := map[0 := Gone]);
    Extend(INITIAL, steps, Issue(id, taskId));
    steps := steps + [Issue(id, taskId)];
    Extend(INITIAL, steps, Written(id));
    steps := steps + [Written(id)];
  }
}
