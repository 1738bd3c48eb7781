/**
  The methods of runtime/manager.rs over the fields they share.  Each critical section and each
  channel operation is tied to one step of the multiplexer, so what every run of the multiplexer
  keeps holds between any two of them, whatever other threads do in between.

  The fields are the source's: the stored process, the pending map, the shutdown flags and the
  channels of the callers.  The model they are tied to is ghost, and `Valid` is the tie together
  with the multiplexer's own invariant.
 */
module RuntimeManager {
  import opened Multiplexer
  import opened Wrappers

  // What one turn of the reader gets from the child's stdout.
  datatype ReadResult = Line(response: Json) | Unusable(text: string)

  class RuntimeManager {
    var process: Option<nat>
    var launched: nat
    var pending: map<Id, string>
    var channels: map<Id, seq<Message>>
    var shutdown: set<nat>
    ghost var model: State

    ghost predicate Valid()
      reads this
    {
      && Inv(model)
      && process == model.process && launched == model.launched
      && pending == model.pending && shutdown == model.shutdown
      && channels.Keys == model.calls.Keys
      && forall id <- channels :: channels[id] == model.calls[id].channel
    }

    lemma ValidIs()
      requires Valid()
      ensures Inv(model) && channels.Keys == model.calls.Keys
    {
    }

    constructor ()
      ensures Valid() && model == INITIAL
    {
      process, launched, pending, channels, shutdown := None, 0, map[], map[], {};
      model := INITIAL;
      new;
      InitialInv();
    }

    // start, once a child was spawned: the process is stored and its reader begins.
    method Start() returns (r: Result<nat, string>)
      requires Valid()
      modifies this
      ensures Valid()
      ensures r == if old(process).Some? then Failure("already running") else Success(old(launched))
      ensures process == (if r.Success? then Some(r.value) else old(process))
      ensures launched == old(launched) + (if r.Success? then 1 else 0)
      ensures pending == old(pending) && channels == old(channels) && shutdown == old(shutdown)
      ensures r.Success? ==> r.value in model.readers && model.readers[r.value].Checking?
      ensures r.Failure? ==> model == old(model)
      ensures r.Success? ==> model == Apply(old(model), Multiplexer.Start)
    {
      if process.Some? {
        return Failure("already running");
      }
      StepKeepsInv(model, Multiplexer.Start);
      model := Apply(model, Multiplexer.Start);
      process, launched := Some(launched), launched + 1;
      return Success(launched - 1);
    }

    // send_request up to its first critical section.  Request ids are fresh.
    method Register(id: Id, taskId: string)
      requires Valid() && id !in channels
      modifies this
      ensures Valid() && model == Apply(old(model), Issue(id, taskId))
      ensures pending == old(pending)[id := taskId] && channels == old(channels)[id := []]
    {
      StepKeepsInv(model, Issue(id, taskId));
      model := Apply(model, Issue(id, taskId));
      pending := pending[id := taskId];
      channels := channels[id := []];
    }

    method RemovePendingRequest(id: Id)
      requires Valid() && id in channels && model.calls[id].phase.Leaving?
      modifies this
      ensures Valid() && model == Apply(old(model), Leave(id))
      ensures pending == old(pending) - {id} && channels == old(channels)
      ensures id in model.calls && model.calls[id].phase == Returned(old(model).calls[id].phase.reason)
    {
      hide Inv, CallInv, Apply, NextPhase;
      StepKeepsInv(model, Leave(id));
      MoveEffect(model, Leave(id));
      LeaveGives(model.calls[id]);
      model := Apply(model, Leave(id));
      pending := pending - {id};
    }

    // The end of send_request after a failed write.
    method AbandonWrite(id: Id)
      requires Valid() && id in channels && model.calls[id].phase.Writing?
      modifies this
      ensures Runs(old(model), [WriteFails(id), Leave(id)])
      ensures Valid() && model == After(old(model), [WriteFails(id), Leave(id)])
      ensures pending == old(pending) - {id} && channels == old(channels)
      ensures id in model.calls && model.calls[id].phase == Returned(WriteError)
    {
      hide Inv, CallInv, Apply;
      ghost var s := model;
      StepKeepsInv(s, WriteFails(id));
      MoveEffect(s, WriteFails(id));
      model := Apply(s, WriteFails(id));
      RemovePendingRequest(id);
      TwoSteps(s, WriteFails(id), Leave(id));
    }

    // wait_for_response, when recv_timeout returns: with the message that is there, or with none.
    method WaitForResponse(id: Id) returns (r: Outcome)
      requires Valid() && id in channels && model.calls[id].phase.Waiting?
      modifies this
      ensures Valid() && id in model.calls && model.calls[id].phase == Returned(r)
      ensures id !in pending && channels == old(channels)
      ensures r.Answer? <==> old(channels)[id] != [] && old(channels)[id][0].Response?
      ensures r.Answer? ==> Answers(r.response, id, old(model).calls[id].taskId)
      ensures r.ProcessIo? ==> old(channels)[id] == [Error(r.text)]
      ensures r.TimedOut? ==> old(channels)[id] == []
      ensures r.Answer? || r.ProcessIo? || r.TimedOut?
    {
      hide Inv, CallInv, Conserved, Answers, Apply;
      var start := model;
      InvCall(start, id);
      CallChannel(start, id);
      var reached := channels[id];
      if reached != [] {
        StepKeepsInv(model, Receive(id));
        MoveEffect(model, Receive(id));
        model := Apply(model, Receive(id));
        if reached[0].Response? {
          r := Answer(reached[0].response);
          InvCall(model, id);
          ReturnedEntry(model, id);
        } else {
          r := ProcessIo(reached[0].text);
          RemovePendingRequest(id);
        }
      } else {
        StepKeepsInv(model, TimesOut(id));
        MoveEffect(model, TimesOut(id));
        model := Apply(model, TimesOut(id));
        r := TimedOut;
        RemovePendingRequest(id);
      }
    }

    // sender.send for a request already out of the pending map.
    method Send(id: Id, message: Message)
      requires Valid() && id in model.inFlight && model.inFlight[id] == message
      modifies this
      ensures Valid() && id in old(model).calls && model == Apply(old(model), Deliver(id))
      ensures id in old(channels) && channels == old(channels)[id := [message]]
      ensures pending == old(pending) && process == old(process)
      ensures shutdown == old(shutdown) && model == old(model).(calls := model.calls, inFlight := old(model).inFlight - {id})
    {
      hide Inv, CallInv, Conserved, Answers, Apply;
      InvKeys(model);
      InvCall(model, id);
      CallChannel(model, id);
      StepKeepsInv(model, Deliver(id));
      DeliverEffect(model, id);
      assert channels[id] + [message] == [message];
      model := Apply(model, Deliver(id));
      channels := channels[id := channels[id] + [message]];
    }

    // The sends after a drain, in whatever order the map gave the requests up.
    method SendAll(ids: set<Id>, text: string)
      requires Valid() && forall id <- ids :: id in model.inFlight && model.inFlight[id] == Error(text)
      modifies this
      ensures Valid() && pending == old(pending) && process == old(process) && shutdown == old(shutdown)
      ensures channels.Keys == old(channels).Keys
      ensures forall id <- channels :: channels[id] == if id in ids then [Error(text)] else old(channels)[id]
      ensures ids <= channels.Keys
      ensures model.readers == old(model).readers && model.stops == old(model).stops
      ensures model.inFlight == old(model).inFlight - ids
    {
      hide *;
      ValidIs();
      InvKeys(model);
      var left := ids;
      ghost var done: set<Id> := {};
      SentNone(channels, model.inFlight, text);
      while left != {}
        invariant Valid() && pending == old(pending) && process == old(process) && shutdown == old(shutdown)
        invariant ids == left + done && left !! done
        invariant Sent(old(channels), channels, done, text)
        invariant model.readers == old(model).readers && model.stops == old(model).stops
        invariant model.inFlight == old(model).inFlight - done
        decreases left
      {
        var id :| id in left;
        left := left - {id};
        SentOneMore(old(channels), channels, old(model).inFlight, done, id, text);
        Send(id, Error(text));
        done := done + {id};
      }
      SentIs(old(channels), channels, ids, text);
    }

    // fail_all_pending and fail_pending_requests: the map is emptied in one critical section, by
    // the step given, and then every request that was in it is sent the same error.
    method FailPending(ghost step: Step, text: string)
      requires Valid() && Enabled(model, step) && Drains(step, text)
      modifies this
      ensures Valid() && pending == map[] && process == old(process) && shutdown == old(shutdown)
      ensures channels.Keys == old(channels).Keys
      ensures forall id <- channels :: channels[id] == if id in old(pending) then [Error(text)] else old(channels)[id]
      ensures model.readers == Apply(old(model), step).readers && model.inFlight == old(model).inFlight
    {
      hide Inv, CallInv, Conserved, Answers, Apply, Enabled, Drain;
      var ids := pending.Keys;
      DrainOwes(model, text);
      StepKeepsInv(model, step);
      DrainStep(model, step, text);
      model := Apply(model, step);
      pending := map[];
      SendAll(ids, text);
    }

    // stop, up to the kill of the child.  `stop` names this call.
    method Stop(ghost stop: nat)
      requires Valid() && stop !in model.stops
      modifies this
      ensures Valid() && process == None && pending == map[]
      ensures shutdown == if old(process).Some? then old(shutdown) + {old(process).value} else old(shutdown)
      ensures channels.Keys == old(channels).Keys
      ensures forall id <- channels :: channels[id] == if id in old(pending) then [Error(STOPPED)] else old(channels)[id]
    {
      hide Inv, CallInv, Conserved, Answers, Apply;
      var taken := process;
      StepKeepsInv(model, StopTakes(stop));
      StopEffect(model, stop);
      model := Apply(model, StopTakes(stop));
      process := None;
      StepKeepsInv(model, StopFlags(stop));
      model := Apply(model, StopFlags(stop));
      if taken.Some? {
        shutdown := shutdown + {taken.value};
      }
      FailPending(StopDrains(stop), STOPPED);
    }

    // One turn of response_reader_loop, with what the read produced; false when the loop breaks.
    method ReadOnce(reader: nat, read: ReadResult) returns (again: bool)
      requires Valid() && reader in model.readers && model.readers[reader].Checking?
      modifies this
      ensures Valid() && reader in model.readers && process == old(process) && shutdown == old(shutdown)
      ensures again <==> model.readers[reader].Checking?
      ensures !again ==> model.readers[reader].Gone?
      ensures again <==> reader !in old(shutdown) && Name(read).Some?
      ensures channels.Keys == old(channels).Keys
      ensures reader in old(shutdown) ==> pending == old(pending) && channels == old(channels)
      ensures reader !in old(shutdown) ==> ReadEffect(read, old(pending), old(channels), pending, channels)
    {
      hide Inv, CallInv, Conserved, Answers, Drain, Judge, TextAt, Earns;
      StepKeepsInv(model, ReaderChecks(reader));
      model := Apply(model, ReaderChecks(reader));
      if reader in shutdown {
        return false;
      }
      match read {
        case Unusable(text) =>
          FailPending(ReaderFails(reader, text), text);
          return false;
        case Line(response) =>
          var name := TextAt(response, "request_id");
          if name.None? {
            FailPending(ReaderReads(reader, response), NO_REQUEST_ID);
            return false;
          }
          Route(reader, response, name.value);
          return true;
      }
    }

    // The rest of a turn, for a line that names a request.
    method Route(reader: nat, response: Json, id: Id)
      requires Valid() && reader in model.readers && model.readers[reader].Reading?
      requires TextAt(response, "request_id") == Some(id)
      modifies this
      ensures Valid() && reader in model.readers && model.readers[reader].Checking?
      ensures process == old(process) && shutdown == old(shutdown) && pending == old(pending) - {id}
      ensures channels.Keys == old(channels).Keys
      ensures id !in old(pending) ==> channels == old(channels)
      ensures id in old(pending) ==>
                && id in channels && Earns(response, id, old(pending)[id], channels[id])
                && channels == old(channels)[id := channels[id]]
    {
      hide Inv, CallInv, Conserved, Answers, ValidateResponse, Drain, Judge, TextAt, Earns;
      ghost var step := ReaderReads(reader, response);
      StepKeepsInv(model, step);
      if id in pending {
        var message := Judge(response, id, pending[id]);
        JudgesExactly(response, id, pending[id]);
        model := Apply(model, step);
        pending := pending - {id};
        Send(id, message);
      } else {
        model := Apply(model, step);
      }
    }

    // response_reader_loop over the reads it gets, until it breaks or they run out.
    method ResponseReaderLoop(reader: nat, results: seq<ReadResult>) returns (handled: nat)
      requires Valid() && reader in model.readers && model.readers[reader].Checking?
      modifies this
      ensures Valid() && handled <= |results| && reader in model.readers && channels.Keys == old(channels).Keys
      ensures handled < |results| ==> !model.readers[reader].Checking?
      ensures reader in old(shutdown) ==> handled <= 1 && pending == old(pending) && channels == old(channels)
      ensures reader !in old(shutdown) ==>
                AllTold(results[..handled], !model.readers[reader].Checking?, old(pending), old(channels), pending, channels)
    {
      handled := 0;
      var again := true;
      assert AllTold(results[..0], false, pending, channels, pending, channels);
      hide Valid, AllTold, ReadEffect, TextAt, Earns, Judge, Told;
      while handled < |results| && again
        invariant Valid() && handled <= |results| && reader in model.readers && shutdown == old(shutdown)
        invariant again <==> model.readers[reader].Checking?
        invariant channels.Keys == old(channels).Keys
        invariant reader in shutdown ==>
                    pending == old(pending) && channels == old(channels) && handled <= 1 && (again <==> handled == 0)
        invariant reader !in shutdown ==>
                    AllTold(results[..handled], !again, old(pending), old(channels), pending, channels)
        decreases |results| - handled
      {
        ghost var entries, sent := pending, channels;
        again := ReadOnce(reader, results[handled]);
        if reader !in shutdown {
          assert results[..handled + 1] == results[..handled] + [results[handled]];
          AllToldOneMore(results[..handled], results[handled], old(pending), old(channels), entries, sent, pending, channels);
        }
        handled := handled + 1;
      }
    }
  }

  // The channels once some of the requests have been sent the error.
  ghost predicate Sent(before: map<Id, seq<Message>>, now: map<Id, seq<Message>>, done: set<Id>, text: string) {
    now.Keys == before.Keys && forall id <- now :: now[id] == if id in done then [Error(text)] else before[id]
  }

  lemma SentNone(channels: map<Id, seq<Message>>, inFlight: map<Id, Message>, text: string)
    ensures Sent(channels, channels, {}, text) && inFlight - {} == inFlight
  {
  }

  lemma SentOneMore(before: map<Id, seq<Message>>, now: map<Id, seq<Message>>, inFlight: map<Id, Message>, done: set<Id>,
                    id: Id, text: string)
    requires Sent(before, now, done, text)
    ensures id in now ==> Sent(before, now[id := [Error(text)]], done + {id}, text)
    ensures inFlight - done - {id} == inFlight - (done + {id})
  {
  }

  lemma SentIs(before: map<Id, seq<Message>>, now: map<Id, seq<Message>>, done: set<Id>, text: string)
    requires Sent(before, now, done, text)
    ensures now.Keys == before.Keys && forall id <- now :: now[id] == if id in done then [Error(text)] else before[id]
  {
  }

  // The request a read names, if it is of use.
  function Name(read: ReadResult): Option<Id> {
    if read.Line? then TextAt(read.response, "request_id") else None
  }

  // The error of a read that breaks the loop.
  function Complaint(read: ReadResult): string {
    if read.Line? then NO_REQUEST_ID else read.text
  }

  ghost predicate FirstNaming(results: seq<ReadResult>, k: nat, id: Id)
    requires k < |results|
  {
    Name(results[k]) == Some(id) && forall j :: 0 <= j < k ==> Name(results[j]) != Some(id)
  }

  // What the reads leave of one request, from its entry and channel before to those now.  A pending
  // request is sent what the first line that names it earns; if none does, it is sent the error of
  // the read that broke the loop, or is still pending.  Any other is sent nothing.
  ghost predicate Told(results: seq<ReadResult>, broke: bool, id: Id, entry: Option<string>, channel: seq<Message>,
                       entryNow: Option<string>, channelNow: seq<Message>)
    requires broke ==> results != []
  {
    if entry.None? then
      entryNow.None? && channelNow == channel
    else
      && (forall k: nat :: k < |results| && FirstNaming(results, k, id) ==>
            entryNow.None? && Earns(results[k].response, id, entry.value, channelNow))
      && ((forall k: nat :: k < |results| ==> !FirstNaming(results, k, id)) ==>
            if broke then entryNow.None? && channelNow == [Error(Complaint(results[|results| - 1]))]
            else entryNow == entry && channelNow == channel)
  }

  // The reads up to the first that breaks the loop, and what they leave of every request.
  ghost predicate AllTold(results: seq<ReadResult>, broke: bool, pending: map<Id, string>, channels: map<Id, seq<Message>>,
                          pendingNow: map<Id, string>, channelsNow: map<Id, seq<Message>>)
  {
    && channels.Keys == channelsNow.Keys && (broke ==> results != [])
    && (forall k :: 0 <= k < |results| ==> (Name(results[k]).None? <==> broke && k == |results| - 1))
    && forall id <- channels ::
         Told(results, broke, id, Find(pending, id), channels[id], Find(pendingNow, id), channelsNow[id])
  }

  // One turn of the loop whose shutdown flag was not set.
  ghost predicate ReadEffect(read: ReadResult, pending: map<Id, string>, channels: map<Id, seq<Message>>,
                             pendingNow: map<Id, string>, channelsNow: map<Id, seq<Message>>)
  {
    && channels.Keys == channelsNow.Keys
    && match Name(read)
       case None =>
         && pendingNow == map[]
         && forall id <- channels :: channelsNow[id] == if id in pending then [Error(Complaint(read))] else channels[id]
       case Some(id) =>
         && pendingNow == pending - {id}
         && (id !in pending ==> channelsNow == channels)
         && (id in pending ==>
               && id in channels && Earns(read.response, id, pending[id], channelsNow[id])
               && channelsNow == channels[id := channelsNow[id]])
  }

  lemma AllToldOneMore(results: seq<ReadResult>, read: ReadResult, pending: map<Id, string>, channels: map<Id, seq<Message>>,
                       pendingThen: map<Id, string>, channelsThen: map<Id, seq<Message>>,
                       pendingNow: map<Id, string>, channelsNow: map<Id, seq<Message>>)
    requires AllTold(results, false, pending, channels, pendingThen, channelsThen)
    requires ReadEffect(read, pendingThen, channelsThen, pendingNow, channelsNow)
    ensures AllTold(results + [read], Name(read).None?, pending, channels, pendingNow, channelsNow)
  {
    forall id | id in channels
      ensures Told(results + [read], Name(read).None?, id, Find(pending, id), channels[id], Find(pendingNow, id), channelsNow[id])
    {
      hide Told, Earns, Name, Complaint;
      ToldOneMore(results, read, id, Find(pending, id), channels[id], Find(pendingThen, id), channelsThen[id],
                  Find(pendingNow, id), channelsNow[id]);
    }
  }

  lemma ToldOneMore(results: seq<ReadResult>, read: ReadResult, id: Id, entry: Option<string>, channel: seq<Message>,
                    entryThen: Option<string>, channelThen: seq<Message>, entryNow: Option<string>, channelNow: seq<Message>)
    requires Told(results, false, id, entry, channel, entryThen, channelThen)
    requires Name(read).None? ==>
               entryNow.None? && channelNow == if entryThen.Some? then [Error(Complaint(read))] else channelThen
    requires Name(read).Some? ==>
               if Name(read) == Some(id) && entryThen.Some?
               then entryNow.None? && Earns(read.response, id, entryThen.value, channelNow)
               else entryNow == entryThen && channelNow == channelThen
    ensures Told(results + [read], Name(read).None?, id, entry, channel, entryNow, channelNow)
  {
    var all, n := results + [read], |results|;
    hide Name, Earns;
    assert forall k :: 0 <= k < n ==> all[k] == results[k];
    forall k: nat | k < n ensures FirstNaming(all, k, id) <==> FirstNaming(results, k, id) {
      SameFirst(results, read, k, id);
    }
    if k: nat :| k < n && FirstNaming(results, k, id) {
      assert all[k] == results[k];
      assert !FirstNaming(all, n, id);
    } else {
      forall j: nat | j < n ensures Name(results[j]) != Some(id) {
        if Name(results[j]) == Some(id) {
          var first := NamedFirst(results, j, id);
          assert false;
        }
      }
      assert FirstNaming(all, n, id) <==> Name(read) == Some(id);
    }
  }

  lemma SameFirst(results: seq<ReadResult>, read: ReadResult, k: nat, id: Id)
    requires k < |results|
    ensures FirstNaming(results + [read], k, id) <==> FirstNaming(results, k, id)
  {
    assert (results + [read])[..|results|] == results;
    assert forall j :: 0 <= j <= k ==> Name((results + [read])[j]) == Name(results[j]);
  }

  // If any read names the request, some read is the first to.
  lemma {:induction false} NamedFirst(results: seq<ReadResult>, k: nat, id: Id) returns (first: nat)
    requires k < |results| && Name(results[k]) == Some(id)
    ensures first <= k && FirstNaming(results, first, id)
  {
    if j: nat :| j < k && Name(results[j]) == Some(id) {
      first := NamedFirst(results, j, id);
    } else {
      first := k;
    }
  }

  // What the invariant says of one caller's channel.
  lemma CallChannel(s: State, id: Id)
    requires id in s.calls && CallInv(s, id)
    ensures var c := s.calls[id];
            && |c.channel| <= 1
            && (id in s.pending || id in s.inFlight ==> c.channel == [])
            && (c.channel != [] && c.channel[0].Response? ==> Answers(c.channel[0].response, id, c.taskId))
  {
    hide Answers;
  }

  lemma LeaveGives(c: Call)
    requires c.phase.Leaving?
    ensures forall id :: NextPhase(c, Leave(id)) == Returned(c.phase.reason)
  {
  }

  // A stop takes the process, then sets its flag.
  lemma StopEffect(s: State, stop: nat)
    requires stop !in s.stops
    ensures var t := Apply(s, StopTakes(stop));
            && t == s.(process := None, stops := s.stops[stop := Took(s.process)])
            && var u := Apply(t, StopFlags(stop));
               u == t.(shutdown := if s.process.Some? then s.shutdown + {s.process.value} else s.shutdown,
                       stops := s.stops[stop := Flagged])
  {
  }

  // A drain owes every request that was pending the same error, and touches no other message.
  lemma DrainOwes(s: State, text: string)
    requires Inv(s)
    ensures var t := Drain(s, text);
            && t.pending == map[] && t.calls == s.calls && s.pending.Keys <= s.calls.Keys
            && t.process == s.process && t.launched == s.launched && t.shutdown == s.shutdown
            && (forall id <- s.pending :: id in t.inFlight && t.inFlight[id] == Error(text))
            && t.inFlight - s.pending.Keys == s.inFlight
  {
    InvKeys(s);
    forall id | id in s.pending ensures id !in s.inFlight {
      InvCall(s, id);
    }
    hide Answers, Inv, CallInv;
  }

  lemma ReturnedEntry(s: State, id: Id)
    requires id in s.calls && CallInv(s, id) && s.calls[id].phase.Returned?
    ensures id !in s.pending
  {
    hide Answers;
  }
}
