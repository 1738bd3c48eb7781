/**
  The lifecycle of execution_supervisor.py and the executions supervised_execution.py drives
  through it.  Workers and the adapter are foreign: their calls succeed or raise as a parameter
  says.  A ledger tells which enforcement handles were issued, released or lost.
 */
module Supervisor {
  import opened Wrappers

  type Id = nat
  type Handle = nat

  datatype State =
    NEW | AUTHORIZED | STARTING | READY | RUNNING | CANCELLING | TIMING_OUT | CRASHED | COMPLETED | TERMINATING | CLEANUP | TERMINAL

  function Allowed(s: State): set<State> {
    match s
    case NEW => {AUTHORIZED, TERMINAL}
    case AUTHORIZED => {STARTING, TERMINAL}
    case STARTING => {READY, TIMING_OUT, CRASHED, TERMINATING, CLEANUP}
    case READY => {RUNNING, CANCELLING, TERMINATING, CRASHED}
    case RUNNING => {CANCELLING, TIMING_OUT, CRASHED, COMPLETED, TERMINATING}
    case CANCELLING => {TERMINATING, CLEANUP}
    case TIMING_OUT => {TERMINATING, CLEANUP}
    case CRASHED => {CLEANUP, TERMINATING}
    case COMPLETED => {CLEANUP}
    case TERMINATING => {CLEANUP}
    case CLEANUP => {TERMINAL}
    case TERMINAL => {}
  }

  // ---------- every run of transitions ends ----------

  function Rank(s: State): nat {
    match s
    case NEW => 8
    case AUTHORIZED => 7
    case STARTING => 6
    case READY => 5
    case RUNNING => 4
    case CANCELLING | TIMING_OUT | CRASHED => 3
    case COMPLETED | TERMINATING => 2
    case CLEANUP => 1
    case TERMINAL => 0
  }

  ghost predicate Path(states: seq<State>) {
    states != [] && forall k :: 0 < k < |states| ==> states[k] in Allowed(states[k - 1])
  }

  // Ranks fall along every path, so none visits a state twice or is longer than nine states.
  lemma {:induction false} PathsAreShort(states: seq<State>)
    requires Path(states)
    ensures Rank(states[|states| - 1]) + |states| - 1 <= Rank(states[0]) && |states| <= 9
  {
    if |states| > 1 {
      var n := |states| - 1;
      PathsAreShort(states[..n]);
      assert states[n] in Allowed(states[n - 1]);
    }
  }

  // No state but TERMINAL is a dead end: from everywhere TERMINAL can still be reached.
  lemma TerminalIsReachable(s: State) returns (path: seq<State>)
    ensures Path(path) && path[0] == s && path[|path| - 1] == TERMINAL
  {
    path := match s
            case NEW => [s, TERMINAL]
            case AUTHORIZED => [s, TERMINAL]
            case READY => [s, TERMINATING, CLEANUP, TERMINAL]
            case RUNNING => [s, TERMINATING, CLEANUP, TERMINAL]
            case CLEANUP => [s, TERMINAL]
            case TERMINAL => [s]
            case _ => [s, CLEANUP, TERMINAL];
  }

  // ---------- executions ----------

  datatype Raised = InvariantError | TimeoutError | WorkerError | ValueError | Other

  datatype Execution = Execution(state: State, cleanupComplete: bool, prepared: Option<Handle>) {
    function Transition(next: State): Result<Execution, Raised> {
      if next in Allowed(state) then Success(this.(state := next)) else Failure(InvariantError)
    }

    function MarkCleanupComplete(): Result<Execution, Raised> {
      if state != CLEANUP then Failure(InvariantError) else Success(this.(state := TERMINAL, cleanupComplete := true))
    }
  }

  // The state a cleanup leaves behind, or the error when its state may not go to CLEANUP.
  function Closed(e: Execution): Result<Execution, Raised> {
    if e.state == CLEANUP || CLEANUP in Allowed(e.state)
    then Success(Execution(TERMINAL, true, None))
    else Failure(InvariantError)
  }

  function HeldHandle(prepared: Option<Handle>): multiset<Handle> {
    if prepared.Some? then multiset{prepared.value} else multiset{}
  }

  function Held(e: Execution): multiset<Handle> {
    HeldHandle(e.prepared)
  }

  function HeldSet(e: Execution): set<Handle> {
    if e.prepared.Some? then {e.prepared.value} else {}
  }

  ghost predicate HeldBySome(m: map<Id, Execution>, h: Handle) {
    exists id <- m :: m[id].prepared == Some(h)
  }

  ghost predicate Distinct(m: map<Id, Execution>) {
    forall i <- m, j <- m :: i != j && m[i].prepared.Some? ==> m[i].prepared != m[j].prepared
  }

  // What one record's change does to the handles that are held.
  lemma UpdateHeld(m: map<Id, Execution>, id: Id, e: Execution)
    requires Distinct(m)
    ensures forall h: Handle :: HeldBySome(m[id := e], h) <==>
              e.prepared == Some(h) || (HeldBySome(m, h) && !(id in m && m[id].prepared == Some(h)))
  {
    var n := m[id := e];
    forall h: Handle ensures HeldBySome(n, h) <==>
        e.prepared == Some(h) || (HeldBySome(m, h) && !(id in m && m[id].prepared == Some(h)))
    {
      if HeldBySome(m, h) {
        var k :| k in m && m[k].prepared == Some(h);
        assert k != id ==> n[k] == m[k];
      }
      if HeldBySome(n, h) {
        var k :| k in n && n[k].prepared == Some(h);
        assert k != id ==> m[k] == n[k];
      }
      assert n[id] == e;
    }
  }

  // The supervisor's records, and what became of every handle the adapter ever gave out.
  datatype Ledger = Ledger(
    executions: map<Id, Execution>, workers: set<Id>, issued: set<Handle>, released: multiset<Handle>, leaked: set<Handle>)

  ghost predicate HandlesSound(l: Ledger) {
    && (forall h: Handle :: l.released[h] <= 1)
    && (forall h: Handle :: l.released[h] == 1 || h in l.leaked || HeldBySome(l.executions, h) <==> h in l.issued)
    && (forall h: Handle :: HeldBySome(l.executions, h) ==> l.released[h] == 0 && h !in l.leaked)
    && (forall h: Handle :: h in l.leaked ==> l.released[h] == 0)
  }

  ghost predicate RecordsSound(l: Ledger) {
    && l.workers <= l.executions.Keys
    && Distinct(l.executions)
    && forall id <- l.executions :: l.executions[id].cleanupComplete ==>
         l.executions[id].state == TERMINAL && l.executions[id].prepared == None && id !in l.workers
  }

  ghost predicate Sound(l: Ledger) {
    HandlesSound(l) && RecordsSound(l)
  }

  // A record changes, or begins, without its handle changing.
  lemma ChangeKeepsSound(l: Ledger, id: Id, e: Execution)
    requires Sound(l) && e.prepared == (if id in l.executions then l.executions[id].prepared else None)
    requires e.cleanupComplete ==> e.state == TERMINAL && e.prepared == None && id !in l.workers
    ensures Sound(l.(executions := l.executions[id := e]))
  {
    UpdateHeld(l.executions, id, e);
    var m := l.executions[id := e];
    assert Distinct(m);
    if id in l.executions && e.prepared.Some? {
      assert HeldBySome(l.executions, e.prepared.value);
    }
    hide HeldBySome, Distinct;
  }

  lemma ReleaseKeepsSound(l: Ledger, id: Id)
    requires Sound(l) && id in l.executions && l.executions[id].prepared.Some?
    ensures Sound(l.(executions := l.executions[id := l.executions[id].(prepared := None)],
                     released := l.released + multiset{l.executions[id].prepared.value}))
  {
    var h := l.executions[id].prepared.value;
    assert HeldBySome(l.executions, h);
    UpdateHeld(l.executions, id, l.executions[id].(prepared := None));
    assert Distinct(l.executions[id := l.executions[id].(prepared := None)]);
    hide HeldBySome, Distinct;
  }

  lemma PrepareKeepsSound(l: Ledger, id: Id, h: Handle)
    requires Sound(l) && id in l.executions && h !in l.issued && !l.executions[id].cleanupComplete
    ensures Sound(l.(executions := l.executions[id := l.executions[id].(prepared := Some(h))],
                     issued := l.issued + {h}, leaked := l.leaked + HeldSet(l.executions[id])))
  {
    var e := l.executions[id].(prepared := Some(h));
    UpdateHeld(l.executions, id, e);
    if l.executions[id].prepared.Some? {
      assert HeldBySome(l.executions, l.executions[id].prepared.value);
    }
    assert !HeldBySome(l.executions, h);
    FreshIsDistinct(l.executions, id, h);
    hide HeldBySome, Distinct;
  }

  // A handle overwritten while held was not lost before.
  lemma LosesOneMore(l: Ledger, id: Id)
    requires Sound(l) && id in l.executions
    ensures |l.leaked + HeldSet(l.executions[id])| == |l.leaked| + if l.executions[id].prepared.Some? then 1 else 0
  {
    if l.executions[id].prepared.Some? {
      assert HeldBySome(l.executions, l.executions[id].prepared.value);
    }
    hide HeldBySome;
  }

  lemma FreshIsDistinct(m: map<Id, Execution>, id: Id, h: Handle)
    requires Distinct(m) && id in m && !HeldBySome(m, h)
    ensures Distinct(m[id := m[id].(prepared := Some(h))])
  {
  }

  lemma WorkersKeepSound(l: Ledger, workers: set<Id>)
    requires Sound(l) && workers <= l.executions.Keys
    requires forall id <- workers :: id in l.workers || !l.executions[id].cleanupComplete
    ensures Sound(l.(workers := workers))
  {
    hide HeldBySome, Distinct;
  }

  lemma Again<V>(m: map<Id, V>, id: Id, a: V, b: V)
    ensures m[id := a][id := b] == m[id := b]
  {
  }

  lemma PutThenRemove<V>(m: map<Id, V>, id: Id, a: V)
    ensures m[id := a] - {id} == m - {id}
  {
  }

  class ExecutionSupervisor {
    const hasAdapter: bool
    var executions: map<Id, Execution>
    var workers: map<Id, nat>
    // Handles the adapter ever gave out, and its release calls.
    ghost var issued: set<Handle>
    ghost var released: multiset<Handle>
    // Handles overwritten by a second preparation before anything released them.
    ghost var leaked: set<Handle>
    // The preparations that found a handle still held.
    ghost var repeated: nat

    ghost predicate Valid()
      reads this
    {
      Sound(Ledger(executions, workers.Keys, issued, released, leaked)) && |leaked| == repeated
    }

    constructor (hasAdapter: bool)
      ensures Valid() && executions == map[] && workers == map[] && this.hasAdapter == hasAdapter
      ensures issued == {} && released == multiset{} && leaked == {} && repeated == 0
    {
      this.hasAdapter := hasAdapter;
      executions, workers := map[], map[];
      issued, released, leaked, repeated := {}, multiset{}, {}, 0;
    }

    // authorize; execution ids are fresh.
    method Authorize(id: Id, granted: bool, adapterMatches: bool) returns (r: Result<(), Raised>)
      requires Valid() && id !in executions
      modifies this
      ensures Valid() && issued == old(issued) && released == old(released) && leaked == old(leaked) && repeated == old(repeated)
      ensures workers == old(workers)
      ensures r == if granted && adapterMatches then Success(()) else Failure(InvariantError)
      ensures executions == if r.Success? then old(executions)[id := Execution(AUTHORIZED, false, None)] else old(executions)
    {
      if !granted || !adapterMatches {
        return Failure(InvariantError);
      }
      ChangeKeepsSound(Ledger(executions, workers.Keys, issued, released, leaked), id, Execution(AUTHORIZED, false, None));
      executions := executions[id := Execution(AUTHORIZED, false, None)];
      return Success(());
    }

    method Transition(id: Id, next: State) returns (r: Result<(), Raised>)
      requires Valid()
      modifies this`executions
      ensures Valid()
      ensures id !in old(executions) ==> r == Failure(InvariantError)
      ensures id in old(executions) ==> (r.Success? <==> next in Allowed(old(executions)[id].state))
      ensures r.Success? ==> executions == old(executions)[id := old(executions)[id].(state := next)]
      ensures r.Failure? ==> executions == old(executions) && r.error == InvariantError
    {
      if id !in executions {
        return Failure(InvariantError);
      }
      var updated := executions[id].Transition(next);
      if updated.Failure? {
        return Failure(updated.error);
      }
      ChangeKeepsSound(Ledger(executions, workers.Keys, issued, released, leaked), id, updated.value);
      executions := executions[id := updated.value];
      return Success(());
    }

    // prepare_enforcement; the adapter gives a handle it never gave before, or raises.
    method PrepareEnforcement(id: Id, adapter: Option<Handle>) returns (r: Result<Handle, Raised>)
      requires Valid() && (adapter.Some? ==> adapter.value !in issued)
      modifies this
      ensures Valid() && workers == old(workers) && released == old(released)
      ensures r.Success? <==>
                id in old(executions) && old(executions)[id].state == AUTHORIZED && hasAdapter && adapter.Some?
      ensures r.Success? ==>
                && r.value == adapter.value && issued == old(issued) + {r.value}
                && executions == old(executions)[id := old(executions)[id].(prepared := Some(r.value))]
      ensures leaked == if r.Success? then old(leaked) + HeldSet(old(executions)[id]) else old(leaked)
      ensures repeated == old(repeated) + if r.Success? && old(executions)[id].prepared.Some? then 1 else 0
      ensures r.Failure? ==>
                && executions == old(executions) && issued == old(issued)
                && (r.error == Other <==> id in old(executions) && old(executions)[id].state == AUTHORIZED && hasAdapter)
                && r.error in {Other, InvariantError}
    {
      if id !in executions || executions[id].state != AUTHORIZED || !hasAdapter {
        return Failure(InvariantError);
      }
      if adapter.None? {
        return Failure(Other);
      }
      NotComplete(id);
      PrepareKeepsSound(Ledger(executions, workers.Keys, issued, released, leaked), id, adapter.value);
      LosesOneMore(Ledger(executions, workers.Keys, issued, released, leaked), id);
      repeated := repeated + if executions[id].prepared.Some? then 1 else 0;
      leaked := leaked + HeldSet(executions[id]);
      executions := executions[id := executions[id].(prepared := Some(adapter.value))];
      issued := issued + {adapter.value};
      return Success(adapter.value);
    }

    // _release_enforcement: the record lets go of its handle before the adapter is called.
    method ReleaseEnforcement(id: Id, raises: bool) returns (r: Result<(), Raised>)
      requires Valid() && id in executions
      modifies this
      ensures Valid() && workers == old(workers) && issued == old(issued) && leaked == old(leaked) && repeated == old(repeated)
      ensures executions == old(executions)[id := old(executions)[id].(prepared := None)]
      ensures released == old(released) + Held(old(executions)[id])
      ensures r == if raises && old(executions)[id].prepared.Some? && hasAdapter then Failure(Other) else Success(())
    {
      hide Sound;
      var prepared := executions[id].prepared;
      if prepared.None? {
        assert executions[id := executions[id].(prepared := None)] == executions;
        return Success(());
      }
      ReleaseKeepsSound(Ledger(executions, workers.Keys, issued, released, leaked), id);
      executions := executions[id := executions[id].(prepared := None)];
      released := released + multiset{prepared.value};
      if raises && hasAdapter {
        return Failure(Other);
      }
      return Success(());
    }

    method Register(id: Id, worker: nat)
      requires Valid() && id in executions && !executions[id].cleanupComplete
      modifies this`workers
      ensures Valid() && workers == old(workers)[id := worker]
    {
      WorkersKeepSound(Ledger(executions, workers.Keys, issued, released, leaked), workers.Keys + {id});
      workers := workers[id := worker];
      assert workers.Keys == old(workers).Keys + {id};
    }

    method Unregister(id: Id)
      requires Valid()
      modifies this`workers
      ensures Valid() && workers == old(workers) - {id}
    {
      WorkersKeepSound(Ledger(executions, workers.Keys, issued, released, leaked), workers.Keys - {id});
      workers := workers - {id};
      assert workers.Keys == old(workers).Keys - {id};
    }

    // start_worker: the worker's start replies, or raises `fault`; a failed start ends the worker,
    // releases the handle and completes the cleanup, unless the release itself raises.
    method StartWorker(id: Id, worker: nat, adapter: Option<Handle>, fault: Option<Raised>,
                       terminateRaises: bool, closeRaises: bool, releaseRaises: bool) returns (r: Result<(), Raised>)
      requires Valid() && (adapter.Some? ==> adapter.value !in issued)
      modifies this
      ensures Valid() && leaked == old(leaked) && repeated == old(repeated)
      ensures !(id in old(executions) && old(executions)[id].state == AUTHORIZED) ==>
                && r == Failure(InvariantError)
                && executions == old(executions) && workers == old(workers) && released == old(released)
      // Without a handle when the adapter is asked for one and raises.
      ensures id in old(executions) && old(executions)[id].state == AUTHORIZED
              && hasAdapter && old(executions)[id].prepared.None? && adapter.None? ==>
                && r == Failure(Other) && issued == old(issued)
                && executions == old(executions) && workers == old(workers) && released == old(released)
      // Otherwise with the handle prepared before, the one prepared now, or none without an adapter.
      ensures id in old(executions) && old(executions)[id].state == AUTHORIZED
              && (hasAdapter ==> old(executions)[id].prepared.Some? || adapter.Some?) ==>
                var prepares := hasAdapter && old(executions)[id].prepared.None?;
                var held := if prepares then adapter else old(executions)[id].prepared;
                var stuck := releaseRaises && held.Some? && hasAdapter;
                && issued == (if prepares then old(issued) + {adapter.value} else old(issued))
                && (fault.None? ==>
                      && r == Success(()) && released == old(released)
                      && executions == old(executions)[id := Execution(READY, false, held)]
                      && workers == old(workers)[id := worker])
                && (fault.Some? && !stuck ==>
                      && r == Failure(if terminateRaises || closeRaises then Other else fault.value)
                      && released == old(released) + HeldHandle(held)
                      && executions == old(executions)[id := Execution(TERMINAL, true, None)]
                      && workers == old(workers) - {id})
                && (fault.Some? && stuck ==>
                      && r == Failure(Other) && released == old(released) + HeldHandle(held)
                      && executions == old(executions)[id := Execution(STARTING, false, None)]
                      && workers == old(workers)[id := worker])
    {
      hide Valid, Sound, HeldSet;
      if id !in executions || executions[id].state != AUTHORIZED {
        return Failure(InvariantError);
      }
      NotComplete(id);
      ghost var start := executions;
      if hasAdapter && executions[id].prepared.None? {
        var prepared := PrepareEnforcement(id, adapter);
        if prepared.Failure? {
          return Failure(prepared.error);
        }
        NothingHeld(start[id]);
      }
      ghost var held := executions[id].prepared;
      assert executions == start[id := Execution(AUTHORIZED, false, held)];
      r := Begin(id, worker, fault, terminateRaises || closeRaises, releaseRaises);
      Again(start, id, Execution(AUTHORIZED, false, held), executions[id]);
    }

    // The rest of start_worker, once the enforcement is prepared.
    method Begin(id: Id, worker: nat, fault: Option<Raised>, endRaises: bool, releaseRaises: bool)
      returns (r: Result<(), Raised>)
      requires Valid() && id in executions && executions[id].state == AUTHORIZED && !executions[id].cleanupComplete
      modifies this
      ensures Valid() && leaked == old(leaked) && repeated == old(repeated) && issued == old(issued)
      ensures var held := old(executions)[id].prepared;
              var stuck := releaseRaises && held.Some? && hasAdapter;
              && (fault.None? ==>
                    && r == Success(()) && released == old(released)
                    && executions == old(executions)[id := Execution(READY, false, held)]
                    && workers == old(workers)[id := worker])
              && (fault.Some? && !stuck ==>
                    && r == Failure(if endRaises then Other else fault.value)
                    && released == old(released) + HeldHandle(held)
                    && executions == old(executions)[id := Execution(TERMINAL, true, None)]
                    && workers == old(workers) - {id})
              && (fault.Some? && stuck ==>
                    && r == Failure(Other) && released == old(released) + HeldHandle(held)
                    && executions == old(executions)[id := Execution(STARTING, false, None)]
                    && workers == old(workers)[id := worker])
    {
      hide Valid;
      ghost var start, held := executions, executions[id].prepared;
      var _ := Transition(id, STARTING);
      Register(id, worker);
      Again(start, id, Execution(STARTING, false, held), Execution(READY, false, held));
      Again(start, id, Execution(STARTING, false, held), Execution(STARTING, false, None));
      if fault.None? {
        var _ := Transition(id, READY);
        return Success(());
      }
      var release := ReleaseEnforcement(id, releaseRaises);
      assert executions == start[id := Execution(STARTING, false, None)];
      if release.Failure? {
        return Failure(release.error);
      }
      PutThenRemove(old(workers), id, worker);
      Unregister(id);
      var _ := Transition(id, CLEANUP);
      Again(start, id, Execution(STARTING, false, None), Execution(CLEANUP, false, None));
      Complete(id);
      Again(start, id, Execution(CLEANUP, false, None), Execution(TERMINAL, true, None));
      return Failure(if endRaises then Other else fault.value);
    }

    // In whatever way it got here, a supervisor that holds nothing has released every handle exactly
    // once if and only if every preparation found its record without one.
    lemma AllReleasedExactlyWhen()
      requires Valid() && forall id <- executions :: executions[id].prepared == None
      ensures released == multiset(issued) <==> repeated == 0
      ensures |issued| == |released| + repeated
    {
      ReleasedExactlyOnce(Ledger(executions, workers.Keys, issued, released, leaked));
      assert |multiset(issued)| == |released| + |multiset(leaked)|;
      hide Sound;
    }

    lemma NotComplete(id: Id)
      requires Valid() && id in executions && executions[id].state != TERMINAL
      ensures !executions[id].cleanupComplete
    {
    }

    lemma NothingHeld(e: Execution)
      requires e.prepared == None
      ensures HeldSet(e) == {}
    {
    }

    // mark_cleanup_complete on a record that is in CLEANUP and holds nothing any more.
    method Complete(id: Id)
      requires Valid() && id in executions && id !in workers
      requires executions[id].state == CLEANUP && executions[id].prepared == None
      modifies this`executions
      ensures Valid() && executions == old(executions)[id := Execution(TERMINAL, true, None)]
    {
      ChangeKeepsSound(Ledger(executions, workers.Keys, issued, released, leaked), id, Execution(TERMINAL, true, None));
      executions := executions[id := executions[id].MarkCleanupComplete().value];
    }

    // execute_worker: the worker's execute replies, or raises `fault`.
    method ExecuteWorker(id: Id, fault: Option<Raised>, adapterRaises: bool, terminateRaises: bool)
      returns (r: Result<(), Raised>)
      requires Valid()
      modifies this`executions
      ensures Valid()
      ensures !(id in workers && old(executions)[id].state == READY) ==>
                r == Failure(InvariantError) && executions == old(executions)
      ensures id in workers && old(executions)[id].state == READY ==>
                && executions ==
                   old(executions)[id := old(executions)[id].(state :=
                     if fault.None? then COMPLETED else if fault == Some(TimeoutError) then TIMING_OUT else CRASHED)]
                && (r.Success? <==> fault.None?)
                && (fault == Some(TimeoutError) ==>
                      r == Failure(if terminateRaises || (adapterRaises && old(executions)[id].prepared.Some? && hasAdapter)
                                   then Other else TimeoutError))
                && (fault.Some? && fault.value != TimeoutError ==> r == Failure(fault.value))
    {
      if id !in executions || id !in workers || executions[id].state != READY {
        return Failure(InvariantError);
      }
      hide Valid;
      ghost var start := executions;
      var _ := Transition(id, RUNNING);
      assert executions == start[id := start[id].(state := RUNNING)];
      Again(start, id, start[id].(state := RUNNING), start[id].(state := COMPLETED));
      Again(start, id, start[id].(state := RUNNING), start[id].(state := TIMING_OUT));
      Again(start, id, start[id].(state := RUNNING), start[id].(state := CRASHED));
      if fault.None? {
        var _ := Transition(id, COMPLETED);
        return Success(());
      }
      if fault.value == TimeoutError {
        var _ := Transition(id, TIMING_OUT);
        var aborts := adapterRaises && hasAdapter && executions[id].prepared.Some?;
        return Failure(if terminateRaises || aborts then Other else TimeoutError);
      }
      var _ := Transition(id, CRASHED);
      return Failure(fault.value);
    }

    // cleanup.
    method Cleanup(id: Id, workerRaises: bool, releaseRaises: bool) returns (r: Result<(), Raised>)
      requires Valid()
      modifies this
      ensures Valid() && leaked == old(leaked) && repeated == old(repeated) && issued == old(issued)
      ensures id !in old(executions) ==> r == Failure(InvariantError) && executions == old(executions)
      ensures id in old(executions) ==>
                executions.Keys == old(executions).Keys &&
                forall k <- executions :: k != id ==> executions[k] == old(executions)[k]
      ensures id in old(executions) && old(executions)[id].cleanupComplete ==>
                r == Success(()) && executions == old(executions) && workers == old(workers) && released == old(released)
      ensures r.Success? ==>
                && executions[id].cleanupComplete && executions[id].state == TERMINAL && executions[id].prepared == None
                && workers == old(workers) - {id}
                && released == old(released) + Held(old(executions)[id])
      ensures id in old(executions) && !old(executions)[id].cleanupComplete ==>
                (r.Success? <==>
                   && !(id in old(workers) && workerRaises)
                   && !(releaseRaises && old(executions)[id].prepared.Some? && hasAdapter)
                   && Closed(old(executions)[id]).Success?)
      ensures id in old(executions) && r.Failure? ==>
                && workers == old(workers) && executions[id].state == old(executions)[id].state
                && released == old(released) + (if executions[id] == old(executions)[id] then multiset{} else Held(old(executions)[id]))
    {
      hide Valid, Sound;
      if id !in executions {
        return Failure(InvariantError);
      }
      if executions[id].cleanupComplete {
        NotInWorkers(id);
        return Success(());
      }
      if id in workers && workerRaises {
        return Failure(Other);
      }
      var release := ReleaseEnforcement(id, releaseRaises);
      if release.Failure? {
        return Failure(release.error);
      }
      if executions[id].state != CLEANUP {
        var moved := Transition(id, CLEANUP);
        if moved.Failure? {
          assert old(executions)[id].prepared == None ==> executions[id] == old(executions)[id];
          return Failure(moved.error);
        }
      }
      Unregister(id);
      Complete(id);
      return Success(());
    }

    lemma NotInWorkers(id: Id)
      requires Valid() && id in executions && executions[id].cleanupComplete
      ensures workers - {id} == workers && Held(executions[id]) == multiset{}
      ensures executions[id].state == TERMINAL && executions[id].prepared == None
    {
    }
  }

  // When no record holds a handle any more, each one ever issued was released exactly once or lost,
  // and never both; so all were released exactly once if and only if none was lost.
  lemma ReleasedExactlyOnce(l: Ledger)
    requires Sound(l) && forall id <- l.executions :: l.executions[id].prepared == None
    ensures multiset(l.issued) == l.released + multiset(l.leaked)
    ensures l.released == multiset(l.issued) <==> l.leaked == {}
  {
    forall h: Handle ensures multiset(l.issued)[h] == l.released[h] + multiset(l.leaked)[h] {
      assert !HeldBySome(l.executions, h);
      assert l.released[h] <= 1;
    }
    hide Sound;
    if l.released == multiset(l.issued) {
      forall h: Handle ensures h !in l.leaked {
        assert multiset(l.issued)[h] == l.released[h] + multiset(l.leaked)[h];
      }
    }
  }

  // Preparing an execution twice loses the first handle for good.
  method PreparingTwiceLeaks() returns (s: ExecutionSupervisor)
    ensures fresh(s) && s.Valid() && s.issued == {1, 2} && s.released == multiset{2} && s.leaked == {1} && s.repeated == 1
    ensures s.executions == map[0 := Execution(TERMINAL, true, None)]
  {
    hide ExecutionSupervisor.Valid, Sound;
    s := new ExecutionSupervisor(true);
    var _ := s.Authorize(0, true, true);
    assert s.executions == map[0 := Execution(AUTHORIZED, false, None)];
    var _ := s.PrepareEnforcement(0, Some(1));
    assert s.executions == map[0 := Execution(AUTHORIZED, false, Some(1))];
    var _ := s.PrepareEnforcement(0, Some(2));
    assert s.executions == map[0 := Execution(AUTHORIZED, false, Some(2))];
    var _ := s.StartWorker(0, 7, None, Some(WorkerError), false, false, false);
    assert s.executions == map[0 := Execution(TERMINAL, true, None)];
    assert s.issued == {1, 2} && s.leaked == {1} && s.released == multiset{2};
  }

  // A start and an execute that meet no fault complete the execution, with its handle still held.
  method StartAndExecute(s: ExecutionSupervisor, id: Id, worker: nat, adapter: Option<Handle>)
    requires s.Valid() && id in s.executions && s.executions[id].state == AUTHORIZED
    requires s.hasAdapter ==> s.executions[id].prepared.Some? || adapter.Some?
    requires adapter.Some? ==> adapter.value !in s.issued
    modifies s
    ensures s.Valid() && id in s.workers && s.released == old(s.released)
    ensures var held := if s.hasAdapter && old(s.executions)[id].prepared.None? then adapter else old(s.executions)[id].prepared;
            s.executions == old(s.executions)[id := Execution(COMPLETED, false, held)]
  {
    hide ExecutionSupervisor.Valid, Sound;
    ghost var before := s.executions;
    var started := s.StartWorker(id, worker, adapter, None, false, false, false);
    ghost var ready := s.executions[id];
    var executed := s.ExecuteWorker(id, None, false, false);
    assert started.Success? && executed.Success?;
    Again(before, id, ready, ready.(state := COMPLETED));
  }

  // The states a cleanup can close a record from.
  lemma ClosesExactlyWhen(e: Execution)
    ensures Closed(e).Success? <==> e.state in {STARTING, CANCELLING, TIMING_OUT, CRASHED, COMPLETED, TERMINATING, CLEANUP}
    ensures Closed(e).Success? ==> Closed(e).value == Execution(TERMINAL, true, None)
  {
  }

  // ---------- supervised executions ----------

  // What raises between the transitions of execute, state by state; and whether a failing worker
  // has crashed or never got a process.
  datatype Script = Script(
    granted: bool, adapterMatches: bool, atAuthorized: Option<Raised>, atStarting: Option<Raised>, atReady: Option<Raised>,
    atRunning: Option<Raised>, atCompleted: Option<Raised>, crashed: bool)
  {
    // The first state in which something raises, and what.
    function Fault(): Option<(State, Raised)> {
      if atStarting.Some? then Some((STARTING, atStarting.value))
      else if atReady.Some? then Some((READY, atReady.value))
      else if atRunning.Some? then Some((RUNNING, atRunning.value))
      else if atCompleted.Some? then Some((COMPLETED, atCompleted.value))
      else None
    }
  }

  // The faults whose handling ends in TERMINAL.
  predicate Recovers(state: State, raised: Raised) {
    match raised
    case TimeoutError => state in {STARTING, RUNNING}
    case Other => state in {STARTING, COMPLETED}
    case _ => state in {STARTING, READY, RUNNING, COMPLETED}
  }

  class SupervisedExecution {
    const supervisor: ExecutionSupervisor
    var workers: set<Id>

    ghost predicate Valid()
      reads this, supervisor
    {
      supervisor.Valid() && supervisor.workers == map[] && workers <= supervisor.executions.Keys
    }

    constructor (supervisor: ExecutionSupervisor)
      requires supervisor.Valid() && supervisor.workers == map[]
      ensures Valid() && this.supervisor == supervisor && workers == {}
    {
      this.supervisor := supervisor;
      workers := {};
    }

    // The body of execute's try block: how far it gets, and what stops it.
    method Attempt(id: Id, script: Script) returns (fault: Option<Raised>)
      requires Valid() && id in supervisor.executions
      requires supervisor.executions[id] == Execution(AUTHORIZED, false, None)
      modifies supervisor`executions
      ensures Valid()
      ensures var stop := script.Fault();
              && (fault == if stop.None? then None else Some(stop.value.1))
              && supervisor.executions ==
                 old(supervisor.executions)[id := Execution(if stop.None? then COMPLETED else stop.value.0, false, None)]
    {
      hide ExecutionSupervisor.Valid;
      ghost var start := supervisor.executions;
      var _ := supervisor.Transition(id, STARTING);
      if script.atStarting.Some? {
        return script.atStarting;
      }
      var _ := supervisor.Transition(id, READY);
      Again(start, id, Execution(STARTING, false, None), Execution(READY, false, None));
      if script.atReady.Some? {
        return script.atReady;
      }
      var _ := supervisor.Transition(id, RUNNING);
      Again(start, id, Execution(READY, false, None), Execution(RUNNING, false, None));
      if script.atRunning.Some? {
        return script.atRunning;
      }
      var _ := supervisor.Transition(id, COMPLETED);
      Again(start, id, Execution(RUNNING, false, None), Execution(COMPLETED, false, None));
      return script.atCompleted;
    }

    // _finish and _finish_failure: to CLEANUP unless there already, then the supervisor's cleanup.
    method Finish(id: Id) returns (r: Result<State, Raised>)
      requires Valid() && id in supervisor.executions
      modifies this, supervisor
      ensures Valid()
      ensures var before := old(supervisor.executions)[id];
              && (r.Success? <==> Closed(before).Success?)
              && (r.Success? ==>
                    && r.value == TERMINAL && workers == old(workers) - {id}
                    && supervisor.executions == old(supervisor.executions)[id := Execution(TERMINAL, true, None)])
              && (r.Failure? ==>
                    && r.error == InvariantError && workers == old(workers)
                    && supervisor.executions == old(supervisor.executions))
      ensures supervisor.issued == old(supervisor.issued) && supervisor.repeated == old(supervisor.repeated)
      ensures supervisor.released ==
              old(supervisor.released) + if r.Success? then Held(old(supervisor.executions)[id]) else multiset{}
    {
      hide ExecutionSupervisor.Valid;
      ghost var start := supervisor.executions;
      if supervisor.executions[id].state != CLEANUP {
        var moved := supervisor.Transition(id, CLEANUP);
        if moved.Failure? {
          return Failure(moved.error);
        }
      }
      var cleaned := supervisor.Cleanup(id, false, false);
      assert supervisor.workers == map[];
      assert supervisor.executions == start[id := Execution(TERMINAL, true, None)];
      workers := workers - {id};
      return Success(supervisor.executions[id].state);
    }

    // The except clauses of execute.
    method Handle(id: Id, raised: Raised, crashed: bool) returns (r: Result<State, Raised>)
      requires Valid() && id in supervisor.executions
      requires supervisor.executions[id].state in {STARTING, READY, RUNNING, COMPLETED}
      requires supervisor.executions[id].prepared == None && !supervisor.executions[id].cleanupComplete
      modifies this, supervisor
      ensures Valid()
      ensures var state := old(supervisor.executions)[id].state;
              && (r.Success? <==> Recovers(state, raised))
              && (r.Success? ==>
                    && r.value == TERMINAL && workers == old(workers) - {id}
                    && supervisor.executions == old(supervisor.executions)[id := Execution(TERMINAL, true, None)])
              && (r.Failure? ==> workers == old(workers) && supervisor.executions == old(supervisor.executions))
    {
      hide ExecutionSupervisor.Valid;
      ghost var start := supervisor.executions;
      var state := supervisor.executions[id].state;
      if raised == TimeoutError {
        var timed := supervisor.Transition(id, TIMING_OUT);
        if timed.Failure? {
          return Failure(timed.error);
        }
        Again(start, id, start[id].(state := TIMING_OUT), start[id].(state := TERMINATING));
        var _ := supervisor.Transition(id, TERMINATING);
      } else if raised != Other {
        var _ := supervisor.Transition(id, if crashed then CRASHED else TERMINATING);
      }
      ghost var handled := supervisor.executions[id];
      assert supervisor.executions == start[id := handled];
      r := Finish(id);
      Again(start, id, handled, Execution(TERMINAL, true, None));
    }

    // execute.
    method Execute(id: Id, script: Script) returns (r: Result<State, Raised>)
      requires Valid() && id !in supervisor.executions
      modifies this, supervisor
      ensures Valid()
      ensures !(script.granted && script.adapterMatches) ==>
                r == Failure(InvariantError) && supervisor.executions == old(supervisor.executions)
      ensures script.granted && script.adapterMatches ==>
                var fault := if script.atAuthorized.Some? then Some((AUTHORIZED, script.atAuthorized.value)) else script.Fault();
                && (r.Success? <==> fault.None? || Recovers(fault.value.0, fault.value.1))
                && (r.Success? ==>
                      && r.value == TERMINAL && workers == old(workers) - {id}
                      && supervisor.executions == old(supervisor.executions)[id := Execution(TERMINAL, true, None)])
                && (r.Failure? ==>
                      && supervisor.executions ==
                         old(supervisor.executions)[id := Execution(fault.value.0, false, None)]
                      && workers == if fault.value.0 == AUTHORIZED then old(workers) else old(workers) + {id})
    {
      hide ExecutionSupervisor.Valid;
      ghost var start := supervisor.executions;
      var authorized := supervisor.Authorize(id, script.granted, script.adapterMatches);
      if authorized.Failure? {
        return Failure(authorized.error);
      }
      if script.atAuthorized.Some? {
        return Failure(script.atAuthorized.value);
      }
      workers := workers + {id};
      var fault := Attempt(id, script);
      ghost var reached := supervisor.executions[id];
      Again(start, id, Execution(AUTHORIZED, false, None), reached);
      assert supervisor.executions == start[id := reached];
      Again(start, id, reached, Execution(TERMINAL, true, None));
      if fault.None? {
        r := Finish(id);
      } else {
        r := Handle(id, fault.value, script.crashed);
      }
      assert id !in old(workers);
    }

    // cancel: the worker's cancel replies or raises `fault`.
    method Cancel(id: Id, fault: Option<Raised>) returns (r: Result<State, Raised>)
      requires Valid()
      modifies this, supervisor
      ensures Valid()
      ensures id !in old(supervisor.executions) ==> r == Failure(InvariantError)
      ensures id in old(supervisor.executions) && id !in old(workers) ==> r == Failure(Other)
      ensures id in old(workers) ==>
                var before := old(supervisor.executions)[id];
                var cancellable := before.state in {READY, RUNNING};
                && (!cancellable ==> r == Failure(InvariantError))
                && (r.Success? <==> cancellable && (fault.None? || fault.value in {TimeoutError, WorkerError}))
                && (r.Success? ==>
                      && r.value == TERMINAL
                      && supervisor.executions == old(supervisor.executions)[id := Execution(TERMINAL, true, None)])
                && (r.Failure? && cancellable ==>
                      && r.error == fault.value
                      && supervisor.executions == old(supervisor.executions)[id := before.(state := CANCELLING)])
      ensures r.Failure? && !(id in old(workers) && old(supervisor.executions)[id].state in {READY, RUNNING}) ==>
                supervisor.executions == old(supervisor.executions)
      ensures workers == if r.Success? then old(workers) - {id} else old(workers)
    {
      hide ExecutionSupervisor.Valid;
      ghost var start := supervisor.executions;
      if id !in supervisor.executions {
        return Failure(InvariantError);
      }
      if id !in workers {
        return Failure(Other);
      }
      if supervisor.executions[id].state != READY && supervisor.executions[id].state != RUNNING {
        return Failure(InvariantError);
      }
      var _ := supervisor.Transition(id, CANCELLING);
      if fault.Some? && fault.value != TimeoutError && fault.value != WorkerError {
        return Failure(fault.value);
      }
      var _ := supervisor.Transition(id, TERMINATING);
      Again(start, id, start[id].(state := CANCELLING), start[id].(state := TERMINATING));
      r := Finish(id);
      Again(start, id, start[id].(state := TERMINATING), Execution(TERMINAL, true, None));
    }
  }
}
