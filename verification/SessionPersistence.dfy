/**
  sqlite_conversation_session_persistence.py as operations on its two keyed tables.  A call either
  takes full effect or fails and changes nothing, as a transaction does; JSON is a codec that reads
  back what it wrote.
 */
module SessionPersistence {
  import opened Wrappers

  type Id = nat

  // The values of a stored message, as far as they are inspected.
  datatype Value = Nil | Text(text: string) | Other(tag: nat)

  type Raw = map<string, Value>

  const SCHEMA_VERSION := 1

  datatype Error = WrongVersion | Corrupt | Failed

  datatype Codec = Codec(encode: Raw -> string, decode: string -> Option<Raw>) {
    ghost predicate RoundTrips() {
      forall m :: decode(encode(m)) == Some(m)
    }

    function EncodeAll(messages: seq<Raw>): (rows: seq<string>)
      ensures |rows| == |messages| && forall k :: 0 <= k < |rows| ==> rows[k] == encode(messages[k])
    {
      seq(|messages|, k requires 0 <= k < |messages| => encode(messages[k]))
    }

    // None as soon as one row is not a JSON object.
    function DecodeAll(rows: seq<string>): Option<seq<Raw>> {
      if rows == [] then Some([])
      else
        var before := DecodeAll(rows[..|rows| - 1]);
        var last := decode(rows[|rows| - 1]);
        if before.None? || last.None? then None else Some(before.value + [last.value])
    }

    lemma {:induction false} DecodesWhatItEncoded(messages: seq<Raw>)
      requires RoundTrips()
      ensures DecodeAll(EncodeAll(messages)) == Some(messages)
    {
      if messages != [] {
        var n := |messages| - 1;
        DecodesWhatItEncoded(messages[..n]);
        assert EncodeAll(messages)[..n] == EncodeAll(messages[..n]);
        assert messages[..n] + [messages[n]] == messages;
      }
    }
  }

  // ---------- the message table ----------

  type Table = map<(Id, nat), string>

  function IndicesOf(messages: Table, id: Id): (indices: set<nat>)
    ensures forall i :: i in indices <==> (id, i) in messages
  {
    set k <- messages.Keys | k.0 == id :: k.1
  }

  function Without(messages: Table, id: Id): Table {
    map k <- messages | k.0 != id :: messages[k]
  }

  // Rows of one session at indices below `bound`, in index order.
  function RowsBelow(messages: Table, id: Id, bound: nat): seq<string> {
    if bound == 0 then []
    else
      var before := RowsBelow(messages, id, bound - 1);
      if (id, bound - 1) in messages then before + [messages[(id, bound - 1)]] else before
  }

  ghost predicate Bounds(messages: Table, id: Id, bound: nat) {
    forall i :: (id, i) in messages ==> i < bound
  }

  // One more than the largest index.
  ghost function BoundOf(indices: set<nat>): (bound: nat)
    ensures forall i <- indices :: i < bound
  {
    if indices == {} then 0
    else
      var i :| i in indices;
      var rest := BoundOf(indices - {i});
      assert indices == (indices - {i}) + {i};
      if i >= rest then i + 1 else rest
  }

  lemma {:induction false} BoundsAgree(messages: Table, id: Id, low: nat, high: nat)
    requires Bounds(messages, id, low) && low <= high
    ensures RowsBelow(messages, id, low) == RowsBelow(messages, id, high)
    decreases high
  {
    if low < high {
      BoundsAgree(messages, id, low, high - 1);
    }
  }

  // SELECT ... WHERE session_id = id ORDER BY message_index.
  ghost function Rows(messages: Table, id: Id): seq<string> {
    RowsBelow(messages, id, BoundOf(IndicesOf(messages, id)))
  }

  lemma RowsWithin(messages: Table, id: Id, bound: nat)
    requires Bounds(messages, id, bound)
    ensures Rows(messages, id) == RowsBelow(messages, id, bound)
  {
    var least := BoundOf(IndicesOf(messages, id));
    if least <= bound {
      BoundsAgree(messages, id, least, bound);
    } else {
      BoundsAgree(messages, id, bound, least);
    }
  }

  // Rows at 0, 1, 2, ... read back in that order.
  lemma {:induction false} RowsInOrder(messages: Table, id: Id, rows: seq<string>, n: nat)
    requires n <= |rows| && forall i :: 0 <= i < n ==> (id, i) in messages && messages[(id, i)] == rows[i]
    ensures RowsBelow(messages, id, n) == rows[..n]
  {
    if n > 0 {
      RowsInOrder(messages, id, rows, n - 1);
    }
  }

  lemma {:induction false} SameRowsBelow(a: Table, b: Table, id: Id, bound: nat)
    requires forall i :: (id, i) in a <==> (id, i) in b
    requires forall i :: (id, i) in a ==> a[(id, i)] == b[(id, i)]
    ensures RowsBelow(a, id, bound) == RowsBelow(b, id, bound)
  {
    if bound > 0 {
      SameRowsBelow(a, b, id, bound - 1);
    }
  }

  lemma SameRows(a: Table, b: Table, id: Id)
    requires forall i :: (id, i) in a <==> (id, i) in b
    requires forall i :: (id, i) in a ==> a[(id, i)] == b[(id, i)]
    ensures Rows(a, id) == Rows(b, id)
  {
    assert IndicesOf(a, id) == IndicesOf(b, id);
    SameRowsBelow(a, b, id, BoundOf(IndicesOf(a, id)));
  }

  // Rows written one after the other at 0, 1, 2, ...
  function Filled(messages: Table, id: Id, rows: seq<string>): Table {
    if rows == [] then messages
    else Filled(messages, id, rows[..|rows| - 1])[(id, |rows| - 1) := rows[|rows| - 1]]
  }

  lemma FilledNext(messages: Table, id: Id, rows: seq<string>, index: nat)
    requires index <= |rows|
    ensures Filled(messages, id, rows[..0]) == messages
    ensures index < |rows| ==>
              Filled(messages, id, rows[..index + 1]) == Filled(messages, id, rows[..index])[(id, index) := rows[index]]
  {
    if index < |rows| {
      assert rows[..index + 1][..index] == rows[..index];
    }
  }

  lemma {:induction false} FilledHolds(messages: Table, id: Id, rows: seq<string>, k: Id, i: nat)
    ensures (k, i) in Filled(messages, id, rows) <==> (k, i) in messages || (k == id && i < |rows|)
    ensures k == id && i < |rows| ==> Filled(messages, id, rows)[(k, i)] == rows[i]
    ensures (k, i) in messages && !(k == id && i < |rows|) ==> Filled(messages, id, rows)[(k, i)] == messages[(k, i)]
  {
    if rows != [] {
      FilledHolds(messages, id, rows[..|rows| - 1], k, i);
    }
  }

  // ---------- the store ----------

  ghost function Read(codec: Codec, sessions: map<Id, int>, messages: Table, id: Id): Result<Option<seq<Raw>>, Error> {
    if id !in sessions then Success(None)
    else if sessions[id] != SCHEMA_VERSION then Failure(WrongVersion)
    else
      var decoded := codec.DecodeAll(Rows(messages, id));
      if decoded.None? then Failure(Corrupt) else Success(decoded)
  }

  // What a load answers: nothing for an unknown session, an error for another version or a row that is
  // no JSON object, and otherwise the session's rows, decoded one by one.
  lemma ReadsExactlyWhen(codec: Codec, sessions: map<Id, int>, messages: Table, id: Id, conversation: seq<Raw>)
    ensures var r, rows := Read(codec, sessions, messages, id), Rows(messages, id);
            && (r == Success(None) <==> id !in sessions)
            && (r == Failure(WrongVersion) <==> id in sessions && sessions[id] != SCHEMA_VERSION)
            && (r == Failure(Corrupt) <==>
                  id in sessions && sessions[id] == SCHEMA_VERSION && exists k :: 0 <= k < |rows| && codec.decode(rows[k]).None?)
            && (r == Success(Some(conversation)) <==>
                  && id in sessions && sessions[id] == SCHEMA_VERSION && |rows| == |conversation|
                  && forall k :: 0 <= k < |rows| ==> codec.decode(rows[k]) == Some(conversation[k]))
  {
    DecodesExactlyWhen(codec, Rows(messages, id), conversation);
    hide Rows;
  }

  lemma {:induction false} DecodesExactlyWhen(codec: Codec, rows: seq<string>, conversation: seq<Raw>)
    ensures codec.DecodeAll(rows).None? <==> exists k :: 0 <= k < |rows| && codec.decode(rows[k]).None?
    ensures codec.DecodeAll(rows) == Some(conversation) <==>
              |rows| == |conversation| && forall k :: 0 <= k < |rows| ==> codec.decode(rows[k]) == Some(conversation[k])
    decreases |rows|
  {
    if rows != [] {
      var n := |rows| - 1;
      var before := codec.DecodeAll(rows[..n]);
      DecodesExactlyWhen(codec, rows[..n], if before.Some? then before.value else []);
      assert forall k :: 0 <= k < n ==> rows[..n][k] == rows[k];
      if |conversation| == |rows| {
        DecodesExactlyWhen(codec, rows[..n], conversation[..n]);
        assert conversation[..n] + [conversation[n]] == conversation;
      }
    }
  }

  lemma OthersRead(codec: Codec, sessions: map<Id, int>, messages: Table, sessions': map<Id, int>, messages': Table, id: Id)
    requires forall k :: k != id ==> (k in sessions <==> k in sessions')
    requires forall k :: k != id && k in sessions ==> sessions[k] == sessions'[k]
    requires Without(messages, id) == Without(messages', id)
    ensures forall k :: k != id ==> Read(codec, sessions, messages, k) == Read(codec, sessions', messages', k)
  {
    forall k | k != id ensures Rows(messages, k) == Rows(messages', k) {
      forall i: nat ensures (k, i) in messages <==> (k, i) in messages'
        ensures (k, i) in messages ==> messages[(k, i)] == messages'[(k, i)]
      {
        assert (k, i) in messages <==> (k, i) in Without(messages, id);
        assert (k, i) in messages' <==> (k, i) in Without(messages', id);
      }
      SameRows(messages, messages', k);
    }
  }

  // What a save leaves in the tables.
  lemma SavedReads(codec: Codec, sessions: map<Id, int>, messages: Table, id: Id, conversation: seq<Raw>)
    requires codec.RoundTrips()
    ensures var written := Filled(Without(messages, id), id, codec.EncodeAll(conversation));
            && Read(codec, sessions[id := SCHEMA_VERSION], written, id) == Success(Some(conversation))
            && Without(written, id) == Without(messages, id)
            && forall k <- written :: k.0 == id || k in messages
  {
    var rows := codec.EncodeAll(conversation);
    var written := Filled(Without(messages, id), id, rows);
    FilledRows(messages, id, rows);
    hide Filled, Without;
    RowsInOrder(written, id, rows, |rows|);
    RowsWithin(written, id, |rows|);
    assert rows[..|rows|] == rows;
    codec.DecodesWhatItEncoded(conversation);
  }

  lemma FilledRows(messages: Table, id: Id, rows: seq<string>)
    ensures var written := Filled(Without(messages, id), id, rows);
            && (forall i: nat :: (id, i) in written <==> i < |rows|)
            && (forall i: nat :: i < |rows| ==> (id, i) in written && written[(id, i)] == rows[i])
            && Without(written, id) == Without(messages, id)
            && forall k <- written :: k.0 == id || k in messages
  {
    var cleared := Without(messages, id);
    var written := Filled(cleared, id, rows);
    forall k: Id, i: nat
      ensures (k, i) in written <==> (k, i) in cleared || (k == id && i < |rows|)
      ensures k == id && i < |rows| ==> written[(k, i)] == rows[i]
      ensures (k, i) in cleared ==> written[(k, i)] == cleared[(k, i)]
    {
      FilledHolds(cleared, id, rows, k, i);
    }
    hide Filled;
    assert Without(written, id) == cleared by {
      forall k <- written ensures k.0 != id ==> k in cleared && written[k] == cleared[k] {
        assert k == (k.0, k.1);
      }
    }
    forall k <- written ensures k.0 == id || k in messages {
      assert k == (k.0, k.1);
    }
  }

  class SessionStore {
    const codec: Codec
    var sessions: map<Id, int>
    var messages: Table

    ghost predicate Valid()
      reads this
    {
      && codec.RoundTrips()
      && forall k <- messages :: k.0 in sessions
    }

    // What load_session reads, when the database answers.
    ghost function Stored(id: Id): Result<Option<seq<Raw>>, Error>
      reads this
    {
      Read(codec, sessions, messages, id)
    }

    // Every other session reads as before.
    twostate predicate OthersKept(id: Id)
      reads this
    {
      forall k :: k != id ==> Stored(k) == old(Stored(k))
    }

    constructor (codec: Codec)
      requires codec.RoundTrips()
      ensures Valid() && this.codec == codec && sessions == map[] && messages == map[]
    {
      this.codec := codec;
      sessions, messages := map[], map[];
    }

    // The rows of one session in index order.
    method Select(id: Id) returns (rows: seq<string>)
      ensures rows == Rows(messages, id)
    {
      ghost var bound := BoundOf(IndicesOf(messages, id));
      var left := IndicesOf(messages, id);
      var next: nat := 0;
      rows := [];
      while left != {}
        invariant forall i :: i in left <==> (id, i) in messages && i >= next
        invariant rows == RowsBelow(messages, id, next)
        decreases bound - next
      {
        ghost var i :| i in left;
        assert i in IndicesOf(messages, id) && next <= i < bound;
        if next in left {
          rows := rows + [messages[(id, next)]];
          left := left - {next};
        }
        next := next + 1;
      }
      RowsWithin(messages, id, next);
    }

    method Load(id: Id, fails: bool) returns (r: Result<Option<seq<Raw>>, Error>)
      ensures r == if fails then Failure(Failed) else Stored(id)
    {
      if fails {
        return Failure(Failed);
      }
      if id !in sessions {
        return Success(None);
      }
      if sessions[id] != SCHEMA_VERSION {
        return Failure(WrongVersion);
      }
      var rows := Select(id);
      var loaded := [];
      for k := 0 to |rows|
        invariant codec.DecodeAll(rows[..k]) == Some(loaded)
      {
        assert rows[..k + 1][..k] == rows[..k];
        var m := codec.decode(rows[k]);
        if m.None? {
          NeverDecodes(codec, rows, k);
          return Failure(Corrupt);
        }
        loaded := loaded + [m.value];
      }
      assert rows[..|rows|] == rows;
      return Success(Some(loaded));
    }

    // Reads back what was saved, and leaves every other session as it was.
    method Save(id: Id, conversation: seq<Raw>, fails: bool) returns (r: Result<(), Error>)
      requires Valid()
      modifies this
      ensures Valid() && OthersKept(id)
      ensures r.Success? <==> !fails
      ensures r.Success? ==> Stored(id) == Success(Some(conversation))
      ensures r.Failure? ==> sessions == old(sessions) && messages == old(messages)
    {
      var rows := codec.EncodeAll(conversation);
      if fails {
        return Failure(Failed);
      }
      hide Read, Without, Filled;
      SavedReads(codec, sessions, messages, id, conversation);
      sessions := sessions[id := SCHEMA_VERSION];
      messages := Without(messages, id);
      ghost var cleared := messages;
      FilledNext(cleared, id, rows, 0);
      for index := 0 to |rows|
        invariant messages == Filled(cleared, id, rows[..index])
        invariant sessions == old(sessions)[id := SCHEMA_VERSION]
      {
        FilledNext(cleared, id, rows, index);
        messages := messages[(id, index) := rows[index]];
      }
      assert rows[..|rows|] == rows;
      OthersRead(codec, sessions, messages, old(sessions), old(messages), id);
      return Success(());
    }

    method Clear(id: Id, fails: bool) returns (r: Result<(), Error>)
      requires Valid()
      modifies this`messages
      ensures Valid() && OthersKept(id)
      ensures r.Success? <==> !fails
      ensures r.Success? && id in sessions && sessions[id] == SCHEMA_VERSION ==> Stored(id) == Success(Some([]))
      ensures r.Success? && old(Stored(id)).Success? && old(Stored(id)).value.Some? ==> Stored(id) == Success(Some([]))
      ensures r.Failure? ==> messages == old(messages)
    {
      if fails {
        return Failure(Failed);
      }
      messages := Without(messages, id);
      RowsWithin(messages, id, 0);
      OthersRead(codec, sessions, messages, old(sessions), old(messages), id);
      return Success(());
    }

    // Deletes the session row; its messages go with it.
    method Delete(id: Id, fails: bool) returns (r: Result<(), Error>)
      requires Valid()
      modifies this
      ensures Valid() && OthersKept(id)
      ensures r.Success? <==> !fails
      ensures r.Success? ==> Stored(id) == Success(None)
      ensures r.Failure? ==> sessions == old(sessions) && messages == old(messages)
    {
      if fails {
        return Failure(Failed);
      }
      sessions := sessions - {id};
      messages := Without(messages, id);
      OthersRead(codec, sessions, messages, old(sessions), old(messages), id);
      return Success(());
    }
  }

  lemma {:induction false} NeverDecodes(codec: Codec, rows: seq<string>, k: nat)
    requires k < |rows| && codec.decode(rows[k]) == None
    ensures codec.DecodeAll(rows) == None
  {
    if k < |rows| - 1 {
      NeverDecodes(codec, rows[..|rows| - 1], k);
    }
  }
}
