/**
  conversation_session_manager.py: a write-through cache of conversations over the session store.
  Every store call may fail; a failed call is rolled back in memory, so a cached conversation always
  equals the stored one, and a fresh manager over the same store sees the same conversations.
 */
module SessionManager {
  import opened SessionPersistence
  import opened Strings
  import opened Wrappers

  datatype Bounds = Bounds(maxSessions: nat, maxMessages: nat, maxLength: nat, maxTotal: nat) {
    predicate Positive() {
      maxSessions > 0 && maxMessages > 0 && maxLength > 0 && maxTotal > 0
    }
  }

  datatype Error =
    | SessionLimit | Missing | StoreFailed | TooManyMessages | TotalTooLong
    | NotAMapping | BadRole | BadContent | BlankContent | ContentTooLong | BadName

  // ---------- messages ----------

  // A normalized message.
  datatype Message = Message(role: string, content: string, name: Option<string>)

  function ToRaw(m: Message): Raw {
    var raw: Raw := map["role" := Text(m.role), "content" := Text(m.content)];
    if m.name.Some? then raw["name" := Text(m.name.value)] else raw
  }

  function Get(raw: Raw, key: string): Value {
    if key in raw then raw[key] else Nil
  }

  function Normalize(b: Bounds, raw: Raw): Result<Message, Error> {
    var (role, content, name) := (Get(raw, "role"), Get(raw, "content"), Get(raw, "name"));
    if !role.Text? || Strip(role.text) == "" then Failure(BadRole)
    else if !content.Text? then Failure(BadContent)
    else if Strip(content.text) == "" then Failure(BlankContent)
    else if |Strip(content.text)| > b.maxLength then Failure(ContentTooLong)
    else if name.Nil? then Success(Message(Strip(role.text), Strip(content.text), None))
    else if !name.Text? || Strip(name.text) == "" then Failure(BadName)
    else Success(Message(Strip(role.text), Strip(content.text), Some(Strip(name.text))))
  }

  predicate Good(b: Bounds, m: Message) {
    && m.role != "" && Stripped(m.role)
    && m.content != "" && Stripped(m.content) && |m.content| <= b.maxLength
    && (m.name.Some? ==> m.name.value != "" && Stripped(m.name.value))
  }

  // Which messages are accepted, and as what: texts that are role, content and name, if there is one,
  // with spaces around them, none of them blank and the content not too long.
  lemma NormalizesExactlyWhen(b: Bounds, raw: Raw, m: Message)
    ensures Normalize(b, raw) == Success(m) <==>
              && Good(b, m)
              && "role" in raw && raw["role"].Text? && Padded(raw["role"].text, m.role)
              && "content" in raw && raw["content"].Text? && Padded(raw["content"].text, m.content)
              && (m.name.None? <==> "name" !in raw || raw["name"].Nil?)
              && (m.name.Some? ==> raw["name"].Text? && Padded(raw["name"].text, m.name.value))
  {
    forall s: string, t: string ensures Strip(s) == t <==> Padded(s, t) && Stripped(t) {
      StripsExactlyWhen(s, t);
    }
    hide Strip, Padded, Stripped;
  }

  // Normalizing gives a message that normalizes to itself.
  lemma NormalizeIsIdempotent(b: Bounds, raw: Raw)
    ensures Normalize(b, raw).Success? ==>
              Good(b, Normalize(b, raw).value) && Normalize(b, ToRaw(Normalize(b, raw).value)) == Normalize(b, raw)
  {
    if Normalize(b, raw).Success? {
      var m := Normalize(b, raw).value;
      StripSettles(raw["role"].text);
      StripSettles(raw["content"].text);
      if m.name.Some? {
        StripSettles(raw["name"].text);
      }
      GoodNormalizes(b, m);
    }
  }

  lemma GoodNormalizes(b: Bounds, m: Message)
    requires Good(b, m)
    ensures Normalize(b, ToRaw(m)) == Success(m)
  {
    StripSettles(m.role);
    StripSettles(m.content);
    if m.name.Some? {
      StripSettles(m.name.value);
    }
    hide Strip, Stripped;
  }

  // ---------- conversations ----------

  function Total(messages: seq<Message>): nat {
    if messages == [] then 0 else Total(messages[..|messages| - 1]) + |messages[|messages| - 1].content|
  }

  // The characters of a conversation are those of its parts, and of one message those of its content.
  lemma {:induction false} TotalSplits(a: seq<Message>, b: seq<Message>)
    ensures Total(a + b) == Total(a) + Total(b)
    ensures |b| == 1 ==> Total(b) == |b[0].content|
    decreases |b|
  {
    if b == [] {
      assert a + b == a;
    } else {
      var n := |b| - 1;
      TotalSplits(a, b[..n]);
      assert (a + b)[..|a + b| - 1] == a + b[..n];
    }
  }

  ghost predicate GoodConversation(b: Bounds, messages: seq<Message>) {
    |messages| <= b.maxMessages && Total(messages) <= b.maxTotal && forall m <- messages :: Good(b, m)
  }

  // The bounds an append has to meet, for a new message and for a loaded one alike.
  function Admit(b: Bounds, messages: seq<Message>, m: Message): Result<seq<Message>, Error> {
    if |messages| >= b.maxMessages then Failure(TooManyMessages)
    else if Total(messages) + |m.content| > b.maxTotal then Failure(TotalTooLong)
    else Success(messages + [m])
  }

  lemma AdmitKeepsGood(b: Bounds, messages: seq<Message>, m: Message)
    requires GoodConversation(b, messages) && Good(b, m)
    ensures Admit(b, messages, m).Success? ==> GoodConversation(b, Admit(b, messages, m).value)
  {
    hide Good;
    assert (messages + [m])[..|messages|] == messages;
  }

  lemma AdmitAppends(b: Bounds, messages: seq<Message>, m: Message)
    ensures Admit(b, messages, m).Success? ==> Admit(b, messages, m).value == messages + [m]
  {
  }

  // Loading: each stored message normalized and admitted in turn.
  function Hydrate(b: Bounds, raws: seq<Raw>): Result<seq<Message>, Error> {
    if raws == [] then Success([])
    else
      var before := Hydrate(b, raws[..|raws| - 1]);
      if before.Failure? then before
      else
        var m := Normalize(b, raws[|raws| - 1]);
        if m.Failure? then Failure(m.error) else Admit(b, before.value, m.value)
  }

  lemma {:induction false} HydrateIsGood(b: Bounds, raws: seq<Raw>)
    ensures Hydrate(b, raws).Success? ==> GoodConversation(b, Hydrate(b, raws).value)
  {
    if raws != [] && Hydrate(b, raws).Success? {
      HydrateIsGood(b, raws[..|raws| - 1]);
      NormalizeIsIdempotent(b, raws[|raws| - 1]);
      AdmitKeepsGood(b, Hydrate(b, raws[..|raws| - 1]).value, Normalize(b, raws[|raws| - 1]).value);
    }
  }

  function ToRaws(messages: seq<Message>): (raws: seq<Raw>)
    ensures |raws| == |messages| && forall k :: 0 <= k < |raws| ==> raws[k] == ToRaw(messages[k])
  {
    seq(|messages|, k requires 0 <= k < |messages| => ToRaw(messages[k]))
  }

  // A conversation within the bounds loads as itself.
  lemma GoodHydrates(b: Bounds, messages: seq<Message>)
    requires GoodConversation(b, messages)
    ensures Hydrate(b, ToRaws(messages)) == Success(messages)
  {
    hide Good, Normalize, ToRaw, Hydrate, Total;
    forall k | 0 <= k < |messages| ensures Normalize(b, ToRaws(messages)[k]) == Success(messages[k]) {
      GoodNormalizes(b, messages[k]);
    }
    HydratesExactlyWhen(b, ToRaws(messages), messages);
  }

  // A stored conversation loads exactly when each message is accepted and all together are within the
  // bounds; it loads as those messages in that order.
  lemma {:induction false} HydratesExactlyWhen(b: Bounds, raws: seq<Raw>, messages: seq<Message>)
    ensures Hydrate(b, raws) == Success(messages) <==>
              && |messages| == |raws| <= b.maxMessages && Total(messages) <= b.maxTotal
              && forall k :: 0 <= k < |raws| ==> Normalize(b, raws[k]) == Success(messages[k])
    decreases |raws|
  {
    hide Normalize, Admit, Total;
    if raws != [] {
      var n := |raws| - 1;
      var before := Hydrate(b, raws[..n]);
      if before.Success? {
        HydratesExactlyWhen(b, raws[..n], before.value);
        AdmitsExactlyWhen(b, before.value, messages);
      }
      if |messages| == |raws| {
        HydratesExactlyWhen(b, raws[..n], messages[..n]);
        AdmitsExactlyWhen(b, messages[..n], messages);
      }
    } else {
      NothingTotals();
    }
  }

  lemma NothingTotals()
    ensures Total([]) == 0
  {
  }

  lemma AdmitsExactlyWhen(b: Bounds, before: seq<Message>, messages: seq<Message>)
    ensures forall m :: Admit(b, before, m) == Success(messages) <==>
              messages == before + [m] && |messages| <= b.maxMessages && Total(messages) <= b.maxTotal
    ensures messages != [] ==> Total(messages[..|messages| - 1]) <= Total(messages)
  {
    assert forall m :: (before + [m])[..|before|] == before;
  }

  // ---------- looking a conversation up ----------

  type Cache = map<Id, seq<Message>>

  type Loaded = Result<Option<seq<Raw>>, SessionPersistence.Error>

  // What get_session gives: the cached conversation, or the stored one if there is room for it;
  // `loaded` is what the store answers, None without a store.
  function Lookup(b: Bounds, sessions: Cache, loaded: Option<Loaded>, id: Id): Result<seq<Message>, Error> {
    if id in sessions then Success(sessions[id])
    else if loaded.None? then Failure(Missing)
    else if loaded.value.Failure? then Failure(StoreFailed)
    else if loaded.value.value.None? then Failure(Missing)
    else if |sessions| >= b.maxSessions then Failure(SessionLimit)
    else Hydrate(b, loaded.value.value.value)
  }

  predicate Exists(loaded: Option<Loaded>) {
    loaded.Some? && loaded.value.Success? && loaded.value.value.Some?
  }

  // The cached conversation is the stored one, as loading reads it.
  ghost predicate Written(b: Bounds, sessions: Cache, loaded: Loaded, id: Id) {
    id in sessions ==> Exists(Some(loaded)) && Hydrate(b, loaded.value.value) == Success(sessions[id])
  }

  lemma SavedIsWritten(b: Bounds, sessions: Cache, id: Id)
    requires id in sessions && GoodConversation(b, sessions[id])
    ensures Written(b, sessions, Success(Some(ToRaws(sessions[id]))), id)
  {
    GoodHydrates(b, sessions[id]);
  }

  // A lookup gives the cached conversation, or else the stored one as it loads; without either the
  // session is missing.
  lemma LooksUpExactlyWhen(b: Bounds, sessions: Cache, loaded: Option<Loaded>, id: Id, messages: seq<Message>)
    ensures id in sessions ==> Lookup(b, sessions, loaded, id) == Success(sessions[id])
    ensures id !in sessions ==>
              && (Lookup(b, sessions, loaded, id) == Success(messages) <==>
                    && Exists(loaded) && |sessions| < b.maxSessions
                    && var raws := loaded.value.value.value;
                       && |messages| == |raws| <= b.maxMessages && Total(messages) <= b.maxTotal
                       && forall k :: 0 <= k < |raws| ==> Normalize(b, raws[k]) == Success(messages[k]))
              && (loaded in {None, Some(Success(None))} ==> Lookup(b, sessions, loaded, id) == Failure(Missing))
              && (loaded.Some? && loaded.value.Failure? ==> Lookup(b, sessions, loaded, id) == Failure(StoreFailed))
  {
    if Exists(loaded) {
      HydratesExactlyWhen(b, loaded.value.value.value, messages);
    }
    hide Hydrate, Normalize;
  }

  // Over the same store and bounds a manager that has cached nothing sees what any other sees,
  // except that the other may be full; and it is full exactly when the conversation is stored, not
  // cached, and the cache has reached its limit.
  lemma FreshManagerAgrees(b: Bounds, sessions: Cache, loaded: Loaded, id: Id)
    requires b.Positive() && Written(b, sessions, loaded, id)
    ensures Lookup(b, sessions, Some(loaded), id) == Lookup(b, map[], Some(loaded), id)
            || Lookup(b, sessions, Some(loaded), id) == Failure(SessionLimit)
    ensures Lookup(b, sessions, Some(loaded), id) == Failure(SessionLimit) <==>
              id !in sessions && |sessions| >= b.maxSessions && loaded.Success? && loaded.value.Some?
    ensures Lookup(b, map[], Some(loaded), id) != Failure(SessionLimit)
  {
    if loaded.Success? && loaded.value.Some? {
      HydrateNeverFull(b, loaded.value.value);
    }
  }

  lemma {:induction false} HydrateNeverFull(b: Bounds, raws: seq<Raw>)
    ensures Hydrate(b, raws) != Failure(SessionLimit)
  {
    if raws != [] {
      HydrateNeverFull(b, raws[..|raws| - 1]);
    }
  }

  // ---------- the manager ----------

  ghost predicate GoodCache(b: Bounds, sessions: Cache) {
    |sessions| <= b.maxSessions && forall id <- sessions :: GoodConversation(b, sessions[id])
  }

  lemma PutKeepsGood(b: Bounds, sessions: Cache, id: Id, messages: seq<Message>)
    requires GoodCache(b, sessions) && GoodConversation(b, messages)
    requires id in sessions || |sessions| < b.maxSessions
    ensures GoodCache(b, sessions[id := messages])
  {
    var put := sessions[id := messages];
    assert put.Keys == sessions.Keys + {id};
    assert |put| == |put.Keys| && |sessions| == |sessions.Keys|;
    hide GoodConversation;
  }

  lemma RemoveKeepsGood(b: Bounds, sessions: Cache, id: Id)
    requires GoodCache(b, sessions)
    ensures GoodCache(b, sessions - {id})
  {
    var left := sessions - {id};
    assert left.Keys == sessions.Keys - {id};
    assert |left| == |left.Keys| && |sessions| == |sessions.Keys|;
    Fewer(left.Keys, sessions.Keys);
    hide GoodConversation;
  }

  lemma Fewer(a: set<Id>, c: set<Id>)
    requires a <= c
    ensures |a| <= |c|
  {
    assert c == a + (c - a);
  }

  lemma CachedIsGood(b: Bounds, sessions: Cache, id: Id)
    requires GoodCache(b, sessions) && id in sessions
    ensures GoodConversation(b, sessions[id])
  {
  }

  lemma EmptyIsGood(b: Bounds)
    ensures GoodConversation(b, []) && ToRaws([]) == []
  {
  }

  datatype Input = NotMapping | Mapping(raw: Raw)

  // What append_message makes of a conversation looked up as `before`, when the store `saves`.
  function Append(b: Bounds, before: Result<seq<Message>, Error>, input: Input, saves: bool): Result<seq<Message>, Error> {
    if input.NotMapping? then Failure(NotAMapping)
    else
      var normalized := Normalize(b, input.raw);
      if normalized.Failure? then Failure(normalized.error)
      else if before.Failure? then before
      else
        var admitted := Admit(b, before.value, normalized.value);
        if admitted.Success? && !saves then Failure(StoreFailed) else admitted
  }

  // An append succeeds exactly when the message is accepted, the session found, one more message and
  // its characters are within the bounds, and the store saves; it then adds that message at the end.
  lemma AppendsExactlyWhen(b: Bounds, before: Result<seq<Message>, Error>, input: Input, saves: bool)
    ensures var after := Append(b, before, input, saves);
            && (after.Success? <==>
                  && input.Mapping? && Normalize(b, input.raw).Success? && before.Success? && saves
                  && |before.value| < b.maxMessages
                  && Total(before.value) + |Normalize(b, input.raw).value.content| <= b.maxTotal)
            && (after.Success? ==> after.value == before.value + [Normalize(b, input.raw).value])
            && (before.Success? ==>
                  (after == Failure(TooManyMessages) <==>
                     input.Mapping? && Normalize(b, input.raw).Success? && |before.value| >= b.maxMessages))
  {
  }

  // The loop of get_session over the stored messages.
  method HydrateSession(b: Bounds, raws: seq<Raw>) returns (r: Result<seq<Message>, Error>)
    ensures r == Hydrate(b, raws)
    ensures r.Success? ==> GoodConversation(b, r.value)
  {
    var messages := [];
    for k := 0 to |raws|
      invariant Hydrate(b, raws[..k]) == Success(messages)
    {
      assert raws[..k + 1][..k] == raws[..k];
      var normalized := Normalize(b, raws[k]);
      var admitted := if normalized.Failure? then Failure(normalized.error) else Admit(b, messages, normalized.value);
      if admitted.Failure? {
        HydrateStops(b, raws, k + 1);
        return Failure(admitted.error);
      }
      messages := admitted.value;
    }
    assert raws[..|raws|] == raws;
    HydrateIsGood(b, raws);
    return Success(messages);
  }

  class ConversationSessionManager {
    const b: Bounds
    const store: SessionStore?
    var sessions: Cache

    ghost predicate Valid()
      reads this, store
    {
      && b.Positive() && GoodCache(b, sessions)
      && (store != null ==> store.Valid() && forall id <- sessions :: Written(b, sessions, store.Stored(id), id))
    }

    // What the store would answer now.
    ghost function Answer(id: Id, fails: bool): Option<Loaded>
      reads this, store
    {
      if store == null then None else Some(if fails then Failure(SessionPersistence.Failed) else store.Stored(id))
    }

    constructor (b: Bounds, store: SessionStore?)
      requires b.Positive() && (store != null ==> store.Valid())
      ensures Valid() && sessions == map[] && this.b == b && this.store == store
    {
      this.b, this.store := b, store;
      sessions := map[];
    }

    // create_session; session ids are fresh.
    method CreateSession(id: Id, saveFails: bool) returns (r: Result<Id, Error>)
      requires Valid() && id !in sessions
      modifies this, store
      ensures Valid()
      ensures r == if |old(sessions)| >= b.maxSessions then Failure(SessionLimit)
                   else if store != null && saveFails then Failure(StoreFailed)
                   else Success(id)
      ensures sessions == if r.Success? then old(sessions)[id := []] else old(sessions)
      ensures store != null ==> forall k :: store.Stored(k) == if r.Success? && k == id then Success(Some([])) else old(store.Stored(k))
    {
      hide GoodCache, GoodConversation, Hydrate, Normalize, Admit, ToRaws, Good, Read;
      if |sessions| >= b.maxSessions {
        return Failure(SessionLimit);
      }
      EmptyIsGood(b);
      PutKeepsGood(b, sessions, id, []);
      SavedIsWritten(b, sessions[id := []], id);
      if store != null {
        var saved := store.Save(id, [], saveFails);
        if saved.Failure? {
          return Failure(StoreFailed);
        }
      }
      sessions := sessions[id := []];
      return Success(id);
    }

    method GetSession(id: Id, loadFails: bool) returns (r: Result<seq<Message>, Error>)
      requires Valid()
      modifies this`sessions
      ensures Valid() && r == Lookup(b, old(sessions), Answer(id, loadFails), id)
      ensures sessions == if r.Success? then old(sessions)[id := r.value] else old(sessions)
      ensures r.Success? ==> GoodConversation(b, r.value)
    {
      hide GoodCache, GoodConversation, Hydrate, Normalize, Admit, ToRaws, Good, Read;
      if id in sessions {
        CachedIsGood(b, sessions, id);
        return Success(sessions[id]);
      }
      if store == null {
        return Failure(Missing);
      }
      var loaded := store.Load(id, loadFails);
      if loaded.Failure? {
        return Failure(StoreFailed);
      }
      if loaded.value.None? {
        return Failure(Missing);
      }
      if |sessions| >= b.maxSessions {
        return Failure(SessionLimit);
      }
      r := HydrateSession(b, loaded.value.value);
      if r.Success? {
        PutKeepsGood(b, sessions, id, r.value);
        sessions := sessions[id := r.value];
      }
    }

    // append_message: in memory first, undone when the save fails.
    method AppendMessage(id: Id, input: Input, loadFails: bool, saveFails: bool) returns (r: Result<(), Error>)
      requires Valid()
      modifies this, store
      ensures Valid()
      ensures store != null ==> forall k :: k != id || r.Failure? ==> store.Stored(k) == old(store.Stored(k))
      ensures var before := Lookup(b, old(sessions), old(Answer(id, loadFails)), id);
              var after := Append(b, before, input, store == null || !saveFails);
              && r == (if after.Success? then Success(()) else Failure(after.error))
              && (r.Success? ==>
                    && sessions == old(sessions)[id := after.value]
                    && after.value == before.value + [Normalize(b, input.raw).value]
                    && (store != null ==> store.Stored(id) == Success(Some(ToRaws(after.value)))))
              && (r.Failure? ==>
                    sessions == old(sessions) || (before.Success? && sessions == old(sessions)[id := before.value]))
    {
      hide GoodCache, GoodConversation, Hydrate, Normalize, Admit, ToRaws, Good, Read;
      if input.NotMapping? {
        return Failure(NotAMapping);
      }
      var normalized := Normalize(b, input.raw);
      if normalized.Failure? {
        return Failure(normalized.error);
      }
      NormalizeIsIdempotent(b, input.raw);
      var found := GetSession(id, loadFails);
      if found.Failure? {
        return Failure(found.error);
      }
      var messages := found.value;
      var admitted := Admit(b, messages, normalized.value);
      if admitted.Failure? {
        return Failure(admitted.error);
      }
      AdmitKeepsGood(b, messages, normalized.value);
      AdmitAppends(b, messages, normalized.value);
      ghost var before := sessions;
      PutKeepsGood(b, sessions, id, admitted.value);
      SavedIsWritten(b, sessions[id := admitted.value], id);
      assert sessions[id := admitted.value][id := messages] == before;
      sessions := sessions[id := admitted.value];
      if store != null {
        var saved := store.Save(id, ToRaws(sessions[id]), saveFails);
        if saved.Failure? {
          sessions := sessions[id := messages];
          return Failure(StoreFailed);
        }
      }
      return Success(());
    }

    // clear_session: in memory first, put back when the store fails.
    method ClearSession(id: Id, loadFails: bool, clearFails: bool) returns (r: Result<(), Error>)
      requires Valid()
      modifies this, store
      ensures Valid()
      ensures store != null ==> forall k :: k != id || r.Failure? ==> store.Stored(k) == old(store.Stored(k))
      ensures var before := Lookup(b, old(sessions), old(Answer(id, loadFails)), id);
              && (r.Success? <==> before.Success? && (store == null || !clearFails))
              && (r.Success? ==> sessions == old(sessions)[id := []])
              && (r.Success? && store != null ==> store.Stored(id) == Success(Some([])))
              && (r.Failure? ==> sessions == if before.Success? then old(sessions)[id := before.value] else old(sessions))
    {
      hide GoodCache, GoodConversation, Hydrate, Normalize, Admit, ToRaws, Good, Read;
      var found := GetSession(id, loadFails);
      if found.Failure? {
        return Failure(found.error);
      }
      var previous := sessions[id];
      ghost var before := sessions;
      EmptyIsGood(b);
      PutKeepsGood(b, sessions, id, []);
      SavedIsWritten(b, sessions[id := []], id);
      assert sessions[id := []][id := previous] == before;
      sessions := sessions[id := []];
      if store != null {
        var cleared := store.Clear(id, clearFails);
        if cleared.Failure? {
          sessions := sessions[id := previous];
          return Failure(StoreFailed);
        }
      }
      return Success(());
    }

    method DeleteSession(id: Id, loadFails: bool, deleteFails: bool) returns (r: Result<(), Error>)
      requires Valid()
      modifies this, store
      ensures Valid()
      ensures store != null ==> forall k :: k != id || r.Failure? ==> store.Stored(k) == old(store.Stored(k))
      ensures r.Success? ==> sessions == old(sessions) - {id} && (store != null ==> store.Stored(id) == Success(None))
      ensures r.Failure? ==> sessions == old(sessions)
      ensures r.Success? <==>
                && (id in old(sessions) || Exists(old(Answer(id, loadFails))))
                && (store == null || !deleteFails)
    {
      hide GoodCache, GoodConversation, Hydrate, Normalize, Admit, ToRaws, Good, Read;
      if id !in sessions {
        if store == null {
          return Failure(Missing);
        }
        var persisted := store.Load(id, loadFails);
        if persisted.Failure? {
          return Failure(StoreFailed);
        }
        if persisted.value.None? {
          return Failure(Missing);
        }
        var deleted := store.Delete(id, deleteFails);
        return if deleted.Failure? then Failure(StoreFailed) else Success(());
      }
      if store != null {
        var deleted := store.Delete(id, deleteFails);
        if deleted.Failure? {
          return Failure(StoreFailed);
        }
      }
      RemoveKeepsGood(b, sessions, id);
      sessions := sessions - {id};
      return Success(());
    }

    // Whether a session exists; a store that cannot answer counts as no.
    method HasSession(id: Id, loadFails: bool) returns (r: bool)
      requires Valid()
      ensures r <==> id in sessions || Exists(Answer(id, loadFails))
    {
      if id in sessions {
        return true;
      }
      if store == null {
        return false;
      }
      var loaded := store.Load(id, loadFails);
      return loaded.Success? && loaded.value.Some?;
    }
  }

  lemma {:induction false} HydrateStops(b: Bounds, raws: seq<Raw>, k: nat)
    requires k <= |raws| && Hydrate(b, raws[..k]).Failure?
    ensures Hydrate(b, raws) == Hydrate(b, raws[..k])
    decreases |raws|
  {
    if k < |raws| {
      assert raws[..|raws| - 1][..k] == raws[..k];
      HydrateStops(b, raws[..|raws| - 1], k);
    } else {
      assert raws[..k] == raws;
    }
  }
}
