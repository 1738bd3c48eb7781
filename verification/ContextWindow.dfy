/**
  Context selection of context_manager.py: the newest messages that fit a message and a character
  budget, as the greatest of all selections that fit.
 */
module ContextWindow {
  import opened SessionPersistence
  import opened Strings
  import opened Wrappers

  datatype Error = BadRole | BadContent | EmptyContent | BadName

  // A normalized message; unlike a stored one it keeps its spaces.
  datatype Message = Message(role: string, content: string, name: Option<string>)

  function Normalize(raw: Raw): Result<Message, Error> {
    if "role" !in raw || !raw["role"].Text? || Strip(raw["role"].text) == "" then Failure(BadRole)
    else if "content" !in raw || !raw["content"].Text? then Failure(BadContent)
    else if raw["content"].text == "" then Failure(EmptyContent)
    else if "name" !in raw then Success(Message(raw["role"].text, raw["content"].text, None))
    else if !raw["name"].Text? || Strip(raw["name"].text) == "" then Failure(BadName)
    else Success(Message(raw["role"].text, raw["content"].text, Some(raw["name"].text)))
  }

  function ToRaw(m: Message): Raw {
    var raw: Raw := map["role" := Text(m.role), "content" := Text(m.content)];
    if m.name.Some? then raw["name" := Text(m.name.value)] else raw
  }

  lemma NormalizeIsIdempotent(raw: Raw)
    ensures Normalize(raw).Success? ==> Normalize(ToRaw(Normalize(raw).value)) == Normalize(raw)
  {
    hide Strip;
  }

  // Which messages are accepted, and as what: unchanged, with a role and a name that are not blank and
  // some content.
  lemma NormalizesExactlyWhen(raw: Raw, m: Message)
    ensures Normalize(raw) == Success(m) <==>
              && "role" in raw && raw["role"] == Text(m.role) && !AllSpaces(m.role)
              && "content" in raw && raw["content"] == Text(m.content) && m.content != ""
              && ("name" in raw <==> m.name.Some?)
              && (m.name.Some? ==> raw["name"] == Text(m.name.value) && !AllSpaces(m.name.value))
  {
    forall s: string ensures Strip(s) == "" <==> AllSpaces(s) {
      BlankExactlyWhen(s);
    }
    hide Strip, AllSpaces;
  }

  // All messages normalized, or the first one's error.
  function NormalizeAll(raws: seq<Raw>): Result<seq<Message>, Error> {
    if raws == [] then Success([])
    else
      var before := NormalizeAll(raws[..|raws| - 1]);
      if before.Failure? then before
      else
        var m := Normalize(raws[|raws| - 1]);
        if m.Failure? then Failure(m.error) else Success(before.value + [m.value])
  }

  function ToRaws(messages: seq<Message>): (raws: seq<Raw>)
    ensures |raws| == |messages| && forall k :: 0 <= k < |raws| ==> raws[k] == ToRaw(messages[k])
  {
    seq(|messages|, k requires 0 <= k < |messages| => ToRaw(messages[k]))
  }

  // ---------- selections ----------

  // One flag for every message, kept or not.
  type Selection = seq<bool>

  function Kept(messages: seq<Message>, kept: Selection): (selected: seq<Message>)
    requires |messages| == |kept|
    ensures |selected| <= |messages|
  {
    if messages == [] then []
    else
      var n := |messages| - 1;
      var before := Kept(messages[..n], kept[..n]);
      if kept[n] then before + [messages[n]] else before
  }

  function Total(messages: seq<Message>): nat {
    if messages == [] then 0 else Total(messages[..|messages| - 1]) + |messages[|messages| - 1].content|
  }

  ghost predicate Fits(messages: seq<Message>, kept: Selection, maxMessages: nat, maxCharacters: nat) {
    && |kept| == |messages|
    && |Kept(messages, kept)| <= maxMessages && Total(Kept(messages, kept)) <= maxCharacters
  }

  // Newest first: at the newest message on which they differ, b keeps it and a does not.
  ghost predicate Below(a: Selection, b: Selection) {
    |a| == |b| && exists k :: 0 <= k < |a| && !a[k] && b[k] && a[k + 1..] == b[k + 1..]
  }

  // The loop's choice, from the newest message back.
  function Greedy(messages: seq<Message>, maxMessages: nat, maxCharacters: nat): (kept: Selection)
    ensures |kept| == |messages|
  {
    if messages == [] then []
    else
      var n := |messages| - 1;
      var length := |messages[n].content|;
      if maxMessages > 0 && length <= maxCharacters
      then Greedy(messages[..n], maxMessages - 1, maxCharacters - length) + [true]
      else Greedy(messages[..n], maxMessages, maxCharacters) + [false]
  }

  lemma KeptStep(messages: seq<Message>, kept: Selection, m: Message, keep: bool)
    requires |messages| == |kept|
    ensures Kept(messages + [m], kept + [keep]) == Kept(messages, kept) + if keep then [m] else []
  {
    assert (messages + [m])[..|messages|] == messages && (kept + [keep])[..|kept|] == kept;
  }

  // A selection that fits, split at the newest message: what is left fits what is left.
  lemma FitsSplit(messages: seq<Message>, kept: Selection, maxMessages: nat, maxCharacters: nat)
    requires messages != [] && |kept| == |messages|
    ensures var n := |messages| - 1;
            var length := |messages[n].content|;
            Fits(messages, kept, maxMessages, maxCharacters) <==>
            if kept[n] then
              maxMessages > 0 && length <= maxCharacters
              && Fits(messages[..n], kept[..n], maxMessages - 1, maxCharacters - length)
            else Fits(messages[..n], kept[..n], maxMessages, maxCharacters)
  {
    var n := |messages| - 1;
    KeptStep(messages[..n], kept[..n], messages[n], kept[n]);
    assert messages[..n] + [messages[n]] == messages && kept[..n] + [kept[n]] == kept;
  }

  lemma {:induction false} GreedyFits(messages: seq<Message>, maxMessages: nat, maxCharacters: nat)
    ensures Fits(messages, Greedy(messages, maxMessages, maxCharacters), maxMessages, maxCharacters)
  {
    if messages != [] {
      var n := |messages| - 1;
      var length := |messages[n].content|;
      var kept := Greedy(messages, maxMessages, maxCharacters);
      if maxMessages > 0 && length <= maxCharacters {
        GreedyFits(messages[..n], maxMessages - 1, maxCharacters - length);
        assert kept[..n] == Greedy(messages[..n], maxMessages - 1, maxCharacters - length);
      } else {
        GreedyFits(messages[..n], maxMessages, maxCharacters);
        assert kept[..n] == Greedy(messages[..n], maxMessages, maxCharacters);
      }
      FitsSplit(messages, kept, maxMessages, maxCharacters);
    }
  }

  lemma BelowExtends(a: Selection, b: Selection, last: bool)
    requires Below(a, b)
    ensures Below(a + [last], b + [last])
  {
    var k :| 0 <= k < |a| && !a[k] && b[k] && a[k + 1..] == b[k + 1..];
    var x, y := a + [last], b + [last];
    assert x[k + 1..] == a[k + 1..] + [last] && y[k + 1..] == b[k + 1..] + [last];
    assert !x[k] && y[k];
  }

  // Every other selection that fits is below the greedy one.
  lemma {:induction false} GreedyIsGreatest(messages: seq<Message>, kept: Selection, maxMessages: nat, maxCharacters: nat)
    requires Fits(messages, kept, maxMessages, maxCharacters)
    ensures var greedy := Greedy(messages, maxMessages, maxCharacters); kept == greedy || Below(kept, greedy)
  {
    hide Kept, Below, Fits, Total;
    FitsLength(messages, kept, maxMessages, maxCharacters);
    if messages != [] {
      var n := |messages| - 1;
      var greedy := Greedy(messages, maxMessages, maxCharacters);
      FitsSplit(messages, kept, maxMessages, maxCharacters);
      assert kept == kept[..n] + [kept[n]] && greedy == greedy[..n] + [greedy[n]];
      if greedy[n] && !kept[n] {
        NewestDiffers(kept, greedy);
      } else {
        var m := if kept[n] then maxMessages - 1 else maxMessages;
        var c := if kept[n] then maxCharacters - |messages[n].content| else maxCharacters;
        GreedyIsGreatest(messages[..n], kept[..n], m, c);
        if kept[..n] != greedy[..n] {
          BelowExtends(kept[..n], greedy[..n], kept[n]);
        }
      }
    }
  }

  lemma FitsLength(messages: seq<Message>, kept: Selection, maxMessages: nat, maxCharacters: nat)
    requires Fits(messages, kept, maxMessages, maxCharacters)
    ensures |kept| == |messages|
  {
  }

  lemma NewestDiffers(a: Selection, b: Selection)
    requires |a| == |b| > 0 && !a[|a| - 1] && b[|b| - 1]
    ensures Below(a, b)
  {
    assert a[|a| - 1 + 1..] == b[|a| - 1 + 1..];
  }

  // Nothing is dropped exactly when everything fits.
  lemma {:induction false} KeepsAllExactlyWhen(messages: seq<Message>, maxMessages: nat, maxCharacters: nat)
    ensures var kept := Kept(messages, Greedy(messages, maxMessages, maxCharacters));
            && (|messages| <= maxMessages && Total(messages) <= maxCharacters ==> kept == messages)
            && (|kept| == |messages| ==> kept == messages && |messages| <= maxMessages && Total(messages) <= maxCharacters)
  {
    if messages != [] {
      var n := |messages| - 1;
      var length := |messages[n].content|;
      assert messages[..n] + [messages[n]] == messages;
      if maxMessages > 0 && length <= maxCharacters {
        KeepsAllExactlyWhen(messages[..n], maxMessages - 1, maxCharacters - length);
        KeptStep(messages[..n], Greedy(messages[..n], maxMessages - 1, maxCharacters - length), messages[n], true);
      } else {
        KeptStep(messages[..n], Greedy(messages[..n], maxMessages, maxCharacters), messages[n], false);
      }
    }
  }

  // ---------- the snapshot ----------

  datatype Snapshot = Snapshot(messages: seq<Message>, messageCount: nat, characterCount: nat, truncated: bool, dropped: nat)

  function SnapshotOf(messages: seq<Message>, maxMessages: nat, maxCharacters: nat): Snapshot {
    var selected := Kept(messages, Greedy(messages, maxMessages, maxCharacters));
    Snapshot(selected, |selected|, Total(selected), |selected| < |messages|, |messages| - |selected|)
  }

  function Reversed(messages: seq<Message>): seq<Message> {
    if messages == [] then [] else Reversed(messages[1..]) + [messages[0]]
  }

  lemma {:induction false} ReversedStep(messages: seq<Message>, m: Message)
    ensures Reversed(messages + [m]) == [m] + Reversed(messages)
  {
    if messages == [] {
      assert [] + [m] == [m];
    } else {
      ReversedStep(messages[1..], m);
      assert (messages + [m])[1..] == messages[1..] + [m];
    }
  }

  method BuildContext(conversation: seq<Raw>, maxMessages: nat, maxCharacters: nat) returns (r: Result<Snapshot, Error>)
    requires maxMessages > 0 && maxCharacters > 0
    ensures r.Failure? <==> NormalizeAll(conversation).Failure?
    ensures r.Failure? ==> r.error == NormalizeAll(conversation).error
    ensures r.Success? ==> r.value == SnapshotOf(NormalizeAll(conversation).value, maxMessages, maxCharacters)
  {
    var normalized := [];
    for k := 0 to |conversation|
      invariant NormalizeAll(conversation[..k]) == Success(normalized)
    {
      assert conversation[..k + 1][..k] == conversation[..k];
      var m := Normalize(conversation[k]);
      if m.Failure? {
        FirstError(conversation, k + 1);
        return Failure(m.error);
      }
      normalized := normalized + [m.value];
    }
    assert conversation[..|conversation|] == conversation;
    hide NormalizeAll, Normalize;
    if normalized == [] {
      return Success(Snapshot([], 0, 0, false, 0));
    }
    var selected, count := Choose(normalized, maxMessages, maxCharacters);
    var dropped := |normalized| - |selected|;
    return Success(Snapshot(selected, |selected|, count, dropped > 0, dropped));
  }

  lemma {:induction false} FirstError(raws: seq<Raw>, k: nat)
    requires k <= |raws| && NormalizeAll(raws[..k]).Failure?
    ensures NormalizeAll(raws) == NormalizeAll(raws[..k])
    decreases |raws|
  {
    if k == |raws| {
      assert raws[..k] == raws;
    } else {
      assert raws[..|raws| - 1][..k] == raws[..k];
      FirstError(raws[..|raws| - 1], k);
    }
  }

  // The loop over the messages, newest first; it breaks when the message budget is spent and skips
  // whatever does not fit the characters left.
  method Choose(messages: seq<Message>, maxMessages: nat, maxCharacters: nat) returns (selected: seq<Message>, count: nat)
    ensures selected == Kept(messages, Greedy(messages, maxMessages, maxCharacters)) && count == Total(selected)
  {
    hide *;
    var reversed: seq<Message> := [];
    count := 0;
    var i := |messages|;
    // What the rest of the loop will put before what it has chosen.
    ghost var after: seq<Message> := [];
    assert messages[..i] == messages;
    NothingChosen();
    assert Chosen(messages, maxMessages, maxCharacters) + after == Chosen(messages, maxMessages, maxCharacters);
    while i > 0 && |reversed| < maxMessages
      invariant 0 <= i <= |messages| && |reversed| <= maxMessages && count <= maxCharacters
      invariant count == Total(after) && after == Reversed(reversed)
      invariant Chosen(messages, maxMessages, maxCharacters) ==
                Chosen(messages[..i], maxMessages - |reversed|, maxCharacters - count) + after
    {
      i := i - 1;
      var message := messages[i];
      assert messages[..i + 1] == messages[..i] + [message];
      ChooseStep(messages[..i], message, maxMessages - |reversed|, maxCharacters - count);
      if |message.content| > maxCharacters || count + |message.content| > maxCharacters {
        continue;
      }
      ReversedStep(reversed, message);
      TotalPrepend(message, after);
      reversed := reversed + [message];
      count := count + |message.content|;
      after := [message] + after;
    }
    NothingLeft(messages[..i], maxMessages - |reversed|, maxCharacters - count);
    ChosenIs(messages, maxMessages, maxCharacters);
    selected := Reverse(reversed);
    assert [] + after == after;
  }

  ghost function Chosen(messages: seq<Message>, maxMessages: nat, maxCharacters: nat): seq<Message> {
    Kept(messages, Greedy(messages, maxMessages, maxCharacters))
  }

  lemma ChosenIs(messages: seq<Message>, maxMessages: nat, maxCharacters: nat)
    ensures Chosen(messages, maxMessages, maxCharacters) == Kept(messages, Greedy(messages, maxMessages, maxCharacters))
  {
  }

  lemma NothingChosen()
    ensures Total([]) == 0 && Reversed([]) == []
  {
  }

  method Reverse(messages: seq<Message>) returns (r: seq<Message>)
    ensures r == Reversed(messages)
  {
    r := [];
    for k := 0 to |messages|
      invariant r == Reversed(messages[..k])
    {
      assert messages[..k + 1] == messages[..k] + [messages[k]];
      ReversedStep(messages[..k], messages[k]);
      r := [messages[k]] + r;
    }
    assert messages[..|messages|] == messages;
  }

  lemma ChooseStep(before: seq<Message>, m: Message, maxMessages: nat, maxCharacters: nat)
    requires maxMessages > 0
    ensures Chosen(before + [m], maxMessages, maxCharacters) ==
            if |m.content| <= maxCharacters then Chosen(before, maxMessages - 1, maxCharacters - |m.content|) + [m]
            else Chosen(before, maxMessages, maxCharacters)
  {
    assert (before + [m])[..|before|] == before;
    if |m.content| <= maxCharacters {
      KeptStep(before, Greedy(before, maxMessages - 1, maxCharacters - |m.content|), m, true);
    } else {
      KeptStep(before, Greedy(before, maxMessages, maxCharacters), m, false);
    }
  }

  lemma {:induction false} TotalPrepend(m: Message, messages: seq<Message>)
    ensures Total([m] + messages) == |m.content| + Total(messages)
  {
    if messages == [] {
      assert [m] + [] == [m] && [m][..0] == [];
      assert Total([m]) == Total([]) + |m.content|;
    } else {
      var n := |messages| - 1;
      TotalPrepend(m, messages[..n]);
      assert ([m] + messages)[..n + 1] == [m] + messages[..n];
    }
  }

  lemma {:induction false} NothingLeft(messages: seq<Message>, maxMessages: nat, maxCharacters: nat)
    requires messages == [] || maxMessages == 0
    ensures Chosen(messages, maxMessages, maxCharacters) == []
  {
    if messages != [] {
      var n := |messages| - 1;
      NothingLeft(messages[..n], maxMessages, maxCharacters);
      KeptStep(messages[..n], Greedy(messages[..n], maxMessages, maxCharacters), messages[n], false);
      assert messages[..n] + [messages[n]] == messages;
    }
  }

  // Selecting again from a snapshot changes nothing.
  lemma SelectionIsIdempotent(messages: seq<Message>, maxMessages: nat, maxCharacters: nat)
    ensures var once := SnapshotOf(messages, maxMessages, maxCharacters);
            var twice := SnapshotOf(once.messages, maxMessages, maxCharacters);
            && twice.messages == once.messages && twice.characterCount == once.characterCount && !twice.truncated
            && once.messages == Kept(messages, Greedy(messages, maxMessages, maxCharacters))
            && once.messageCount == |once.messages| && once.characterCount == Total(once.messages)
            && once.messageCount + once.dropped == |messages|
            && once.messageCount <= maxMessages && once.characterCount <= maxCharacters
            && (once.truncated <==> !(|messages| <= maxMessages && Total(messages) <= maxCharacters))
  {
    GreedyFits(messages, maxMessages, maxCharacters);
    KeepsAllExactlyWhen(messages, maxMessages, maxCharacters);
    KeepsAllExactlyWhen(SnapshotOf(messages, maxMessages, maxCharacters).messages, maxMessages, maxCharacters);
  }

  lemma {:induction false} NormalizedAgain(raws: seq<Raw>)
    ensures NormalizeAll(raws).Success? ==> forall m <- NormalizeAll(raws).value :: Normalize(ToRaw(m)) == Success(m)
  {
    hide Normalize, ToRaw;
    if raws != [] && NormalizeAll(raws).Success? {
      NormalizedAgain(raws[..|raws| - 1]);
      NormalizeIsIdempotent(raws[|raws| - 1]);
    }
  }

  lemma {:induction false} NormalizesBack(messages: seq<Message>)
    requires forall m <- messages :: Normalize(ToRaw(m)) == Success(m)
    ensures NormalizeAll(ToRaws(messages)) == Success(messages)
  {
    hide Normalize, ToRaw;
    if messages != [] {
      var n := |messages| - 1;
      NormalizesBack(messages[..n]);
      assert ToRaws(messages)[..n] == ToRaws(messages[..n]);
      assert messages[..n] + [messages[n]] == messages;
    }
  }

  lemma {:induction false} KeptAreMessages(messages: seq<Message>, kept: Selection)
    requires |messages| == |kept|
    ensures forall m <- Kept(messages, kept) :: m in messages
  {
    if messages != [] {
      var n := |messages| - 1;
      KeptAreMessages(messages[..n], kept[..n]);
    }
  }

  // Building a context from a context's own messages gives them back, nothing dropped.
  lemma BuildIsIdempotent(raws: seq<Raw>, maxMessages: nat, maxCharacters: nat)
    requires NormalizeAll(raws).Success?
    ensures var once := SnapshotOf(NormalizeAll(raws).value, maxMessages, maxCharacters);
            var again := NormalizeAll(ToRaws(once.messages));
            && again == Success(once.messages)
            && SnapshotOf(again.value, maxMessages, maxCharacters) == once.(truncated := false, dropped := 0)
  {
    var messages := NormalizeAll(raws).value;
    var once := SnapshotOf(messages, maxMessages, maxCharacters);
    NormalizedAgain(raws);
    KeptAreMessages(messages, Greedy(messages, maxMessages, maxCharacters));
    NormalizesBack(once.messages);
    SelectionIsIdempotent(messages, maxMessages, maxCharacters);
    hide NormalizeAll, Normalize, ToRaw, Greedy;
  }
}
