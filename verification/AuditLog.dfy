/**
  The hash-chained log of audit.py.  The hash of a record's canonical text is taken as an injective
  function of the record's contents that never gives GENESIS.
 */
module AuditLog {

  type Digest = string

  const GENESIS: Digest := "0000000000000000000000000000000000000000000000000000000000000000"

  // The fields of an event, redacted details included, as one value.
  type Event = string

  // What is hashed: everything in a record but its own hash.
  datatype Body = Body(auditId: nat, event: Event, previousHash: Digest)

  datatype Record = Record(body: Body, recordHash: Digest)

  type Hash = Body -> Digest

  ghost predicate Lawful(hash: Hash) {
    && (forall x, y :: hash(x) == hash(y) ==> x == y)
    && (forall x :: hash(x) != GENESIS)
  }

  function LastHash(log: seq<Record>): Digest {
    if log == [] then GENESIS else log[|log| - 1].recordHash
  }

  // A record that continues a log.
  predicate Continues(hash: Hash, log: seq<Record>, r: Record) {
    r.body.previousHash == LastHash(log) && r.recordHash == hash(r.body)
  }

  ghost predicate Verifies(hash: Hash, log: seq<Record>) {
    forall k :: 0 <= k < |log| ==> Continues(hash, log[..k], log[k])
  }

  // ---------- the log ----------

  class AppendOnlyAuditLog {
    const hash: Hash
    var file: seq<Record>

    constructor (hash: Hash)
      ensures file == [] && this.hash == hash
    {
      this.hash := hash;
      file := [];
    }

    // The whole file is read; the last record counts.
    method ReadLastHash() returns (last: Digest)
      ensures last == LastHash(file)
    {
      last := GENESIS;
      for k := 0 to |file|
        invariant last == LastHash(file[..k])
      {
        last := file[k].recordHash;
      }
      assert file[..|file|] == file;
    }

    method Write(auditId: nat, event: Event, previousHash: Digest) returns (record: Record)
      modifies this
      ensures file == old(file) + [record]
      ensures record.body == Body(auditId, event, previousHash) && record.recordHash == hash(record.body)
    {
      var body := Body(auditId, event, previousHash);
      record := Record(body, hash(body));
      file := file + [record];
    }

    // With no other append in between, the log verifies after the append exactly when it did before.
    method Append(auditId: nat, event: Event) returns (record: Record)
      modifies this
      ensures file == old(file) + [record] && record.body == Body(auditId, event, LastHash(old(file)))
      ensures Verifies(hash, file) <==> Verifies(hash, old(file))
    {
      var previousHash := ReadLastHash();
      record := Write(auditId, event, previousHash);
      ExtensionVerifies(hash, old(file), record);
    }

    method VerifyChain() returns (ok: bool)
      ensures ok <==> Verifies(hash, file)
    {
      var previous := GENESIS;
      for k := 0 to |file|
        invariant Verifies(hash, file[..k]) && previous == LastHash(file[..k])
      {
        var record := file[k];
        if record.body.previousHash != previous {
          return false;
        }
        var claimed := record.recordHash;
        if claimed != hash(record.body) {
          return false;
        }
        ExtensionVerifies(hash, file[..k], record);
        assert file[..k + 1] == file[..k] + [record];
        previous := claimed;
      }
      assert file[..|file|] == file;
      return true;
    }
  }

  lemma ExtensionVerifies(hash: Hash, log: seq<Record>, r: Record)
    ensures Verifies(hash, log + [r]) <==> Verifies(hash, log) && Continues(hash, log, r)
  {
    var longer := log + [r];
    assert longer[..|log|] == log;
    assert forall k :: 0 <= k < |log| ==> longer[..k] == log[..k];
  }

  // ---------- what a verifying log pins down ----------

  // The last hash determines the whole of a verifying log, so no other log that verifies, whatever
  // its length, ends in the same hash.
  lemma {:induction false} LastHashDeterminesLog(hash: Hash, a: seq<Record>, b: seq<Record>)
    requires Lawful(hash) && Verifies(hash, a) && Verifies(hash, b) && LastHash(a) == LastHash(b)
    ensures a == b
  {
    LastIsHash(hash, a);
    LastIsHash(hash, b);
    if a != [] && b != [] {
      var (m, n) := (|a| - 1, |b| - 1);
      assert Continues(hash, a[..m], a[m]) && Continues(hash, b[..n], b[n]);
      assert a[m] == b[n];
      PrefixVerifies(hash, a, m);
      PrefixVerifies(hash, b, n);
      LastHashDeterminesLog(hash, a[..m], b[..n]);
      assert a == a[..m] + [a[m]] && b == b[..n] + [b[n]];
    }
  }

  lemma LastIsHash(hash: Hash, log: seq<Record>)
    requires Verifies(hash, log)
    ensures log != [] ==> LastHash(log) == hash(log[|log| - 1].body)
  {
    if log != [] {
      assert Continues(hash, log[..|log| - 1], log[|log| - 1]);
    }
  }

  // A log cut short still verifies: only its last hash tells.
  lemma PrefixVerifies(hash: Hash, log: seq<Record>, k: nat)
    requires Verifies(hash, log) && k <= |log|
    ensures Verifies(hash, log[..k])
  {
    assert forall j :: 0 <= j < k ==> log[..k][..j] == log[..j];
  }

  // ---------- concurrent appends ----------

  // An append takes no lock: it reads the last hash, and later writes.  `pending` holds, for each
  // thread between the two, how long the log was when it read; `readAt` the same for every record
  // written.
  datatype Shared = Shared(file: seq<Record>, pending: map<nat, nat>, readAt: seq<nat>)

  datatype Step = Reads(thread: nat) | Writes(thread: nat, auditId: nat, event: Event)

  ghost predicate Enabled(s: Shared, step: Step) {
    match step
    case Reads(t) => t !in s.pending
    case Writes(t, id, _) =>
      t in s.pending && s.pending[t] <= |s.file| && forall r <- s.file :: r.body.auditId != id
  }

  function Apply(hash: Hash, s: Shared, step: Step): Shared
    requires step.Writes? ==> step.thread in s.pending && s.pending[step.thread] <= |s.file|
  {
    match step
    case Reads(t) => s.(pending := s.pending[t := |s.file|])
    case Writes(t, id, event) =>
      var body := Body(id, event, LastHash(s.file[..s.pending[t]]));
      Shared(s.file + [Record(body, hash(body))], s.pending - {t}, s.readAt + [s.pending[t]])
  }

  const START := Shared([], map[], [])

  ghost predicate Runs(hash: Hash, s: Shared, steps: seq<Step>)
    decreases |steps|
  {
    steps == [] || (Enabled(s, steps[0]) && Runs(hash, Apply(hash, s, steps[0]), steps[1..]))
  }

  ghost function After(hash: Hash, s: Shared, steps: seq<Step>): Shared
    requires Runs(hash, s, steps)
    decreases |steps|
  {
    if steps == [] then s else After(hash, Apply(hash, s, steps[0]), steps[1..])
  }

  ghost predicate Inv(hash: Hash, s: Shared) {
    && |s.readAt| == |s.file|
    && (forall t <- s.pending :: s.pending[t] <= |s.file|)
    && (forall k :: 0 <= k < |s.file| ==>
          && s.readAt[k] <= k
          && s.file[k].body.previousHash == LastHash(s.file[..s.readAt[k]])
          && s.file[k].recordHash == hash(s.file[k].body))
    && (forall i, j :: 0 <= i < j < |s.file| ==> s.file[i].body.auditId != s.file[j].body.auditId)
  }

  lemma StepKeepsInv(hash: Hash, s: Shared, step: Step)
    requires Inv(hash, s) && Enabled(s, step)
    ensures Inv(hash, Apply(hash, s, step))
  {
    if step.Writes? {
      var t := Apply(hash, s, step);
      assert forall n :: 0 <= n <= |s.file| ==> t.file[..n] == s.file[..n];
    }
  }

  lemma {:induction false} RunKeepsInv(hash: Hash, s: Shared, steps: seq<Step>)
    requires Inv(hash, s) && Runs(hash, s, steps)
    ensures Inv(hash, After(hash, s, steps))
    decreases |steps|
  {
    hide Inv, Apply;
    if steps != [] {
      StepKeepsInv(hash, s, steps[0]);
      RunKeepsInv(hash, Apply(hash, s, steps[0]), steps[1..]);
    }
  }

  // Over every interleaving of appends with unique ids: the log verifies exactly when every record
  // was written to the log its append had read, with no other write in between.
  lemma VerifiesExactlyWhenSerial(hash: Hash, steps: seq<Step>)
    requires Lawful(hash) && Runs(hash, START, steps)
    ensures var s := After(hash, START, steps);
            |s.readAt| == |s.file| && (Verifies(hash, s.file) <==> forall k :: 0 <= k < |s.file| ==> s.readAt[k] == k)
  {
    RunKeepsInv(hash, START, steps);
    var s := After(hash, START, steps);
    hide Runs, After, Lawful;
    forall k | 0 <= k < |s.file| ensures Continues(hash, s.file[..k], s.file[k]) <==> s.readAt[k] == k {
      PrefixHashesDiffer(hash, s, s.readAt[k], k);
    }
  }

  // The last hash tells every two lengths of the log apart.
  lemma PrefixHashesDiffer(hash: Hash, s: Shared, i: nat, k: nat)
    requires Lawful(hash) && Inv(hash, s) && i <= k <= |s.file|
    ensures LastHash(s.file[..i]) == LastHash(s.file[..k]) <==> i == k
  {
    hide Inv;
    if i < k {
      PrefixHash(hash, s, k);
      PrefixHash(hash, s, i);
      if i > 0 {
        UniqueIds(hash, s, i - 1, k - 1);
      }
    }
  }

  lemma PrefixHash(hash: Hash, s: Shared, k: nat)
    requires Inv(hash, s) && k <= |s.file|
    ensures LastHash(s.file[..k]) == if k == 0 then GENESIS else hash(s.file[k - 1].body)
  {
  }

  lemma UniqueIds(hash: Hash, s: Shared, i: nat, j: nat)
    requires Inv(hash, s) && i < j < |s.file|
    ensures s.file[i].body.auditId != s.file[j].body.auditId
  {
  }

  function Race(first: Event, second: Event): seq<Step> {
    [Reads(0), Reads(1), Writes(0, 0, first), Writes(1, 1, second)]
  }

  lemma RaceRuns(hash: Hash, first: Event, second: Event)
    ensures Runs(hash, START, Race(first, second))
    ensures After(hash, START, Race(first, second)).readAt == [0, 0]
  {
    var r0, r1, w0, w1 := Reads(0), Reads(1), Writes(0, 0, first), Writes(1, 1, second);
    var s1 := Apply(hash, START, r0);
    var s2 := Apply(hash, s1, r1);
    var s3 := Apply(hash, s2, w0);
    var s4 := Apply(hash, s3, w1);
    assert s2 == Shared([], map[0 := 0, 1 := 0], []);
    assert s4.readAt == [0, 0];
    hide Apply;
    assert [r0, r1, w0, w1][1..] == [r1, w0, w1] && [r1, w0, w1][1..] == [w0, w1] && [w0, w1][1..] == [w1] && [w1][1..] == [];
    assert Runs(hash, s3, [w1]) && After(hash, s3, [w1]) == s4;
    assert Runs(hash, s2, [w0, w1]) && After(hash, s2, [w0, w1]) == s4;
    assert Runs(hash, s1, [r1, w0, w1]) && After(hash, s1, [r1, w0, w1]) == s4;
  }

  // Two appends that both read before either writes leave a log that does not verify.
  lemma RacingAppendsBreakChain(hash: Hash, first: Event, second: Event)
    requires Lawful(hash)
    ensures Runs(hash, START, Race(first, second))
    ensures !Verifies(hash, After(hash, START, Race(first, second)).file)
  {
    RaceRuns(hash, first, second);
    VerifiesExactlyWhenSerial(hash, Race(first, second));
    hide *;
    assert After(hash, START, Race(first, second)).readAt[1] == 0;
  }
}
