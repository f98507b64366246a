/** TLS records (sections 5.1 and 5.2 of RFC 8446) in a byte stream that arrives in chunks. */
module RecordSpec {
  import opened Bytes
  import opened Sequences

  const APPLICATION_DATA: byte := 0x17
  const AEAD_TAG_LEN: nat := 16
  /** The low length byte that makes the proxy skip a record. */
  const SKIPPED_LENGTH: byte := 53

  // Framing.

  /** The length of the record at the start of `s`, with its header of type, version and length. */
  function RecordLength(s: bytes): (n: nat)
    requires |s| >= 5
    ensures n >= 5
  {
    5 + 256 * ByteValue(s[3]) + ByteValue(s[4])
  }

  predicate HasRecord(s: bytes) {
    |s| >= 5 && RecordLength(s) <= |s|
  }

  /** The complete records at the start of `s`. */
  function Records(s: bytes): (records: seq<bytes>)
    ensures forall i | 0 <= i < |records| :: |records[i]| >= 5
    decreases |s|
  {
    if !HasRecord(s) then [] else [s[..RecordLength(s)]] + Records(s[RecordLength(s)..])
  }

  /** What remains after the complete records. */
  function Residual(s: bytes): (rest: bytes)
    ensures !HasRecord(rest) && |rest| <= |s|
    decreases |s|
  {
    if !HasRecord(s) then s else Residual(s[RecordLength(s)..])
  }

  /** Nothing is lost: the stream is its records and the incomplete rest. */
  lemma {:induction false} RecordsAndRest(s: bytes)
    ensures Flatten(Records(s)) + Residual(s) == s
    decreases |s|
  {
    if HasRecord(s) {
      var n := RecordLength(s);
      RecordsAndRest(s[n..]);
      assert s[..n] + s[n..] == s;
      Regroup(s[..n], Records(s[n..]), Residual(s), s[n..], Records(s), s);
    } else {
      assert Flatten(Records(s)) + s == s;
    }
  }

  lemma Regroup(head: bytes, records: seq<bytes>, rest: bytes, tail: bytes, all: seq<bytes>, s: bytes)
    requires all == [head] + records && s == head + tail && Flatten(records) + rest == tail
    ensures Flatten(all) + rest == s
  {
    FlattenCons(head, records);
    Associates(head, Flatten(records), rest);
  }

  /** The bytes of the records, headers included. */
  function TotalLength(records: seq<bytes>): nat {
    if records == [] then 0 else |records[0]| + TotalLength(records[1..])
  }

  lemma {:induction false} FlattenLength(records: seq<bytes>)
    ensures |Flatten(records)| == TotalLength(records)
  {
    if records != [] {
      FlattenLength(records[1..]);
    }
  }

  lemma {:induction false} TotalLengthConcat(a: seq<bytes>, b: seq<bytes>)
    ensures TotalLength(a + b) == TotalLength(a) + TotalLength(b)
  {
    if a == [] {
      assert a + b == b;
    } else {
      assert (a + b)[0] == a[0] && (a + b)[1..] == a[1..] + b;
      TotalLengthConcat(a[1..], b);
    }
  }

  lemma HasRecordMore(a: bytes, b: bytes)
    requires HasRecord(a)
    ensures HasRecord(a + b) && RecordLength(a + b) == RecordLength(a)
    ensures (a + b)[..RecordLength(a)] == a[..RecordLength(a)]
    ensures (a + b)[RecordLength(a)..] == a[RecordLength(a)..] + b
  {
  }

  /** Framing a longer stream continues from the residual of the shorter one. */
  lemma {:induction false} FramingContinues(a: bytes, b: bytes)
    ensures Records(a + b) == Records(a) + Records(Residual(a) + b)
    ensures Residual(a + b) == Residual(Residual(a) + b)
    decreases |a|
  {
    if HasRecord(a) {
      HasRecordMore(a, b);
      FramingContinues(a[RecordLength(a)..], b);
    }
  }

  // What is taken out of a record.

  /** The ciphertext of an application-data record, without its tag. */
  function Stripped(record: bytes): bytes
    requires |record| >= 5
  {
    if record[0] == APPLICATION_DATA && |record| - 5 >= AEAD_TAG_LEN then record[5..|record| - AEAD_TAG_LEN] else []
  }

  predicate Skipped(record: bytes)
    requires |record| >= 5
  {
    record[4] == SKIPPED_LENGTH
  }

  type Record = r: bytes | |r| >= 5 witness [0, 0, 0, 0, 0]

  function AllStripped(records: seq<Record>): bytes {
    if records == [] then [] else Stripped(records[0]) + AllStripped(records[1..])
  }

  /** The filter applied record by record. */
  function PerRecord(records: seq<Record>): bytes {
    if records == [] then [] else (if Skipped(records[0]) then [] else Stripped(records[0])) + PerRecord(records[1..])
  }

  /** The filter as one call of the proxy applies it to the records of its buffer: the low length
      byte of the FIRST record decides for all of them. */
  function Batch(records: seq<Record>): bytes {
    if records == [] || Skipped(records[0]) then [] else AllStripped(records)
  }

  lemma {:induction false} PerRecordConcat(a: seq<Record>, b: seq<Record>)
    ensures PerRecord(a + b) == PerRecord(a) + PerRecord(b)
  {
    if a == [] {
      assert a + b == b;
    } else {
      assert (a + b)[0] == a[0] && (a + b)[1..] == a[1..] + b;
      PerRecordConcat(a[1..], b);
      Associates(if Skipped(a[0]) then [] else Stripped(a[0]), PerRecord(a[1..]), PerRecord(b));
    }
  }

  // Runs over chunks.

  datatype Run = Run(pending: bytes, outputs: seq<bytes>)

  /** Each chunk is appended to the pending bytes, and the complete records are drained. */
  function RunFrom(pending: bytes, chunks: seq<bytes>): Run
    decreases |chunks|
  {
    if chunks == [] then Run(pending, [])
    else
      var buffer := pending + chunks[0];
      var later := RunFrom(Residual(buffer), chunks[1..]);
      Run(later.pending, [Batch(Records(buffer))] + later.outputs)
  }

  function Output(pending: bytes, chunks: seq<bytes>): bytes {
    Flatten(RunFrom(pending, chunks).outputs)
  }

  lemma {:induction false} RunConcat(pending: bytes, a: seq<bytes>, b: seq<bytes>)
    ensures RunFrom(pending, a + b).pending == RunFrom(RunFrom(pending, a).pending, b).pending
    ensures RunFrom(pending, a + b).outputs == RunFrom(pending, a).outputs + RunFrom(RunFrom(pending, a).pending, b).outputs
    decreases |a|
  {
    if a == [] {
      assert a + b == b;
    } else {
      assert (a + b)[0] == a[0] && (a + b)[1..] == a[1..] + b;
      RunConcat(Residual(pending + a[0]), a[1..], b);
    }
  }

  lemma OutputConcat(pending: bytes, a: seq<bytes>, b: seq<bytes>)
    ensures Output(pending, a + b) == Output(pending, a) + Output(RunFrom(pending, a).pending, b)
  {
    RunConcat(pending, a, b);
    FlattenConcat(RunFrom(pending, a).outputs, RunFrom(RunFrom(pending, a).pending, b).outputs);
  }

  /** The pending bytes never depend on the chunks: they are the incomplete rest of the stream. */
  lemma {:induction false} PendingIsResidual(pending: bytes, chunks: seq<bytes>)
    requires !HasRecord(pending)
    ensures RunFrom(pending, chunks).pending == Residual(pending + Flatten(chunks))
    decreases |chunks|
  {
    if chunks == [] {
      assert pending + Flatten(chunks) == pending;
    } else {
      var buffer := pending + chunks[0];
      PendingIsResidual(Residual(buffer), chunks[1..]);
      FramingContinues(buffer, Flatten(chunks[1..]));
      Associates(pending, chunks[0], Flatten(chunks[1..]));
    }
  }
}
