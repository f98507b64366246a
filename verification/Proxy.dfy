/** The proxy: `drain_application_data` on the caller's buffer, and the `forward` loop around it. */
module Proxy {
  import opened Bytes
  import opened Sequences
  import opened RecordSpec
  import opened Field
  import MimcSpec
  import CommitmentSpec
  import Commitment
  import RecordTheorems

  /** A `Vec<u8>` that the caller owns and the callee changes. */
  class ByteVec {
    var data: bytes

    constructor ()
      ensures data == []
    {
      data := [];
    }
  }

  method DrainApplicationData(pending: ByteVec) returns (out: bytes)
    modifies pending
    ensures out == Batch(Records(old(pending.data)))
    ensures pending.data == Residual(old(pending.data))
  {
    var offset;
    out, offset := ScanRecords(pending.data);
    if offset > 0 {
      pending.data := pending.data[offset..];
    }
  }

  /** What the loop has done up to `offset`: the records before it are `done`, and `out` is what they
      give if the first of them is not skipped. */
  ghost predicate Scanned(buffer: bytes, offset: nat, done: seq<Record>, out: bytes) {
    && offset <= |buffer|
    && Records(buffer) == done + Records(buffer[offset..])
    && Residual(buffer) == Residual(buffer[offset..])
    && out == if FirstSkipped(buffer) then [] else AllStripped(done)
  }

  predicate FirstSkipped(buffer: bytes) {
    |buffer| >= 5 && buffer[4] == SKIPPED_LENGTH
  }

  /** The loop of `drain_application_data` over the buffer. */
  method ScanRecords(buffer: bytes) returns (out: bytes, offset: nat)
    ensures offset <= |buffer| && buffer[offset..] == Residual(buffer)
    ensures out == Batch(Records(buffer))
  {
    out := [];
    offset := 0;
    ghost var done: seq<Record> := [];
    assert buffer[0..] == buffer;
    while offset + 5 <= |buffer| && offset + RecordLength(buffer[offset..]) <= |buffer|
      invariant Scanned(buffer, offset, done, out)
      decreases |buffer| - offset
    {
      var recordType := buffer[offset];
      var recordEnd := offset + RecordLength(buffer[offset..]);
      ghost var before, gain := out, Payload(buffer, offset, recordEnd);
      if recordType == APPLICATION_DATA && buffer[4] != SKIPPED_LENGTH {
        var payload := buffer[offset + 5..recordEnd];
        if |payload| >= AEAD_TAG_LEN {
          assert payload[..|payload| - AEAD_TAG_LEN] == gain;
          out := out + payload[..|payload| - AEAD_TAG_LEN];
        }
      }
      assert gain == [] ==> before + gain == before;
      done := ScanNext(buffer, offset, recordEnd, done, before, out);
      offset := recordEnd;
    }
    ScanEnd(buffer, offset, done, out);
  }

  lemma ScanNext(buffer: bytes, offset: nat, recordEnd: nat, done: seq<Record>, before: bytes, out: bytes)
    returns (next: seq<Record>)
    requires Scanned(buffer, offset, done, before)
    requires offset + 5 <= |buffer| && recordEnd == offset + RecordLength(buffer[offset..]) <= |buffer|
    requires out == if FirstSkipped(buffer) then before else before + Payload(buffer, offset, recordEnd)
    ensures Scanned(buffer, recordEnd, next, out)
  {
    var record: Record := buffer[offset..recordEnd];
    next := done + [record];
    NextRecord(buffer, offset, recordEnd);
    AllStrippedSnoc(done, record);
    Associates(done, [record], Records(buffer[recordEnd..]));
  }

  /** What the record between two offsets gives. */
  function Payload(buffer: bytes, offset: nat, recordEnd: nat): bytes
    requires offset + 5 <= recordEnd <= |buffer|
  {
    if buffer[offset] == APPLICATION_DATA && recordEnd - offset - 5 >= AEAD_TAG_LEN
    then buffer[offset + 5..recordEnd][..recordEnd - offset - 5 - AEAD_TAG_LEN] else []
  }

  lemma ScanEnd(buffer: bytes, offset: nat, done: seq<Record>, out: bytes)
    requires Scanned(buffer, offset, done, out) && !HasRecord(buffer[offset..])
    ensures buffer[offset..] == Residual(buffer) && out == Batch(Records(buffer))
  {
    NoFurtherRecord(buffer[offset..]);
    assert done + [] == done;
    FirstDecides(buffer);
  }

  lemma NoFurtherRecord(rest: bytes)
    requires !HasRecord(rest)
    ensures Records(rest) == [] && Residual(rest) == rest
  {
  }

  lemma RecordSlices(buffer: bytes, offset: nat, recordEnd: nat, s: bytes, n: nat)
    requires offset <= recordEnd <= |buffer| && s == buffer[offset..] && n == recordEnd - offset
    ensures s[..n] == buffer[offset..recordEnd] && s[n..] == buffer[recordEnd..]
  {
  }

  lemma NextRecord(buffer: bytes, offset: nat, recordEnd: nat)
    requires offset + 5 <= |buffer| && recordEnd == offset + RecordLength(buffer[offset..]) <= |buffer|
    ensures Records(buffer[offset..]) == [buffer[offset..recordEnd]] + Records(buffer[recordEnd..])
    ensures Residual(buffer[offset..]) == Residual(buffer[recordEnd..])
    ensures Stripped(buffer[offset..recordEnd]) == Payload(buffer, offset, recordEnd)
  {
    var s, n := buffer[offset..], recordEnd - offset;
    RecordSlices(buffer, offset, recordEnd, s, n);
    StrippedSlice(buffer, offset, recordEnd, buffer[offset..recordEnd]);
  }

  lemma StrippedSlice(buffer: bytes, offset: nat, recordEnd: nat, record: bytes)
    requires offset + 5 <= recordEnd <= |buffer| && record == buffer[offset..recordEnd]
    ensures Stripped(record) == Payload(buffer, offset, recordEnd)
  {
    if recordEnd - offset - 5 >= AEAD_TAG_LEN {
      SliceTwice(buffer, offset, recordEnd, 5, |record| - AEAD_TAG_LEN);
      SliceTwice(buffer, offset + 5, recordEnd, 0, recordEnd - offset - 5 - AEAD_TAG_LEN);
    }
  }

  lemma {:induction false} AllStrippedSnoc(records: seq<Record>, record: Record)
    ensures AllStripped(records + [record]) == AllStripped(records) + Stripped(record)
  {
    if records == [] {
      assert records + [record] == [record] && [record][1..] == [];
    } else {
      assert (records + [record])[0] == records[0] && (records + [record])[1..] == records[1..] + [record];
      AllStrippedSnoc(records[1..], record);
    }
  }

  /** The byte at index 4 of the buffer is the low length byte of its first record. */
  lemma FirstDecides(buffer: bytes)
    ensures Batch(Records(buffer))
         == if FirstSkipped(buffer) then [] else AllStripped(Records(buffer))
  {
  }

  // `forward`

  /** The reads of a connection up to the first empty one. */
  function UntilEmpty(received: seq<bytes>): seq<bytes> {
    if received == [] || received[0] == [] then [] else [received[0]] + UntilEmpty(received[1..])
  }

  /** These are the reads before the first empty one; if there is none, all of them. */
  lemma {:induction false} UntilEmptyExactly(received: seq<bytes>)
    ensures |UntilEmpty(received)| <= |received| && UntilEmpty(received) == received[..|UntilEmpty(received)|]
    ensures forall i | 0 <= i < |UntilEmpty(received)| :: received[i] != []
    ensures |UntilEmpty(received)| < |received| ==> received[|UntilEmpty(received)|] == []
  {
    if received != [] && received[0] != [] {
      UntilEmptyExactly(received[1..]);
    }
  }

  /** The drain outputs that are not empty. */
  function NonEmpty(outputs: seq<bytes>): seq<bytes> {
    if outputs == [] then []
    else NonEmpty(outputs[..|outputs| - 1]) + (if outputs[|outputs| - 1] == [] then [] else [outputs[|outputs| - 1]])
  }

  /** The commitments computed along the way: one for every non-empty output, each to everything
      drained so far. */
  function CommitmentsOf(p: MimcSpec.Params, outputs: seq<bytes>): (commitments: seq<Fr>)
    ensures |commitments| == |outputs|
  {
    seq(|outputs|, k requires 0 <= k < |outputs| => CommitmentSpec.MimcCommit(p, Flatten(outputs[..k + 1])))
  }

  /** What has been received, drained, committed to and written. */
  ghost predicate StandsAfter(p: MimcSpec.Params, chunks: seq<bytes>, pending: bytes, cipherStream: bytes,
                              commitments: seq<Fr>, written: bytes)
  {
    && pending == RunFrom([], chunks).pending
    && cipherStream == Flatten(RunFrom([], chunks).outputs)
    && commitments == CommitmentsOf(p, NonEmpty(RunFrom([], chunks).outputs))
    && written == Flatten(chunks)
  }

  lemma StepKeeps(p: MimcSpec.Params, chunks: seq<bytes>, chunk: bytes, appData: bytes, residual: bytes,
                  cipherStream: bytes, commitments: seq<Fr>, written: bytes)
    requires StandsAfter(p, chunks, RunFrom([], chunks).pending, cipherStream, commitments, written)
    requires appData == Batch(Records(RunFrom([], chunks).pending + chunk))
    requires residual == Residual(RunFrom([], chunks).pending + chunk)
    ensures appData == [] ==> StandsAfter(p, chunks + [chunk], residual, cipherStream, commitments, written + chunk)
    ensures appData != [] ==> StandsAfter(p, chunks + [chunk], residual, cipherStream + appData,
              commitments + [CommitmentSpec.MimcCommit(p, cipherStream + appData)], written + chunk)
  {
    var outputs := RunFrom([], chunks).outputs;
    RunSnoc(chunks, chunk);
    FlattenSnoc(outputs, appData);
    FlattenSnoc(chunks, chunk);
    if appData == [] {
      NonEmptySnoc(outputs, appData);
      assert cipherStream + appData == cipherStream;
    } else {
      CommitmentsNext(p, outputs, appData, cipherStream);
    }
  }

  lemma CommitmentsNext(p: MimcSpec.Params, outputs: seq<bytes>, appData: bytes, cipherStream: bytes)
    requires appData != [] && cipherStream == Flatten(outputs)
    ensures CommitmentsOf(p, NonEmpty(outputs + [appData]))
         == CommitmentsOf(p, NonEmpty(outputs)) + [CommitmentSpec.MimcCommit(p, cipherStream + appData)]
  {
    NonEmptySnoc(outputs, appData);
    NonEmptyStream(outputs);
    FlattenSnoc(NonEmpty(outputs), appData);
    CommitmentsSnoc(p, NonEmpty(outputs), appData);
  }

  lemma NonEmptySnoc(outputs: seq<bytes>, output: bytes)
    ensures NonEmpty(outputs + [output]) == if output == [] then NonEmpty(outputs) else NonEmpty(outputs) + [output]
  {
    assert (outputs + [output])[..|outputs|] == outputs;
  }

  class Forwarder {
    const params: MimcSpec.Params
    const pending: ByteVec
    var cipherStream: bytes
    var commitments: seq<Fr>
    var written: bytes

    constructor (p: MimcSpec.Params)
      ensures params == p && fresh(pending)
      ensures pending.data == [] && cipherStream == [] && commitments == [] && written == []
    {
      params := p;
      pending := new ByteVec();
      cipherStream, commitments, written := [], [], [];
    }

    /** Where the connection stands after receiving `chunks`. */
    ghost predicate After(chunks: seq<bytes>)
      reads this, pending
    {
      StandsAfter(params, chunks, pending.data, cipherStream, commitments, written)
    }

    /** One turn of the loop, for a read of `chunk`. */
    method Step(chunk: bytes, ghost chunks: seq<bytes>)
      requires After(chunks)
      modifies this, pending
      ensures After(chunks + [chunk])
    {
      pending.data := pending.data + chunk;
      var appData := DrainApplicationData(pending);
      StepKeeps(params, chunks, chunk, appData, pending.data, cipherStream, commitments, written);
      if appData != [] {
        cipherStream := cipherStream + appData;
        var commitment := Commitment.MimcCommit(params, cipherStream);
        commitments := commitments + [commitment];
      }
      written := written + chunk;
    }

    /** The loop: it ends at the first empty read, or when there is no further one. */
    method Forward(received: seq<bytes>)
      requires After([])
      modifies this, pending
      ensures After(UntilEmpty(received))
    {
      var i := 0;
      while i < |received|
        invariant i <= |received|
        invariant After(received[..i])
        invariant UntilEmpty(received) == received[..i] + UntilEmpty(received[i..])
      {
        if received[i] == [] {
          break;
        }
        Step(received[i], received[..i]);
        assert received[..i + 1] == received[..i] + [received[i]];
        UntilEmptyStep(received, i);
        i := i + 1;
      }
      assert UntilEmpty(received) == received[..i];
    }
  }

  lemma UntilEmptyStep(received: seq<bytes>, i: nat)
    requires i < |received| && received[i] != []
    ensures UntilEmpty(received[i..]) == [received[i]] + UntilEmpty(received[i + 1..])
    ensures received[..i + 1] + UntilEmpty(received[i + 1..]) == received[..i] + UntilEmpty(received[i..])
  {
    assert received[i..][1..] == received[i + 1..];
  }

  lemma RunSnoc(chunks: seq<bytes>, chunk: bytes)
    ensures RunFrom([], chunks + [chunk])
         == Run(Residual(RunFrom([], chunks).pending + chunk),
                RunFrom([], chunks).outputs + [Batch(Records(RunFrom([], chunks).pending + chunk))])
  {
    RunConcat([], chunks, [chunk]);
    assert [chunk][1..] == [];
  }

  lemma {:induction false} NonEmptyStream(outputs: seq<bytes>)
    ensures Flatten(NonEmpty(outputs)) == Flatten(outputs)
    decreases |outputs|
  {
    if outputs != [] {
      var front, last := outputs[..|outputs| - 1], outputs[|outputs| - 1];
      NonEmptyStream(front);
      FlattenSnoc(front, last);
      assert outputs == front + [last];
      if last != [] {
        FlattenSnoc(NonEmpty(front), last);
      } else {
        assert NonEmpty(outputs) == NonEmpty(front);
      }
    }
  }

  lemma CommitmentsSnoc(p: MimcSpec.Params, outputs: seq<bytes>, output: bytes)
    ensures CommitmentsOf(p, outputs + [output])
         == CommitmentsOf(p, outputs) + [CommitmentSpec.MimcCommit(p, Flatten(outputs + [output]))]
  {
    var more := outputs + [output];
    assert more[..|outputs| + 1] == more;
    forall k | 0 <= k < |outputs|
      ensures CommitmentsOf(p, more)[k] == CommitmentsOf(p, outputs)[k]
    {
      assert more[..k + 1] == outputs[..k + 1];
    }
  }

  // What every step keeps.

  /** For reads of at most 8192 bytes, the buffer's size, when no record with data comes so close to one from which
      it differs in having the skipped length: whatever the reads, the stream that is committed to is the
      per-record filter's. */
  lemma StreamIsPerRecord(p: MimcSpec.Params, chunks: seq<bytes>, pending: bytes, cipherStream: bytes,
                          commitments: seq<Fr>, written: bytes)
    requires StandsAfter(p, chunks, pending, cipherStream, commitments, written)
    requires RecordTheorems.Within(chunks, 8192)
    requires RecordTheorems.UniformWithin(Records(written), 8192)
    ensures cipherStream == PerRecord(Records(written))
  {
    RecordTheorems.ChunkIndependentWithinExactly(written, 8192);
  }

  /** After any reads: the pending bytes are the incomplete rest of the stream, and the drained
      records, with their headers, and the pending bytes account for every byte read. */
  lemma BytesAccounted(chunks: seq<bytes>)
    ensures RunFrom([], chunks).pending == Residual(Flatten(chunks))
    ensures TotalLength(Records(Flatten(chunks))) + |RunFrom([], chunks).pending| == |Flatten(chunks)|
  {
    PendingIsResidual([], chunks);
    assert [] + Flatten(chunks) == Flatten(chunks);
    RecordsAndRest(Flatten(chunks));
    FlattenLength(Records(Flatten(chunks)));
  }
}
