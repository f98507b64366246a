/** When the drained output does not depend on how the stream is cut into chunks. */
module RecordTheorems {
  import opened Bytes
  import opened Sequences
  import opened RecordSpec

  // One byte at a time.

  function Singles(s: bytes): seq<bytes> {
    if s == [] then [] else [[s[0]]] + Singles(s[1..])
  }

  lemma {:induction false} FlattenSingles(s: bytes)
    ensures Flatten(Singles(s)) == s
  {
    if s != [] {
      FlattenSingles(s[1..]);
      FlattenCons([s[0]], Singles(s[1..]));
      assert [s[0]] + s[1..] == s;
    }
  }

  /** One more byte completes at most one record, and then nothing remains. */
  lemma OneByteCompletes(pending: bytes, b: byte)
    requires !HasRecord(pending) && HasRecord(pending + [b])
    ensures Records(pending + [b]) == [pending + [b]] && Residual(pending + [b]) == []
  {
    var buffer := pending + [b];
    if |pending| >= 5 {
      assert RecordLength(buffer) == RecordLength(pending);
    }
    assert RecordLength(buffer) == |buffer|;
    assert buffer[..|buffer|] == buffer && buffer[|buffer|..] == [];
  }

  /** Fed one byte at a time, the proxy applies exactly the per-record filter, on every stream. */
  lemma {:induction false} SinglesFilterPerRecord(pending: bytes, s: bytes)
    requires !HasRecord(pending)
    ensures Output(pending, Singles(s)) == PerRecord(Records(pending + s))
    decreases |s|
  {
    if s == [] {
      assert pending + s == pending;
    } else {
      var buffer := pending + [s[0]];
      assert Singles(s)[1..] == Singles(s[1..]);
      assert pending + s == buffer + s[1..];
      FramingContinues(buffer, s[1..]);
      SinglesFilterPerRecord(Residual(buffer), s[1..]);
      PerRecordConcat(Records(buffer), Records(Residual(buffer) + s[1..]));
      if HasRecord(buffer) {
        OneByteCompletes(pending, s[0]);
        OneRecord(buffer);
      }
      FlattenCons(Batch(Records(buffer)), RunFrom(Residual(buffer), Singles(s[1..])).outputs);
    }
  }

  lemma OneRecord(record: Record)
    ensures Batch([record]) == PerRecord([record])
  {
    assert [record][1..] == [];
    assert AllStripped([record]) == Stripped(record) + AllStripped([]) == Stripped(record);
  }

  // Any chunks.

  /** What a chunk must hold for one call to drain record `i` and record `j`: at least the last byte of
      record `i`, and everything after it. */
  function Span(records: seq<Record>, i: nat, j: nat): nat
    requires i < j < |records|
  {
    1 + TotalLength(records[i + 1..j + 1])
  }

  ghost predicate Disagree(records: seq<Record>, i: nat, j: nat)
    requires i < j < |records|
  {
    Skipped(records[i]) != Skipped(records[j]) && Stripped(records[j]) != []
  }

  /** No record with something to give comes within `n` bytes of one from which it differs in having
      the skipped length. */
  ghost predicate UniformWithin(records: seq<Record>, n: nat) {
    forall i, j | 0 <= i < j < |records| && Disagree(records, i, j) :: Span(records, i, j) > n
  }

  ghost predicate Within(chunks: seq<bytes>, n: nat) {
    forall c | c in chunks :: |c| <= n
  }

  lemma {:induction false} BatchOfAgreeing(first: Record, records: seq<Record>)
    requires forall i | 0 <= i < |records| && Skipped(records[i]) != Skipped(first) :: Stripped(records[i]) == []
    ensures PerRecord(records) == if Skipped(first) then [] else AllStripped(records)
  {
    if records != [] {
      assert Skipped(records[0]) != Skipped(first) ==> Stripped(records[0]) == [];
      BatchOfAgreeing(first, records[1..]);
    }
  }

  lemma FirstAndSpan(first: Record, span: seq<bytes>, rest: seq<bytes>, all: seq<bytes>)
    requires all == [first] + (span + rest)
    ensures |first| + TotalLength(span) <= TotalLength(all)
  {
    TotalLengthConcat([first], span + rest);
    TotalLengthConcat(span, rest);
    assert TotalLength([first]) == |first| + TotalLength([]);
  }

  lemma SpanInside(records: seq<Record>, j: nat)
    requires 0 < j < |records|
    ensures |records[0]| + Span(records, 0, j) <= 1 + TotalLength(records)
  {
    assert records == [records[0]] + (records[1..j + 1] + records[j + 1..]);
    FirstAndSpan(records[0], records[1..j + 1], records[j + 1..], records);
  }

  lemma RecordsLength(s: bytes)
    ensures TotalLength(Records(s)) <= |s|
  {
    RecordsAndRest(s);
    FlattenLength(Records(s));
  }

  /** What is pending is shorter than the record that it starts. */
  lemma PendingIsPart(pending: bytes, chunk: bytes)
    requires !HasRecord(pending) && HasRecord(pending + chunk)
    ensures |pending| < |Records(pending + chunk)[0]|
  {
    if |pending| >= 5 {
      assert RecordLength(pending + chunk) == RecordLength(pending);
    }
  }

  lemma BatchWithin(pending: bytes, chunk: bytes, n: nat)
    requires !HasRecord(pending) && |chunk| <= n && UniformWithin(Records(pending + chunk), n)
    ensures Batch(Records(pending + chunk)) == PerRecord(Records(pending + chunk))
  {
    var records := Records(pending + chunk);
    if HasRecord(pending + chunk) {
      PendingIsPart(pending, chunk);
      RecordsLength(pending + chunk);
      forall j | 0 <= j < |records| && Skipped(records[j]) != Skipped(records[0])
        ensures Stripped(records[j]) == []
      {
        SpanInside(records, j);
        assert Span(records, 0, j) <= n;
        assert !Disagree(records, 0, j);
      }
      BatchOfAgreeing(records[0], records);
    }
  }

  lemma UniformFront(a: seq<Record>, b: seq<Record>, n: nat)
    requires UniformWithin(a + b, n)
    ensures UniformWithin(a, n)
  {
    forall i, j | 0 <= i < j < |a| && Disagree(a, i, j)
      ensures Span(a, i, j) > n
    {
      assert (a + b)[i] == a[i] && (a + b)[j] == a[j];
      assert (a + b)[i + 1..j + 1] == a[i + 1..j + 1];
      assert Disagree(a + b, i, j);
    }
  }

  lemma BackSlice<T>(a: seq<T>, b: seq<T>, i: nat, j: nat)
    requires i <= j <= |b|
    ensures (a + b)[|a| + i..|a| + j] == b[i..j]
  {
    DropSlice(a + b, |a|, i, j, b);
  }

  lemma UniformBack(a: seq<Record>, b: seq<Record>, n: nat)
    requires UniformWithin(a + b, n)
    ensures UniformWithin(b, n)
  {
    forall i, j | 0 <= i < j < |b| && Disagree(b, i, j)
      ensures Span(b, i, j) > n
    {
      var p, q := |a| + i, |a| + j;
      assert (a + b)[p] == b[i] && (a + b)[q] == b[j];
      BackSlice(a, b, i + 1, j + 1);
      assert Disagree(a + b, p, q);
    }
  }

  lemma {:induction false} UniformOutput(pending: bytes, chunks: seq<bytes>, n: nat)
    requires !HasRecord(pending) && Within(chunks, n) && UniformWithin(Records(pending + Flatten(chunks)), n)
    ensures Output(pending, chunks) == PerRecord(Records(pending + Flatten(chunks)))
    decreases |chunks|
  {
    if chunks == [] {
      assert pending + Flatten(chunks) == pending;
    } else {
      var buffer := pending + chunks[0];
      var rest := Flatten(chunks[1..]);
      Associates(pending, chunks[0], rest);
      FramingContinues(buffer, rest);
      UniformFront(Records(buffer), Records(Residual(buffer) + rest), n);
      UniformBack(Records(buffer), Records(Residual(buffer) + rest), n);
      BatchWithin(pending, chunks[0], n);
      UniformOutput(Residual(buffer), chunks[1..], n);
      PerRecordConcat(Records(buffer), Records(Residual(buffer) + rest));
      FlattenCons(Batch(Records(buffer)), RunFrom(Residual(buffer), chunks[1..]).outputs);
    }
  }

  /** However the stream is cut into chunks of at most `n` bytes, the output is the per-record
      filter's. */
  ghost predicate ChunkIndependentWithin(s: bytes, n: nat) {
    forall chunks: seq<bytes> | Flatten(chunks) == s && Within(chunks, n) :: Output([], chunks) == PerRecord(Records(s))
  }

  // A cut that shows the difference.

  lemma {:induction false} PerRecordShorter(records: seq<Record>, j: nat)
    requires j < |records|
    ensures |PerRecord(records)| <= |AllStripped(records)|
    ensures Skipped(records[j]) ==> |PerRecord(records)| + |Stripped(records[j])| <= |AllStripped(records)|
    ensures !Skipped(records[j]) ==> |Stripped(records[j])| <= |PerRecord(records)|
    decreases |records|
  {
    if j > 0 {
      assert records[1..][j - 1] == records[j];
      PerRecordShorter(records[1..], j - 1);
    } else if |records| > 1 {
      PerRecordShorter(records[1..], 0);
    } else {
      assert records[1..] == [];
    }
  }

  lemma BatchDiffers(records: seq<Record>)
    requires |records| > 1
    requires Skipped(records[0]) != Skipped(records[|records| - 1]) && Stripped(records[|records| - 1]) != []
    ensures |Batch(records)| != |PerRecord(records)|
  {
    PerRecordShorter(records, |records| - 1);
  }

  ghost predicate Exact(records: seq<Record>) {
    forall i | 0 <= i < |records| :: RecordLength(records[i]) == |records[i]|
  }

  lemma PrependRecord(r: Record, tail: bytes)
    requires RecordLength(r) == |r|
    ensures Records(r + tail) == [r] + Records(tail)
    ensures Residual(r + tail) == Residual(tail)
  {
    HasRecordMore(r, tail);
    assert r[..|r|] == r && r[|r|..] + tail == tail;
  }

  lemma {:induction false} RecordsOfFlatten(records: seq<Record>, rest: bytes)
    requires Exact(records)
    ensures Records(Flatten(records) + rest) == records + Records(rest)
    ensures Residual(Flatten(records) + rest) == Residual(rest)
    decreases |records|
  {
    if records == [] {
      assert Flatten(records) + rest == rest;
    } else {
      var tail := Flatten(records[1..]) + rest;
      Associates(records[0], Flatten(records[1..]), rest);
      PrependRecord(records[0], tail);
      RecordsOfFlatten(records[1..], rest);
      assert records == [records[0]] + records[1..];
      Associates([records[0]], records[1..], Records(rest));
    }
  }

  lemma RecordsOfBlock(records: seq<Record>)
    requires Exact(records)
    ensures Records(Flatten(records)) == records && Residual(Flatten(records)) == []
  {
    RecordsOfFlatten(records, []);
    assert Flatten(records) + [] == Flatten(records);
  }

  lemma {:induction false} RecordsAreExact(s: bytes)
    ensures Exact(Records(s))
    decreases |s|
  {
    if HasRecord(s) {
      RecordsAreExact(s[RecordLength(s)..]);
    }
  }

  /** Byte by byte up to the last byte of the group's first record, then that byte and the rest of the
      group at once, then byte by byte. */
  function Cut(start: bytes, middle: bytes, rest: bytes): seq<bytes> {
    Singles(start) + ([middle] + Singles(rest))
  }

  lemma CutGivesStream(start: bytes, middle: bytes, rest: bytes)
    ensures Flatten(Cut(start, middle, rest)) == start + (middle + rest)
  {
    FlattenSingles(start);
    FlattenSingles(rest);
    FlattenConcat(Singles(start), [middle] + Singles(rest));
    FlattenCons(middle, Singles(rest));
  }

  lemma {:induction false} SinglesWithin(s: bytes, n: nat)
    requires n >= 1
    ensures Within(Singles(s), n)
  {
    if s != [] {
      SinglesWithin(s[1..], n);
    }
  }

  lemma CutWithin(start: bytes, middle: bytes, rest: bytes, n: nat)
    requires 1 <= |middle| <= n
    ensures Within(Cut(start, middle, rest), n)
  {
    SinglesWithin(start, n);
    SinglesWithin(rest, n);
  }

  /** Whole records and the start of another, byte by byte. */
  lemma SinglesThen(records: seq<Record>, part: bytes)
    requires Exact(records) && !HasRecord(part)
    ensures Output([], Singles(Flatten(records) + part)) == PerRecord(records)
    ensures RunFrom([], Singles(Flatten(records) + part)).pending == part
  {
    var s := Flatten(records) + part;
    assert [] + s == s;
    RecordsOfFlatten(records, part);
    assert records + Records(part) == records;
    SinglesFilterPerRecord([], s);
    FlattenSingles(s);
    PendingIsResidual([], Singles(s));
  }

  lemma OneMoreChunk(pending: bytes, middle: bytes, group: seq<Record>)
    requires Exact(group) && pending + middle == Flatten(group)
    ensures RunFrom(pending, [middle]).pending == [] && Output(pending, [middle]) == Batch(group)
  {
    RecordsOfBlock(group);
    assert [middle][1..] == [];
    FlattenCons(Batch(group), []);
  }

  lemma CutOutput(before: seq<Record>, group: seq<Record>, part: bytes, middle: bytes, rest: bytes)
    requires Exact(before) && Exact(group) && !HasRecord(part) && part + middle == Flatten(group)
    ensures Output([], Cut(Flatten(before) + part, middle, rest))
         == PerRecord(before) + (Batch(group) + PerRecord(Records(rest)))
  {
    var start := Flatten(before) + part;
    SinglesThen(before, part);
    OneMoreChunk(part, middle, group);
    assert [] + rest == rest;
    SinglesFilterPerRecord([], rest);
    OutputConcat(part, [middle], Singles(rest));
    OutputConcat([], Singles(start), [middle] + Singles(rest));
  }

  lemma FlattenThree(a: seq<Record>, b: seq<Record>, c: seq<Record>, rest: bytes)
    ensures Flatten(a + (b + c)) + rest == Flatten(a) + (Flatten(b) + (Flatten(c) + rest))
  {
    FlattenConcat(a, b + c);
    FlattenConcat(b, c);
    Associates(Flatten(a), Flatten(b) + Flatten(c), rest);
    Associates(Flatten(b), Flatten(c), rest);
  }

  lemma PerRecordThree(a: seq<Record>, b: seq<Record>, c: seq<Record>)
    ensures PerRecord(a + (b + c)) == PerRecord(a) + (PerRecord(b) + PerRecord(c))
  {
    PerRecordConcat(a, b + c);
    PerRecordConcat(b, c);
  }

  /** The first record of a group without its last byte, and the rest of the group. */
  lemma SplitGroup(group: seq<Record>) returns (part: bytes, middle: bytes)
    requires group != [] && Exact(group)
    ensures !HasRecord(part) && part + middle == Flatten(group)
    ensures |middle| == 1 + TotalLength(group[1..])
  {
    var r := group[0];
    part, middle := r[..|r| - 1], r[|r| - 1..] + Flatten(group[1..]);
    FlattenLength(group[1..]);
    assert r == part + r[|r| - 1..];
    Associates(part, r[|r| - 1..], Flatten(group[1..]));
    if |part| >= 5 {
      assert RecordLength(part) == RecordLength(r);
    }
  }

  lemma CutDiffers(before: seq<Record>, group: seq<Record>, after: seq<Record>, part: bytes, middle: bytes, rest: bytes)
    requires Exact(before) && Exact(group) && Exact(after) && !HasRecord(rest)
    requires !HasRecord(part) && part + middle == Flatten(group)
    requires |Batch(group)| != |PerRecord(group)|
    ensures |Output([], Cut(Flatten(before) + part, middle, Flatten(after) + rest))|
         != |PerRecord(before + (group + after))|
  {
    RecordsOfFlatten(after, rest);
    assert after + Records(rest) == after;
    CutOutput(before, group, part, middle, Flatten(after) + rest);
    PerRecordThree(before, group, after);
  }

  lemma CutRegroups(before: bytes, part: bytes, middle: bytes, group: bytes, rest: bytes)
    requires part + middle == group
    ensures (before + part) + (middle + rest) == before + (group + rest)
  {
    Associates(before, part, middle + rest);
    Associates(part, middle, rest);
  }

  /** A group that is drained differently at once, and that a chunk of `n` bytes can complete. */
  ghost predicate Telling(group: seq<Record>, n: nat) {
    group != [] && |Batch(group)| != |PerRecord(group)| && 1 + TotalLength(group[1..]) <= n
  }

  lemma CutOfParts(before: seq<Record>, group: seq<Record>, after: seq<Record>, rest: bytes, n: nat)
    returns (chunks: seq<bytes>)
    requires Exact(before) && Exact(group) && Exact(after) && Telling(group, n) && !HasRecord(rest)
    ensures Flatten(chunks) == Flatten(before + (group + after)) + rest && Within(chunks, n)
    ensures |Output([], chunks)| != |PerRecord(before + (group + after))|
  {
    var part, middle := SplitGroup(group);
    chunks := Cut(Flatten(before) + part, middle, Flatten(after) + rest);
    CutDiffers(before, group, after, part, middle, rest);
    CutWithin(Flatten(before) + part, middle, Flatten(after) + rest, n);
    FlattenThree(before, group, after, rest);
    CutGivesStream(Flatten(before) + part, middle, Flatten(after) + rest);
    CutRegroups(Flatten(before), part, middle, Flatten(group), Flatten(after) + rest);
  }

  lemma GroupOf(records: seq<Record>, i: nat, j: nat, group: seq<Record>)
    requires i < j < |records| && group == records[i..j + 1]
    ensures group[0] == records[i] && group[|group| - 1] == records[j]
    ensures group[1..] == records[i + 1..j + 1]
  {
    SliceTwice(records, i, j + 1, 1, j + 1 - i);
    assert group[1..|group|] == group[1..];
  }

  lemma ExactSlice(records: seq<Record>, i: nat, j: nat)
    requires Exact(records) && i <= j <= |records|
    ensures Exact(records[i..j])
  {
  }

  lemma GroupDiffers(records: seq<Record>, i: nat, j: nat, group: seq<Record>)
    requires i < j < |records| && group == records[i..j + 1] && Disagree(records, i, j)
    ensures group != [] && |Batch(group)| != |PerRecord(group)|
    ensures 1 + TotalLength(group[1..]) == Span(records, i, j)
  {
    GroupOf(records, i, j, group);
    BatchDiffers(group);
  }

  lemma ExactParts(records: seq<Record>, i: nat, j: nat)
    requires Exact(records) && i <= j <= |records|
    ensures Exact(records[0..i]) && Exact(records[i..j]) && Exact(records[j..|records|])
  {
    ExactSlice(records, 0, i);
    ExactSlice(records, i, j);
    ExactSlice(records, j, |records|);
  }

  lemma TellingAt(records: seq<Record>, i: nat, j: nat, n: nat, group: seq<Record>)
    requires i < j < |records| && group == records[i..j + 1]
    requires Disagree(records, i, j) && Span(records, i, j) <= n
    ensures Telling(group, n)
  {
    GroupDiffers(records, i, j, group);
  }

  lemma SameOutOfParts(records: seq<Record>, i: nat, j: nat)
    requires i <= j <= |records|
    ensures Flatten(records[0..i] + (records[i..j] + records[j..|records|])) == Flatten(records)
    ensures PerRecord(records[0..i] + (records[i..j] + records[j..|records|])) == PerRecord(records)
  {
    ThreeSlices(records, i, j);
  }

  lemma PartsAt(records: seq<Record>, i: nat, j: nat, n: nat)
    returns (before: seq<Record>, group: seq<Record>, after: seq<Record>)
    requires Exact(records)
    requires i < j < |records| && Disagree(records, i, j) && Span(records, i, j) <= n
    ensures Exact(before) && Exact(group) && Exact(after) && Telling(group, n)
    ensures Flatten(before + (group + after)) == Flatten(records)
    ensures PerRecord(before + (group + after)) == PerRecord(records)
  {
    before, group, after := records[0..i], records[i..j + 1], records[j + 1..|records|];
    SameOutOfParts(records, i, j + 1);
    TellingAt(records, i, j, n, group);
    ExactParts(records, i, j + 1);
  }

  lemma CutAt(records: seq<Record>, rest: bytes, i: nat, j: nat, n: nat) returns (chunks: seq<bytes>)
    requires Exact(records) && !HasRecord(rest)
    requires i < j < |records| && Disagree(records, i, j) && Span(records, i, j) <= n
    ensures Flatten(chunks) == Flatten(records) + rest && Within(chunks, n)
    ensures |Output([], chunks)| != |PerRecord(records)|
  {
    var before, group, after := PartsAt(records, i, j, n);
    chunks := CutOfParts(before, group, after, rest, n);
  }

  lemma ThreeSlices<T>(s: seq<T>, i: nat, j: nat)
    requires i <= j <= |s|
    ensures s == s[0..i] + (s[i..j] + s[j..|s|])
  {
  }

  lemma DisagreementShows(s: bytes, i: nat, j: nat, n: nat)
    requires i < j < |Records(s)| && Disagree(Records(s), i, j) && Span(Records(s), i, j) <= n
    ensures !ChunkIndependentWithin(s, n)
  {
    RecordsAreExact(s);
    RecordsAndRest(s);
    var chunks := CutAt(Records(s), Residual(s), i, j, n);
    LengthsDiffer(s, chunks, n);
  }

  lemma LengthsDiffer(s: bytes, chunks: seq<bytes>, n: nat)
    requires Flatten(chunks) == s && Within(chunks, n) && |Output([], chunks)| != |PerRecord(Records(s))|
    ensures !ChunkIndependentWithin(s, n)
  {
  }

  lemma OneChunk(chunk: bytes)
    ensures RunFrom([], [chunk]).pending == Residual(chunk) && Output([], [chunk]) == Batch(Records(chunk))
  {
    assert [] + chunk == chunk;
    assert [chunk][1..] == [];
    FlattenCons(Batch(Records(chunk)), []);
  }

  /** For chunks of at most `n` bytes: the drained output is independent of how the stream is cut
      exactly when no record with something to give comes within `n` bytes of an earlier one from which
      it differs in having the skipped length. */
  lemma ChunkIndependentWithinExactly(s: bytes, n: nat)
    requires n >= 1
    ensures ChunkIndependentWithin(s, n) <==> UniformWithin(Records(s), n)
  {
    if UniformWithin(Records(s), n) {
      forall chunks: seq<bytes> | Flatten(chunks) == s && Within(chunks, n)
        ensures Output([], chunks) == PerRecord(Records(s))
      {
        assert [] + Flatten(chunks) == s;
        UniformOutput([], chunks, n);
      }
    } else {
      var i, j :| 0 <= i < j < |Records(s)| && Disagree(Records(s), i, j) && Span(Records(s), i, j) <= n;
      DisagreementShows(s, i, j, n);
    }
  }

  // Chunks of any length.

  ghost predicate Uniform(records: seq<Record>) {
    forall i, j | 0 <= i < j < |records| :: !Disagree(records, i, j)
  }

  ghost predicate ChunkIndependent(s: bytes) {
    forall chunks: seq<bytes> | Flatten(chunks) == s :: Output([], chunks) == PerRecord(Records(s))
  }

  lemma {:induction false} ChunksOfStream(chunks: seq<bytes>)
    ensures Within(chunks, |Flatten(chunks)|)
  {
    if chunks != [] {
      ChunksOfStream(chunks[1..]);
      assert chunks == [chunks[0]] + chunks[1..];
    }
  }

  lemma {:induction false} FrontIsShorter(records: seq<bytes>, j: nat)
    requires j <= |records|
    ensures TotalLength(records[..j]) <= TotalLength(records)
    decreases j
  {
    if j > 0 {
      FrontIsShorter(records[1..], j - 1);
      assert records[..j][1..] == records[1..][..j - 1];
    }
  }

  lemma {:induction false} SliceIsShorter(records: seq<bytes>, i: nat, j: nat, slice: seq<bytes>)
    requires i <= j <= |records| && slice == records[i..j]
    ensures TotalLength(slice) <= TotalLength(records)
    decreases i
  {
    if i > 0 {
      assert slice == records[1..][i - 1..j - 1];
      SliceIsShorter(records[1..], i - 1, j - 1, slice);
    } else {
      FrontIsShorter(records, j);
      assert slice == records[..j];
    }
  }

  lemma SpanOfStream(s: bytes, i: nat, j: nat)
    requires i < j < |Records(s)|
    ensures Span(Records(s), i, j) <= |s| + 1
  {
    RecordsLength(s);
    SliceIsShorter(Records(s), i + 1, j + 1, Records(s)[i + 1..j + 1]);
  }

  /** For chunks of any length: exactly when no record with something to give follows one from which it
      differs in having the skipped length. */
  lemma ChunkIndependentExactly(s: bytes)
    ensures ChunkIndependent(s) <==> Uniform(Records(s))
  {
    ChunkIndependentWithinExactly(s, |s| + 1);
    forall chunks: seq<bytes> | Flatten(chunks) == s
      ensures Within(chunks, |s| + 1)
    {
      ChunksOfStream(chunks);
    }
    forall i, j | 0 <= i < j < |Records(s)|
      ensures Span(Records(s), i, j) <= |s| + 1
    {
      SpanOfStream(s, i, j);
    }
  }

  lemma {:induction false} NothingSkipped(records: seq<Record>)
    requires forall i | 0 <= i < |records| :: !Skipped(records[i])
    ensures PerRecord(records) == AllStripped(records)
  {
    if records != [] {
      NothingSkipped(records[1..]);
    }
  }

  /** When no complete record has the skipped length, every way of cutting the stream gives all
      tag-stripped application data. */
  lemma AllApplicationData(s: bytes, chunks: seq<bytes>)
    requires Flatten(chunks) == s
    requires forall i | 0 <= i < |Records(s)| :: !Skipped(Records(s)[i])
    ensures Output([], chunks) == AllStripped(Records(s))
  {
    ChunkIndependentExactly(s);
    NothingSkipped(Records(s));
  }

  lemma ExactChunk(record: Record)
    requires RecordLength(record) == |record|
    ensures Records(record) == [record] && Residual(record) == []
    ensures RunFrom([], [record]).pending == [] && Output([], [record]) == Batch([record])
  {
    PrependRecord(record, []);
    assert record + [] == record && Records([]) == [];
    OneChunk(record);
  }

  lemma ExactPair(a: Record, b: Record)
    requires RecordLength(a) == |a| && RecordLength(b) == |b|
    ensures Records(a + b) == [a, b] && Output([], [a + b]) == Batch([a, b])
    ensures Output([], [a, b]) == Batch([a]) + Batch([b])
  {
    PrependRecord(a, b);
    ExactChunk(a);
    ExactChunk(b);
    OneChunk(a + b);
    assert [a, b] == [a] + [b];
    OutputConcat([], [a], [b]);
  }

  /** A skipped record hides the data of one that follows it in the same chunk, while in a chunk of its
      own that record gives its data. */
  lemma FirstRecordDecides(a: Record, b: Record)
    requires RecordLength(a) == |a| && RecordLength(b) == |b| && Skipped(a) && !Skipped(b)
    ensures Output([], [a + b]) == []
    ensures Output([], [a, b]) == Stripped(b)
    ensures Stripped(b) != [] ==> Output([], [a + b]) != Output([], [a, b])
  {
    ExactPair(a, b);
    assert AllStripped([b]) == Stripped(b) + AllStripped([]) == Stripped(b);
  }

  /** The header of an application-data record of fewer than 256 bytes. */
  function DataHeader(length: byte): bytes {
    [APPLICATION_DATA, 0x03, 0x03, 0x00, length]
  }

  /** The witness: a record of 53 bytes, and one of 17 bytes that holds one byte of data. In one chunk
      they give nothing, in two they give that byte. */
  lemma TwoRecordsDiffer(data: byte)
    ensures var a, b := DataHeader(0x35) + Repeat(0, 53), DataHeader(0x11) + [data] + Repeat(0, 16);
            Output([], [a + b]) == [] && Output([], [a, b]) == [data]
  {
    var a, b := DataHeader(0x35) + Repeat(0, 53), DataHeader(0x11) + [data] + Repeat(0, 16);
    ByteValueIsCast(0x35);
    ByteValueIsCast(0x11);
    assert Stripped(b) == [data];
    FirstRecordDecides(a, b);
  }
}
