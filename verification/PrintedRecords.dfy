/** TLS records as they are written: a type, a version, a length and a fragment. What the proxy finds in a
    stream of them. */
module PrintedRecords {
  import opened Bytes
  import opened Sequences
  import opened RecordSpec
  import RecordTheorems

  /** A record of section 5.1 of RFC 8446; the length is the 16-bit number with the bytes `hi` and `lo`. */
  datatype Printed = Printed(kind: byte, major: byte, minor: byte, hi: byte, lo: byte, fragment: bytes) {
    predicate Valid() {
      |fragment| == 256 * (hi as nat) + (lo as nat)
    }

    function Bytes(): (r: Record) {
      [kind, major, minor, hi, lo] + fragment
    }

    /** The fragment of an application-data record without its last 16 bytes. */
    function Data(): bytes {
      if kind == 0x17 && |fragment| >= 16 then fragment[..|fragment| - 16] else []
    }
  }

  ghost predicate AllValid(records: seq<Printed>) {
    forall i | 0 <= i < |records| :: records[i].Valid()
  }

  function AllBytes(records: seq<Printed>): (printed: seq<Record>)
    ensures |printed| == |records|
  {
    seq(|records|, i requires 0 <= i < |records| => records[i].Bytes())
  }

  function Stream(records: seq<Printed>): bytes {
    Flatten(AllBytes(records))
  }

  lemma PrintedLength(r: Printed)
    requires r.Valid()
    ensures RecordLength(r.Bytes()) == |r.Bytes()|
  {
    LengthIsCast(r.Bytes());
  }

  lemma PrintedData(r: Printed)
    ensures Stripped(r.Bytes()) == r.Data() && (Skipped(r.Bytes()) <==> r.lo == 53)
  {
  }

  /** Framing inverts printing: the records of a stream of printed records, whatever follows them, are
      these, followed by those of what follows. */
  lemma FramingInvertsPrinting(records: seq<Printed>, rest: bytes)
    requires AllValid(records)
    ensures Records(Stream(records) + rest) == AllBytes(records) + Records(rest)
    ensures Residual(Stream(records) + rest) == Residual(rest)
  {
    forall i | 0 <= i < |records|
      ensures RecordLength(AllBytes(records)[i]) == |AllBytes(records)[i]|
    {
      PrintedLength(records[i]);
    }
    RecordTheorems.RecordsOfFlatten(AllBytes(records), rest);
  }

  lemma PrintedAtStart(r: Printed, rest: bytes)
    requires r.Valid()
    ensures HasRecord(r.Bytes() + rest)
  {
    PrintedLength(r);
    HasRecordMore(r.Bytes(), rest);
  }

  lemma LengthIsCast(s: bytes)
    requires |s| >= 5
    ensures RecordLength(s) == 5 + 256 * (s[3] as nat) + (s[4] as nat)
  {
    ByteValueIsCast(s[3]);
    ByteValueIsCast(s[4]);
  }

  lemma HeaderAndFragment(s: bytes, n: nat)
    requires 5 <= n <= |s|
    ensures [s[0], s[1], s[2], s[3], s[4]] + s[5..n] <= s
  {
  }

  lemma RecordAtStart(s: bytes) returns (r: Printed)
    requires HasRecord(s)
    ensures r.Valid() && r.Bytes() <= s
  {
    LengthIsCast(s);
    var n := RecordLength(s);
    r := Printed(s[0], s[1], s[2], s[3], s[4], s[5..n]);
    HeaderAndFragment(s, n);
  }

  /** A stream has a complete record at its start exactly when it starts with a printed one. */
  lemma HasRecordExactly(s: bytes)
    ensures HasRecord(s) <==> exists r: Printed :: r.Valid() && r.Bytes() <= s
  {
    if HasRecord(s) {
      var r := RecordAtStart(s);
    }
    if r: Printed :| r.Valid() && r.Bytes() <= s {
      PrefixAndRest(r.Bytes(), s);
      PrintedAtStart(r, s[|r.Bytes()|..]);
    }
  }

  /** The data of all records, one after the other. */
  function DataOf(records: seq<Printed>): bytes {
    if records == [] then [] else records[0].Data() + DataOf(records[1..])
  }

  lemma {:induction false} StrippedIsData(records: seq<Printed>)
    ensures AllStripped(AllBytes(records)) == DataOf(records)
  {
    if records != [] {
      PrintedData(records[0]);
      StrippedIsData(records[1..]);
      assert AllBytes(records)[1..] == AllBytes(records[1..]);
    }
  }

  /** What one drain of printed records and an incomplete rest gives: nothing if the low length byte of the
      first record is 53, and otherwise the data of all records; the rest is kept. */
  lemma DrainedData(records: seq<Printed>, rest: bytes)
    requires AllValid(records) && !HasRecord(rest)
    ensures Batch(Records(Stream(records) + rest)) == if records != [] && records[0].lo == 53 then [] else DataOf(records)
    ensures Residual(Stream(records) + rest) == rest
  {
    FramingInvertsPrinting(records, rest);
    assert AllBytes(records) + [] == AllBytes(records);
    StrippedIsData(records);
    if records != [] {
      PrintedData(records[0]);
    }
  }

  /** The records whose low length byte is not 53. */
  function Unskipped(records: seq<Printed>): seq<Printed> {
    if records == [] then []
    else (if records[0].lo == 53 then [] else [records[0]]) + Unskipped(records[1..])
  }

  lemma DataOfCons(r: Printed, rest: seq<Printed>)
    ensures DataOf([r] + rest) == r.Data() + DataOf(rest)
  {
    assert ([r] + rest)[1..] == rest;
  }

  lemma NextFiltered(r: Printed, filtered: bytes, rest: seq<Printed>)
    requires filtered == DataOf(rest)
    ensures (if Skipped(r.Bytes()) then [] else Stripped(r.Bytes())) + filtered
         == DataOf((if r.lo == 53 then [] else [r]) + rest)
  {
    PrintedData(r);
    DataOfCons(r, rest);
    assert [] + rest == rest && [] + filtered == filtered;
  }

  /** The per-record filter gives the data of the records whose own low length byte is not 53. */
  lemma {:induction false} FilteredData(records: seq<Printed>)
    ensures PerRecord(AllBytes(records)) == DataOf(Unskipped(records))
  {
    if records != [] {
      FilteredData(records[1..]);
      assert AllBytes(records)[1..] == AllBytes(records[1..]);
      NextFiltered(records[0], PerRecord(AllBytes(records[1..])), Unskipped(records[1..]));
    }
  }
}
