/** Lines ended by CR LF: splitting and joining are inverse, and where the blank line is. */
module Lines {
  import opened Sequences
  import opened Bytes
  import opened WireSpec

  ghost predicate OneLine(line: bytes) {
    Absent(line, CRLF)
  }

  /** Lines, of which only the first may be empty: what stands before the first blank line. */
  ghost predicate HeaderBlock(lines: seq<bytes>) {
    && |lines| > 0
    && (forall i | 0 <= i < |lines| :: OneLine(lines[i]))
    && forall i | 1 <= i < |lines| :: lines[i] != []
  }

  lemma CrlfAt(s: bytes, i: int)
    ensures OccursAt(s, CRLF, i) <==> 0 <= i && i + 2 <= |s| && s[i] == CR && s[i + 1] == LF
  {
    if 0 <= i && i + 2 <= |s| {
      assert s[i..i + 2] == [s[i], s[i + 1]];
    }
  }

  lemma BlankLineAt(s: bytes, i: int)
    ensures OccursAt(s, BLANK_LINE, i) <==> OccursAt(s, CRLF, i) && OccursAt(s, CRLF, i + 2)
  {
    CrlfAt(s, i);
    CrlfAt(s, i + 2);
    if 0 <= i && i + 4 <= |s| {
      assert s[i..i + 4] == [s[i], s[i + 1], s[i + 2], s[i + 3]];
    }
  }

  /** The first line end after a line is its own. */
  lemma FirstCrlf(line: bytes, rest: bytes)
    requires OneLine(line)
    ensures FirstAt(line + CRLF + rest, CRLF, |line|)
  {
    var s := line + CRLF + rest;
    CrlfAt(s, |line|);
    forall j | 0 <= j < |line|
      ensures !OccursAt(s, CRLF, j)
    {
      CrlfAt(s, j);
      CrlfAt(line, j);
    }
  }

  lemma NoLineFeedIsOneLine(line: bytes)
    requires LF !in line
    ensures OneLine(line)
  {
    forall j
      ensures !OccursAt(line, CRLF, j)
    {
      CrlfAt(line, j);
    }
  }

  /** The text up to its first line end, if there is one. */
  lemma FirstLine(s: bytes)
    ensures match Find(s, CRLF)
            case None => OneLine(s)
            case Some(i) => OneLine(s[..i]) && s == s[..i] + CRLF + s[i + 2..]
  {
    FindFirst(s, CRLF);
    if Find(s, CRLF).Some? {
      CrlfAt(s, Find(s, CRLF).value);
      PrefixBeforeFirst(s, CRLF, Find(s, CRLF).value);
    }
  }

  lemma {:induction false} JoinSplitLines(s: bytes)
    ensures JoinLines(SplitLines(s)) == s
    decreases |s|
  {
    FirstLine(s);
    match Find(s, CRLF)
    case None =>
    case Some(i) =>
      JoinSplitLines(s[i + 2..]);
      assert SplitLines(s)[1..] == SplitLines(s[i + 2..]);
  }

  lemma {:induction false} SplitJoinLines(lines: seq<bytes>)
    requires |lines| > 0 && forall i | 0 <= i < |lines| :: OneLine(lines[i])
    ensures SplitLines(JoinLines(lines)) == lines
    decreases |lines|
  {
    var s := JoinLines(lines);
    if |lines| == 1 {
      FindFirst(s, CRLF);
    } else {
      FirstCrlf(lines[0], JoinLines(lines[1..]));
      FindUnique(s, CRLF, |lines[0]|);
      SplitJoinLines(lines[1..]);
      assert s[..|lines[0]|] == lines[0] && s[|lines[0]| + 2..] == JoinLines(lines[1..]);
    }
  }

  lemma {:induction false} SplitLinesAreLines(s: bytes)
    ensures forall i | 0 <= i < |SplitLines(s)| :: OneLine(SplitLines(s)[i])
    decreases |s|
  {
    FirstLine(s);
    match Find(s, CRLF)
    case None =>
    case Some(i) =>
      SplitLinesAreLines(s[i + 2..]);
  }

  lemma PrefixBeforeFirst(s: bytes, pattern: bytes, i: nat)
    requires FirstAt(s, pattern, i) && pattern != []
    ensures Absent(s[..i], pattern)
  {
    forall j
      ensures !OccursAt(s[..i], pattern, j)
    {
      if OccursAt(s[..i], pattern, j) {
        assert s[j..j + |pattern|] == s[..i][j..j + |pattern|];
        assert OccursAt(s, pattern, j);
      }
    }
  }

  /** After the lines of a header block, the first blank line is the one that ends it. */
  lemma {:induction false} BlankLineEndsBlock(lines: seq<bytes>, rest: bytes)
    requires HeaderBlock(lines)
    ensures FirstAt(JoinLines(lines) + BLANK_LINE + rest, BLANK_LINE, |JoinLines(lines)|)
    decreases |lines|
  {
    var s := JoinLines(lines) + BLANK_LINE + rest;
    var line := lines[0];
    if |lines| == 1 {
      assert s == line + CRLF + (CRLF + rest);
      FirstCrlf(line, CRLF + rest);
      assert s[|line|..|line| + 4] == BLANK_LINE;
      forall j | 0 <= j < |line|
        ensures !OccursAt(s, BLANK_LINE, j)
      {
        BlankLineAt(s, j);
      }
    } else {
      var tail := JoinLines(lines[1..]) + BLANK_LINE + rest;
      assert s == line + CRLF + tail;
      FirstCrlf(line, tail);
      BlankLineEndsBlock(lines[1..], rest);
      NoLineEndAtStart(lines[1..], rest);
      BlankLineAfter(s, line, tail, |JoinLines(lines[1..])|);
    }
  }

  lemma NoLineEndAtStart(lines: seq<bytes>, rest: bytes)
    requires |lines| > 0 && OneLine(lines[0]) && lines[0] != []
    ensures !OccursAt(JoinLines(lines) + BLANK_LINE + rest, CRLF, 0)
  {
    var s := JoinLines(lines) + BLANK_LINE + rest;
    var more := if |lines| == 1 then CRLF + rest else JoinLines(lines[1..]) + BLANK_LINE + rest;
    assert s == lines[0] + CRLF + more;
    FirstCrlf(lines[0], more);
  }

  lemma BlankLineAfter(s: bytes, line: bytes, tail: bytes, i: nat)
    requires s == line + CRLF + tail
    requires FirstAt(s, CRLF, |line|) && !OccursAt(tail, CRLF, 0) && FirstAt(tail, BLANK_LINE, i)
    ensures FirstAt(s, BLANK_LINE, |line| + 2 + i)
  {
    Shifted(s, line + CRLF, tail, BLANK_LINE, i);
    forall j | 0 <= j < |line| + 2 + i
      ensures !OccursAt(s, BLANK_LINE, j)
    {
      NoEarlierBlankLine(s, line, tail, i, j);
    }
  }

  lemma NoEarlierBlankLine(s: bytes, line: bytes, tail: bytes, i: nat, j: nat)
    requires s == line + CRLF + tail && j < |line| + 2 + i
    requires FirstAt(s, CRLF, |line|) && !OccursAt(tail, CRLF, 0) && FirstAt(tail, BLANK_LINE, i)
    ensures !OccursAt(s, BLANK_LINE, j)
  {
    if j >= |line| + 2 {
      Shifted(s, line + CRLF, tail, BLANK_LINE, j - |line| - 2);
    } else {
      BlankLineAt(s, j);
      if j == |line| {
        Shifted(s, line + CRLF, tail, CRLF, 0);
      } else if j == |line| + 1 {
        CrlfAt(s, j);
        assert s[j] == LF;
      }
    }
  }

  lemma Shifted(s: bytes, head: bytes, tail: bytes, pattern: bytes, j: int)
    requires s == head + tail
    ensures 0 <= j ==> (OccursAt(s, pattern, |head| + j) <==> OccursAt(tail, pattern, j))
  {
    if 0 <= j && j + |pattern| <= |tail| {
      assert s[|head| + j..|head| + j + |pattern|] == tail[j..j + |pattern|];
    }
  }

  /** A first blank line after a line is the first blank line after the text that follows it. */
  lemma BlankLineInTail(line: bytes, tail: bytes, rest: bytes)
    requires FirstAt(line + CRLF + tail + BLANK_LINE + rest, BLANK_LINE, |line| + 2 + |tail|)
    ensures FirstAt(tail + BLANK_LINE + rest, BLANK_LINE, |tail|)
    ensures !OccursAt(tail + BLANK_LINE + rest, CRLF, 0)
  {
    var s, t := line + CRLF + tail + BLANK_LINE + rest, tail + BLANK_LINE + rest;
    assert s == (line + CRLF) + t;
    forall j | 0 <= j <= |tail|
      ensures OccursAt(t, BLANK_LINE, j) <==> OccursAt(s, BLANK_LINE, |line| + 2 + j)
    {
      Shifted(s, line + CRLF, t, BLANK_LINE, j);
    }
    Shifted(s, line + CRLF, t, CRLF, 0);
    assert s[|line|..|line| + 2] == CRLF;
    BlankLineAt(s, |line|);
  }

  /** What stands before the first blank line is a header block. */
  lemma {:induction false} HeadersAreBlock(headers: bytes, rest: bytes)
    requires FirstAt(headers + BLANK_LINE + rest, BLANK_LINE, |headers|)
    ensures HeaderBlock(SplitLines(headers))
    decreases |headers|
  {
    SplitLinesAreLines(headers);
    FirstLine(headers);
    match Find(headers, CRLF)
    case None =>
    case Some(i) =>
      var tail := headers[i + 2..];
      BlankLineInTail(headers[..i], tail, rest);
      HeadersAreBlock(tail, rest);
      if SplitLines(tail)[0] == [] {
        EmptyFirstLine(tail, rest);
      }
      assert SplitLines(headers) == [headers[..i]] + SplitLines(tail);
  }

  lemma EmptyFirstLine(tail: bytes, rest: bytes)
    requires SplitLines(tail)[0] == []
    ensures OccursAt(tail + BLANK_LINE + rest, CRLF, 0)
  {
    var t := tail + BLANK_LINE + rest;
    CrlfAt(t, 0);
    match Find(tail, CRLF)
    case None =>
    case Some(i) =>
      CrlfAt(tail, 0);
  }
}
