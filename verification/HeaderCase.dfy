/** The case of header names is free: requests whose header names differ in case only are read, checked and
    rewritten alike. */
module HeaderCase {
  import opened Sequences
  import opened Bytes
  import opened Text
  import opened WireSpec
  import opened Lines
  import opened WireTheorems
  import opened WireExactly

  // White space and characters do not depend on the case of letters.

  lemma SameSlices(s: bytes, t: bytes, i: nat, j: nat)
    requires SameIgnoringCase(s, t) && i <= j <= |s|
    ensures SameIgnoringCase(s[i..j], t[i..j])
  {
  }

  lemma SameSpaceBytes(a: byte, b: byte)
    requires SameLetter(a, b)
    ensures IsSpace(a) == IsSpace(b) && (a < 0x80) == (b < 0x80) && (a >= 0x80 ==> a == b)
  {
  }

  lemma SameSpaceWidth(s: bytes, t: bytes)
    requires SameIgnoringCase(s, t)
    ensures SpaceWidth(s) == SpaceWidth(t) && LastSpaceWidth(s) == LastSpaceWidth(t)
  {
    forall i | 0 <= i < |s|
      ensures IsSpace(s[i]) == IsSpace(t[i]) && (s[i] < 0x80) == (t[i] < 0x80) && (s[i] >= 0x80 ==> s[i] == t[i])
    {
      SameSpaceBytes(s[i], t[i]);
    }
  }

  lemma SameCharWidth(s: bytes, t: bytes)
    requires SameIgnoringCase(s, t)
    ensures CharWidth(s) == CharWidth(t)
  {
    forall i | 0 <= i < |s|
      ensures (s[i] < 0x80) == (t[i] < 0x80) && (s[i] >= 0x80 ==> s[i] == t[i])
    {
      SameSpaceBytes(s[i], t[i]);
    }
  }

  lemma {:induction false} SameText(s: bytes, t: bytes)
    requires SameIgnoringCase(s, t)
    ensures IsText(s) == IsText(t)
    decreases |s|
  {
    SameCharWidth(s, t);
    if CharWidth(s) > 0 {
      SameSlices(s, t, CharWidth(s), |s|);
      SameText(s[CharWidth(s)..], t[CharWidth(s)..]);
    }
  }

  lemma {:induction false} SameTrimStart(s: bytes, t: bytes)
    requires SameIgnoringCase(s, t)
    ensures SameIgnoringCase(TrimStart(s), TrimStart(t))
    decreases |s|
  {
    SameSpaceWidth(s, t);
    if SpaceWidth(s) > 0 {
      SameSlices(s, t, SpaceWidth(s), |s|);
      SameTrimStart(s[SpaceWidth(s)..], t[SpaceWidth(s)..]);
    }
  }

  lemma {:induction false} SameTrimEnd(s: bytes, t: bytes)
    requires SameIgnoringCase(s, t)
    ensures SameIgnoringCase(TrimEnd(s), TrimEnd(t))
    decreases |s|
  {
    SameSpaceWidth(s, t);
    if LastSpaceWidth(s) > 0 {
      SameSlices(s, t, 0, |s| - LastSpaceWidth(s));
      SameTrimEnd(s[..|s| - LastSpaceWidth(s)], t[..|s| - LastSpaceWidth(s)]);
    }
  }

  lemma SameTrim(s: bytes, t: bytes)
    requires SameIgnoringCase(s, t)
    ensures SameIgnoringCase(Trim(s), Trim(t))
  {
    SameTrimStart(s, t);
    SameTrimEnd(TrimStart(s), TrimStart(t));
  }

  lemma SameConcat(s: bytes, t: bytes, u: bytes, v: bytes)
    requires SameIgnoringCase(s, t) && SameIgnoringCase(u, v)
    ensures SameIgnoringCase(s + u, t + v)
  {
  }

  // Lines.

  /** The same line, or one that differs in the case of its name. */
  ghost predicate Alike(line: bytes, other: bytes) {
    line == other
    || exists name, otherName, rest :: NamesDiffer(line, other, name, otherName, rest)
  }

  /** The names before the first colons differ in case only, and what follows is the same. */
  ghost predicate NamesDiffer(line: bytes, other: bytes, name: bytes, otherName: bytes, rest: bytes) {
    AtColon(line, name, rest) && AtColon(other, otherName, rest) && SameIgnoringCase(name, otherName)
  }

  lemma DifferentField(line: bytes, other: bytes, name: bytes, otherName: bytes, rest: bytes)
    requires NamesDiffer(line, other, name, otherName, rest)
    ensures FieldOf(line) == FieldOf(other)
  {
    ColonFound(line, name, rest);
    ColonFound(other, otherName, rest);
    SameTrim(name, otherName);
    LowerExactly(Trim(name), Trim(otherName));
  }

  lemma DifferentRewrite(line: bytes, other: bytes, name: bytes, otherName: bytes, rest: bytes, n: nat)
    requires NamesDiffer(line, other, name, otherName, rest)
    ensures IsContentLength(line) == IsContentLength(other)
    ensures RewriteLine(line, n)
         == if IsContentLength(line) then HeaderLine(CONTENT_LENGTH, Decimal(n)) else line
    ensures RewriteLine(other, n)
         == if IsContentLength(other) then HeaderLine(CONTENT_LENGTH, Decimal(n)) else other
  {
    ColonFound(line, name, rest);
    ColonFound(other, otherName, rest);
    LowerExactly(name, otherName);
  }

  lemma DifferentBytes(line: bytes, other: bytes, name: bytes, otherName: bytes, rest: bytes)
    requires NamesDiffer(line, other, name, otherName, rest)
    ensures SameIgnoringCase(line, other)
  {
    SameConcat(name, otherName, [COLON] + rest, [COLON] + rest);
    Associates(name, [COLON], rest);
    Associates(otherName, [COLON], rest);
  }

  lemma AlikeLines(line: bytes, other: bytes, n: nat)
    requires Alike(line, other)
    ensures SameIgnoringCase(line, other) && FieldOf(line) == FieldOf(other)
    ensures Alike(RewriteLine(line, n), RewriteLine(other, n))
    ensures IsContentLength(line) ==> RewriteLine(line, n) == RewriteLine(other, n)
  {
    if line != other {
      var name, otherName, rest :| NamesDiffer(line, other, name, otherName, rest);
      DifferentField(line, other, name, otherName, rest);
      DifferentRewrite(line, other, name, otherName, rest, n);
      DifferentBytes(line, other, name, otherName, rest);
    }
  }

  lemma SameOccurrence(line: bytes, other: bytes, j: int)
    requires SameIgnoringCase(line, other)
    ensures OccursAt(line, CRLF, j) <==> OccursAt(other, CRLF, j)
  {
    CrlfAt(line, j);
    CrlfAt(other, j);
  }

  lemma SameOneLine(line: bytes, other: bytes)
    requires SameIgnoringCase(line, other) && OneLine(line)
    ensures OneLine(other)
  {
    forall j
      ensures !OccursAt(other, CRLF, j)
    {
      SameOccurrence(line, other, j);
    }
  }

  /** The same first line, and header lines that are alike one by one. */
  ghost predicate AllAlike(lines: seq<bytes>, others: seq<bytes>) {
    && |lines| == |others| > 0 && lines[0] == others[0]
    && forall i | 0 <= i < |lines| :: Alike(lines[i], others[i])
  }

  lemma {:induction false} SameLastValue(lines: seq<bytes>, others: seq<bytes>, name: bytes)
    requires |lines| == |others| && forall i | 0 <= i < |lines| :: FieldOf(lines[i]) == FieldOf(others[i])
    ensures LastValue(lines, name) == LastValue(others, name)
    decreases |lines|
  {
    if lines != [] {
      SameLastValue(lines[..|lines| - 1], others[..|others| - 1], name);
    }
  }

  lemma SameFields(basepath: bytes, lines: seq<bytes>, others: seq<bytes>)
    requires |lines| == |others| && forall i | 0 <= i < |lines| :: FieldOf(lines[i]) == FieldOf(others[i])
    ensures ParseFields(basepath, lines) == ParseFields(basepath, others)
  {
    SameLastValue(lines, others, HOST);
    SameLastValue(lines, others, AUTHORIZATION);
    SameLastValue(lines, others, CONTENT_TYPE);
    SameLastValue(lines, others, CONNECTION);
    assert forall i | 0 <= i < |lines| :: HasBearer(lines[i]) == HasBearer(others[i]);
  }

  lemma {:induction false} SameJoined(lines: seq<bytes>, others: seq<bytes>)
    requires |lines| == |others| > 0 && forall i | 0 <= i < |lines| :: SameIgnoringCase(lines[i], others[i])
    ensures SameIgnoringCase(JoinLines(lines), JoinLines(others))
    decreases |lines|
  {
    if |lines| > 1 {
      SameJoined(lines[1..], others[1..]);
      SameConcat(lines[0] + CRLF, others[0] + CRLF, JoinLines(lines[1..]), JoinLines(others[1..]));
    }
  }

  lemma AlikeAreSame(lines: seq<bytes>, others: seq<bytes>)
    requires AllAlike(lines, others)
    ensures forall i | 0 <= i < |lines| :: SameIgnoringCase(lines[i], others[i]) && FieldOf(lines[i]) == FieldOf(others[i])
  {
    forall i | 0 <= i < |lines|
      ensures SameIgnoringCase(lines[i], others[i]) && FieldOf(lines[i]) == FieldOf(others[i])
    {
      AlikeLines(lines[i], others[i], 0);
    }
  }

  lemma SameBlock(lines: seq<bytes>, others: seq<bytes>)
    requires AllAlike(lines, others) && HeaderBlock(lines)
    ensures HeaderBlock(others)
  {
    AlikeAreSame(lines, others);
    forall i | 0 <= i < |others|
      ensures OneLine(others[i]) && |others[i]| == |lines[i]|
    {
      SameOneLine(lines[i], others[i]);
    }
  }

  lemma SameParsedLines(lines: seq<bytes>, others: seq<bytes>)
    requires AllAlike(lines, others)
    ensures ParseLines(lines) == ParseLines(others)
  {
    AlikeAreSame(lines, others);
    if |Tokens(lines[0])| > 1 {
      SameFields(Tokens(lines[0])[1], lines[1..], others[1..]);
    }
  }

  /** `parse_headers` gives the same fields, or the same error, for header names in any case. */
  lemma SameParse(lines: seq<bytes>, others: seq<bytes>)
    requires AllAlike(lines, others) && HeaderBlock(lines)
    ensures ParseHeaders(JoinLines(lines)) == ParseHeaders(JoinLines(others))
  {
    AlikeAreSame(lines, others);
    SameJoined(lines, others);
    SameText(JoinLines(lines), JoinLines(others));
    SameBlock(lines, others);
    SplitJoinLines(lines);
    SplitJoinLines(others);
    SameParsedLines(lines, others);
  }

  /** `rebuild_request` rewrites the same lines of both, and leaves headers that are alike. */
  lemma SameRewrite(lines: seq<bytes>, others: seq<bytes>, n: nat)
    requires AllAlike(lines, others)
    ensures AllAlike(RewriteLines(lines, n), RewriteLines(others, n))
    ensures forall i | 0 <= i < |lines| && IsContentLength(lines[i]) ::
              RewriteLines(lines, n)[i] == RewriteLines(others, n)[i]
  {
    forall i | 0 <= i < |lines|
      ensures Alike(RewriteLine(lines[i], n), RewriteLine(others[i], n))
      ensures IsContentLength(lines[i]) ==> RewriteLine(lines[i], n) == RewriteLine(others[i], n)
    {
      AlikeLines(lines[i], others[i], n);
    }
  }

  /** `check_and_pad` takes both requests and returns the same body, or fails on both with the same
      error. */
  lemma CaseIsFree(accepted: iset<bytes>, config: RequestConfig, lines: seq<bytes>, others: seq<bytes>, body: bytes)
    requires AllAlike(lines, others) && HeaderBlock(lines)
    ensures match CheckAndPad(accepted, config, JoinLines(lines) + BLANK_LINE + body)
            case Success(r) =>
              var s := CheckAndPad(accepted, config, JoinLines(others) + BLANK_LINE + body);
              s.Success? && s.value.body == r.body
            case Failure(e) => CheckAndPad(accepted, config, JoinLines(others) + BLANK_LINE + body) == Failure(e)
  {
    SameBlock(lines, others);
    SplitHttpOfBlock(lines, body);
    SplitHttpOfBlock(others, body);
    SameParse(lines, others);
    SameResult(accepted, config, JoinLines(lines) + BLANK_LINE + body, JoinLines(others) + BLANK_LINE + body,
               JoinLines(lines), JoinLines(others), body);
  }

  lemma SameResult(accepted: iset<bytes>, config: RequestConfig, data: bytes, other: bytes, headers: bytes,
                   otherHeaders: bytes, body: bytes)
    requires SplitHttp(data) == Success((headers, body)) && SplitHttp(other) == Success((otherHeaders, body))
    requires ParseHeaders(headers) == ParseHeaders(otherHeaders)
    ensures match CheckAndPad(accepted, config, data)
            case Success(r) =>
              CheckAndPad(accepted, config, other).Success? && CheckAndPad(accepted, config, other).value.body == r.body
            case Failure(e) => CheckAndPad(accepted, config, other) == Failure(e)
  {
  }
}
