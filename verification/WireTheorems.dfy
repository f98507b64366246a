/** What splitting, rebuilding and checking a request preserve. */
module WireTheorems {
  import opened Sequences
  import opened Bytes
  import opened Text
  import opened WireSpec
  import opened Lines

  // Splitting and rebuilding.

  lemma SplitHttpOfBlock(lines: seq<bytes>, body: bytes)
    requires HeaderBlock(lines)
    ensures SplitHttp(JoinLines(lines) + BLANK_LINE + body) == Success((JoinLines(lines), body))
  {
    var data := JoinLines(lines) + BLANK_LINE + body;
    BlankLineEndsBlock(lines, body);
    FindUnique(data, BLANK_LINE, |JoinLines(lines)|);
    assert data[..|JoinLines(lines)|] == JoinLines(lines);
    assert data[|JoinLines(lines)| + 4..] == body;
  }

  /** `split_http` succeeds exactly at the first blank line. */
  lemma SplitHttpExactly(data: bytes, headers: bytes, body: bytes)
    ensures SplitHttp(data) == Success((headers, body))
       <==> data == headers + BLANK_LINE + body && FirstAt(data, BLANK_LINE, |headers|)
  {
    FindFirst(data, BLANK_LINE);
    if SplitHttp(data) == Success((headers, body)) {
      var i := Find(data, BLANK_LINE).value;
      assert data == data[..i] + data[i..i + 4] + data[i + 4..];
    }
    if data == headers + BLANK_LINE + body && FirstAt(data, BLANK_LINE, |headers|) {
      FindUnique(data, BLANK_LINE, |headers|);
      assert data[..|headers|] == headers && data[|headers| + 4..] == body;
    }
  }

  lemma SplitHttpGivesBlock(data: bytes)
    requires SplitHttp(data).Success?
    ensures var (headers, body) := SplitHttp(data).value;
            data == headers + BLANK_LINE + body && HeaderBlock(SplitLines(headers))
  {
    var (headers, body) := SplitHttp(data).value;
    SplitHttpExactly(data, headers, body);
    HeadersAreBlock(headers, body);
  }

  lemma ContentLengthBytes(n: nat, line: bytes)
    requires line == HeaderLine(CONTENT_LENGTH, Decimal(n))
    ensures LF !in line && IsAscii(line)
  {
    DecimalIsDigits(n);
    assert forall i | 0 <= i < |CONTENT_LENGTH| :: CONTENT_LENGTH[i] != LF && CONTENT_LENGTH[i] < 0x80;
  }

  lemma ContentLengthLine(n: nat)
    ensures OneLine(HeaderLine(CONTENT_LENGTH, Decimal(n)))
    ensures IsText(HeaderLine(CONTENT_LENGTH, Decimal(n)))
    ensures Find(HeaderLine(CONTENT_LENGTH, Decimal(n)), [COLON]) == Some(|CONTENT_LENGTH|)
  {
    var line := HeaderLine(CONTENT_LENGTH, Decimal(n));
    ContentLengthBytes(n, line);
    NoLineFeedIsOneLine(line);
    AsciiIsText(line);
    FirstColon(CONTENT_LENGTH, [SPACE] + Decimal(n));
    assert line == CONTENT_LENGTH + [COLON] + ([SPACE] + Decimal(n));
  }

  lemma FirstColon(name: bytes, rest: bytes)
    requires COLON !in name
    ensures Find(name + [COLON] + rest, [COLON]) == Some(|name|)
  {
    var line := name + [COLON] + rest;
    forall j | 0 <= j < |name|
      ensures !OccursAt(line, [COLON], j)
    {
      assert line[j..j + 1] == [name[j]];
    }
    assert line[|name|..|name| + 1] == [COLON];
    FindUnique(line, [COLON], |name|);
  }

  lemma RewriteKeepsBlock(lines: seq<bytes>, n: nat)
    requires HeaderBlock(lines)
    ensures HeaderBlock(RewriteLines(lines, n))
  {
    ContentLengthLine(n);
  }

  /** Splitting what `rebuild_request` built gives back the new body and the same headers with only
      the content-length lines rewritten; no earlier blank line ever appears. */
  lemma RebuildRoundTrip(data: bytes, body: bytes, n: nat)
    requires SplitHttp(data).Success?
    ensures var headers := SplitHttp(data).value.0;
            SplitHttp(RewriteHeaders(headers, n) + BLANK_LINE + body) == Success((RewriteHeaders(headers, n), body))
            && SplitLines(RewriteHeaders(headers, n)) == RewriteLines(SplitLines(headers), n)
  {
    SplitHttpGivesBlock(data);
    var lines := SplitLines(SplitHttp(data).value.0);
    RewriteKeepsBlock(lines, n);
    SplitHttpOfBlock(RewriteLines(lines, n), body);
    SplitJoinLines(RewriteLines(lines, n));
  }

  // Parsing does not see the rewritten lines.

  predicate IsContentLength(line: bytes) {
    var i := Find(line, [COLON]);
    i.Some? && Lower(line[..i.value]) == Lower(CONTENT_LENGTH)
  }

  lemma ContentLengthName(line: bytes)
    requires IsContentLength(line)
    ensures FieldOf(line).Some? && FieldOf(line).value.name == Lower(CONTENT_LENGTH)
    ensures NoSpace(line[..|CONTENT_LENGTH|])
  {
    var name := line[..Find(line, [COLON]).value];
    assert |name| == |Lower(name)| == |CONTENT_LENGTH|;
    forall i | 0 <= i < |name|
      ensures name[i] < 0x80 && !IsSpace(name[i])
    {
      assert Lower(name)[i] == Lower(CONTENT_LENGTH)[i] == LowerByte(CONTENT_LENGTH[i]);
      assert LowerByte(CONTENT_LENGTH[i]) < 0x80 && !IsSpace(LowerByte(CONTENT_LENGTH[i]));
    }
    AsciiNoSpace(name);
    TrimNothing(name);
  }

  lemma RewrittenIsContentLength(n: nat)
    ensures IsContentLength(HeaderLine(CONTENT_LENGTH, Decimal(n)))
  {
    ContentLengthLine(n);
    assert HeaderLine(CONTENT_LENGTH, Decimal(n))[..|CONTENT_LENGTH|] == CONTENT_LENGTH;
  }

  predicate ReadName(name: bytes) {
    name == HOST || name == AUTHORIZATION || name == CONTENT_TYPE || name == CONNECTION
  }

  lemma ReadNamesDiffer(name: bytes)
    requires ReadName(name)
    ensures Lower(name) != Lower(CONTENT_LENGTH)
  {
    if name == CONTENT_TYPE {
      assert Lower(name)[8] == 0x74;
    } else {
      assert |Lower(name)| != |Lower(CONTENT_LENGTH)|;
    }
  }

  lemma RewriteKeepsField(line: bytes, n: nat, name: bytes)
    requires ReadName(name)
    ensures IsField(RewriteLine(line, n), name) == IsField(line, name)
    ensures IsField(line, name) ==> RewriteLine(line, n) == line
  {
    if IsContentLength(line) {
      ContentLengthName(line);
      RewrittenIsContentLength(n);
      ContentLengthName(RewriteLine(line, n));
      ReadNamesDiffer(name);
    }
  }

  lemma {:induction false} RewriteKeepsLastValue(lines: seq<bytes>, n: nat, name: bytes)
    requires ReadName(name)
    ensures LastValue(RewriteLines(lines, n), name) == LastValue(lines, name)
    decreases |lines|
  {
    if lines != [] {
      var front := lines[..|lines| - 1];
      RewriteKeepsField(lines[|lines| - 1], n, name);
      RewriteKeepsLastValue(front, n, name);
      assert RewriteLines(lines, n)[..|lines| - 1] == RewriteLines(front, n);
    }
  }

  lemma RewriteKeepsFields(basepath: bytes, lines: seq<bytes>, n: nat)
    ensures ParseFields(basepath, RewriteLines(lines, n)) == ParseFields(basepath, lines)
  {
    var rewritten := RewriteLines(lines, n);
    RewriteKeepsLastValue(lines, n, HOST);
    RewriteKeepsLastValue(lines, n, AUTHORIZATION);
    RewriteKeepsLastValue(lines, n, CONTENT_TYPE);
    RewriteKeepsLastValue(lines, n, CONNECTION);
    forall i | 0 <= i < |lines|
      ensures HasBearer(rewritten[i]) == HasBearer(lines[i])
    {
      RewriteKeepsField(lines[i], n, AUTHORIZATION);
    }
    assert (forall i | 0 <= i < |lines| :: HasBearer(rewritten[i])) <==> (forall i | 0 <= i < |lines| :: HasBearer(lines[i]));
  }

  lemma ContentLengthIsNotPost(line: bytes)
    requires IsContentLength(line)
    ensures |Tokens(line)| > 0 && Tokens(line)[0] != POST
  {
    ContentLengthName(line);
    assert |line[..Find(line, [COLON]).value]| == |Lower(CONTENT_LENGTH)|;
    FindFirst(line, [COLON]);
    ColonAt(line, |CONTENT_LENGTH|);
    LongToken(line, |CONTENT_LENGTH|);
  }

  lemma ColonAt(line: bytes, i: nat)
    requires OccursAt(line, [COLON], i)
    ensures line[i] == COLON
  {
    assert line[i..i + 1][0] == line[i];
  }

  lemma LongToken(line: bytes, n: nat)
    requires 4 < n <= |line| && NoSpace(line[..n])
    requires n == |line| || line[n] < 0x80
    ensures |Tokens(line)| > 0 && |Tokens(line)[0]| >= n
  {
    assert line == line[..n] + line[n..];
    NoSpaceAtEnd(line[..n]);
    SpaceBeforeAscii(line[..n], line[n..]);
    LongTokenLength(line[..n], line[n..], line);
  }

  lemma {:induction false} LongTokenLength(token: bytes, rest: bytes, line: bytes)
    requires line == token + rest && NoSpace(token) && (rest == [] || rest[0] < 0x80)
    ensures TokenLength(line) >= |token|
    decreases |token|
  {
    if token != [] {
      NoSpaceAtEnd(token);
      SpaceBeforeAscii(token, rest);
      NoSpaceTail(token);
      TailConcat(token, rest);
      LongTokenLength(token[1..], rest, line[1..]);
    }
  }

  lemma ParseLinesAfterRewrite(lines: seq<bytes>, n: nat)
    requires |lines| > 0
    ensures ParseLines(RewriteLines(lines, n)) == ParseLines(lines)
  {
    var rewritten := RewriteLines(lines, n);
    assert rewritten[1..] == RewriteLines(lines[1..], n);
    var parts := Tokens(lines[0]);
    if IsContentLength(lines[0]) {
      ContentLengthIsNotPost(lines[0]);
      RewrittenIsContentLength(n);
      ContentLengthIsNotPost(rewritten[0]);
    } else if |parts| > 1 {
      assert rewritten[0] == lines[0];
      RewriteKeepsFields(parts[1], lines[1..], n);
    }
  }

  /** `parse_headers` reads the same fields, or fails in the same way, before and after rebuilding. */
  lemma ParseAfterRewrite(headers: bytes, n: nat)
    requires IsText(headers) && HeaderBlock(SplitLines(headers))
    ensures ParseHeaders(RewriteHeaders(headers, n)) == ParseHeaders(headers)
  {
    var lines := SplitLines(headers);
    RewriteKeepsBlock(lines, n);
    SplitJoinLines(RewriteLines(lines, n));
    RewriteIsText(headers, n);
    ParseLinesAfterRewrite(lines, n);
  }

  lemma RewriteIsText(headers: bytes, n: nat)
    requires IsText(headers)
    ensures IsText(RewriteHeaders(headers, n))
  {
    JoinSplitLines(headers);
    LinesAreText(SplitLines(headers));
    ContentLengthLine(n);
    JoinIsText(RewriteLines(SplitLines(headers), n));
  }

  lemma {:induction false} LinesAreText(lines: seq<bytes>)
    requires |lines| > 0 && IsText(JoinLines(lines))
    ensures forall i | 0 <= i < |lines| :: IsText(lines[i])
    decreases |lines|
  {
    if |lines| > 1 {
      var rest := JoinLines(lines[1..]);
      Associates(lines[0], CRLF, rest);
      TextBeforeAscii(lines[0], CRLF + rest);
      AsciiIsText(CRLF);
      TextConcat(CRLF, rest);
      LinesAreText(lines[1..]);
      assert forall i | 1 <= i < |lines| :: lines[i] == lines[1..][i - 1];
    }
  }

  lemma {:induction false} JoinIsText(lines: seq<bytes>)
    requires |lines| > 0 && forall i | 0 <= i < |lines| :: IsText(lines[i])
    ensures IsText(JoinLines(lines))
    decreases |lines|
  {
    if |lines| > 1 {
      JoinIsText(lines[1..]);
      AsciiIsText(CRLF);
      TextConcat(lines[0], CRLF);
      TextConcat(lines[0] + CRLF, JoinLines(lines[1..]));
    }
  }

  // Checking and padding.

  /** Every returned request splits into headers with the same fields and exactly the returned body,
      which has the configured length. */
  lemma CheckAndPadSplits(accepted: iset<bytes>, config: RequestConfig, data: bytes)
    requires CheckAndPad(accepted, config, data).Success?
    ensures var r := CheckAndPad(accepted, config, data).value;
            |r.body| == config.contentLength
            && SplitHttp(r.request).Success? && SplitHttp(r.request).value.1 == r.body
            && ParseHeaders(SplitHttp(r.request).value.0) == ParseHeaders(SplitHttp(data).value.0)
  {
    var (headers, body) := SplitHttp(data).value;
    SplitHttpGivesBlock(data);
    if |body| != config.contentLength {
      var newBody := PadBody(body, config.contentLength).value;
      RebuildRoundTrip(data, newBody, config.contentLength);
      ParseAfterRewrite(headers, config.contentLength);
    }
  }

  /** `check_and_pad` is a projection: run on its own result it returns that result, exactly when the
      padded body is still accepted. */
  lemma CheckAndPadIsProjection(accepted: iset<bytes>, config: RequestConfig, data: bytes)
    requires CheckAndPad(accepted, config, data).Success?
    ensures var r := CheckAndPad(accepted, config, data).value;
            CheckAndPad(accepted, config, r.request) == (if r.body in accepted then Success(r) else Failure(InvalidChatBody))
  {
    CheckAndPadSplits(accepted, config, data);
  }
}
