/** HTTP messages with any list of headers: how they are parsed, checked and padded, and when they
    land on the circuit's template. */
module Messages {
  import opened Sequences
  import opened Bytes
  import opened Text
  import opened WireSpec
  import opened Lines
  import opened WireTheorems
  import opened Templates

  datatype Header = Header(name: bytes, value: bytes)

  predicate SameName(name: bytes, other: bytes) {
    Lower(name) == Lower(other)
  }

  predicate TokenName(name: bytes) {
    COLON !in name && NoSpace(name)
  }

  function HeaderLines(headers: seq<Header>): (lines: seq<bytes>)
    ensures |lines| == |headers|
    ensures forall i | 0 <= i < |headers| :: lines[i] == HeaderLine(headers[i].name, headers[i].value)
  {
    seq(|headers|, i requires 0 <= i < |headers| => HeaderLine(headers[i].name, headers[i].value))
  }

  ghost predicate ValidHeaders(headers: seq<Header>) {
    forall h | h in headers :: TokenName(h.name) && OneLine(h.value)
  }

  datatype Message = Message(method_: bytes, path: bytes, headers: seq<Header>, body: bytes) {
    ghost predicate Valid() {
      method_ != [] && NoSpace(method_) && path != [] && NoSpace(path) && ValidHeaders(headers)
    }

    function Lines(): (lines: seq<bytes>)
      ensures |lines| > 0
    {
      [RequestLine(method_, path)] + HeaderLines(headers)
    }

    function Encode(): bytes {
      JoinLines(Lines()) + BLANK_LINE + body
    }
  }

  // Splitting.

  lemma HeaderLineIsLine(h: Header)
    requires TokenName(h.name) && OneLine(h.value)
    ensures OneLine(HeaderLine(h.name, h.value))
  {
    NoSpaceByte(h.name, CR);
    NoSpaceByte(h.name, LF);
    PlainHeaderLine(h.name, h.value);
  }

  lemma RequestLineIsLine(method_: bytes, path: bytes)
    requires NoSpace(method_) && NoSpace(path)
    ensures OneLine(RequestLine(method_, path))
  {
    NoSpaceByte(method_, LF);
    NoSpaceByte(path, LF);
    assert LF !in HTTP_1_1;
    NoLineFeedIsOneLine(RequestLine(method_, path));
  }

  /** If every line is one line, the first blank line is the one before the body. */
  lemma LinesSplit(m: Message)
    requires OneLine(RequestLine(m.method_, m.path))
    requires forall h | h in m.headers :: OneLine(HeaderLine(h.name, h.value))
    ensures HeaderBlock(m.Lines())
    ensures SplitHttp(m.Encode()) == Success((JoinLines(m.Lines()), m.body))
    ensures SplitLines(JoinLines(m.Lines())) == m.Lines()
  {
    SplitHttpOfBlock(m.Lines(), m.body);
    SplitJoinLines(m.Lines());
  }

  lemma MessageSplits(m: Message)
    requires m.Valid()
    ensures HeaderBlock(m.Lines())
    ensures SplitHttp(m.Encode()) == Success((JoinLines(m.Lines()), m.body))
    ensures SplitLines(JoinLines(m.Lines())) == m.Lines()
  {
    RequestLineIsLine(m.method_, m.path);
    forall h | h in m.headers
      ensures OneLine(HeaderLine(h.name, h.value))
    {
      HeaderLineIsLine(h);
    }
    LinesSplit(m);
  }

  // Parsing.

  lemma FieldOfHeaderLine(name: bytes, value: bytes)
    requires TokenName(name)
    ensures FieldOf(HeaderLine(name, value)) == Some(HeaderField(Lower(name), Trim(value)))
    ensures Find(HeaderLine(name, value), [COLON]) == Some(|name|)
  {
    var line := HeaderLine(name, value);
    assert line == name + [COLON] + ([SPACE] + value);
    FirstColon(name, [SPACE] + value);
    assert line[..|name|] == name && line[|name| + 1..] == [SPACE] + value;
    TrimNothing(name);
    TrimLeadingSpace(value);
  }

  lemma RequestLineTokens(method_: bytes, path: bytes)
    requires method_ != [] && NoSpace(method_) && path != [] && NoSpace(path)
    ensures |Tokens(RequestLine(method_, path))| > 1
    ensures Tokens(RequestLine(method_, path))[0] == method_ && Tokens(RequestLine(method_, path))[1] == path
  {
    var afterPath := [SPACE] + HTTP_1_1;
    var afterMethod := [SPACE] + (path + afterPath);
    assert RequestLine(method_, path) == method_ + afterMethod;
    FirstToken(method_, afterMethod);
    TokensAfterSpace(path + afterPath);
    FirstToken(path, afterPath);
  }

  /** The trimmed value of the last header with this name. */
  function LastHeader(headers: seq<Header>, name: bytes): Option<bytes> {
    if headers == [] then None
    else if SameName(headers[|headers| - 1].name, name) then Some(Trim(headers[|headers| - 1].value))
    else LastHeader(headers[..|headers| - 1], name)
  }

  lemma {:induction false} LastHeaderConcat(a: seq<Header>, b: seq<Header>, name: bytes)
    ensures LastHeader(a + b, name)
         == if LastHeader(b, name).Some? then LastHeader(b, name) else LastHeader(a, name)
    decreases |b|
  {
    if b == [] {
      assert a + b == a;
    } else {
      LastHeaderConcat(a, b[..|b| - 1], name);
      assert (a + b)[..|a + b| - 1] == a + b[..|b| - 1];
    }
  }

  lemma {:induction false} LastValueOfHeaders(headers: seq<Header>, name: bytes)
    requires ValidHeaders(headers)
    ensures LastValue(HeaderLines(headers), name) == LastHeader(headers, name)
    decreases |headers|
  {
    if headers != [] {
      var h := headers[|headers| - 1];
      FieldOfHeaderLine(h.name, h.value);
      LastValueOfHeaders(headers[..|headers| - 1], name);
      assert HeaderLines(headers)[..|headers| - 1] == HeaderLines(headers[..|headers| - 1]);
    }
  }

  /** An authorization header brings a bearer token. */
  predicate HasToken(h: Header) {
    SameName(h.name, AUTHORIZATION) ==> Bearer(Trim(h.value)).Some?
  }

  predicate AllHaveTokens(headers: seq<Header>) {
    forall h | h in headers :: HasToken(h)
  }

  lemma BearersOfHeaders(headers: seq<Header>)
    requires ValidHeaders(headers)
    ensures (forall i | 0 <= i < |headers| :: HasBearer(HeaderLines(headers)[i])) <==> AllHaveTokens(headers)
  {
    forall i | 0 <= i < |headers|
      ensures HasBearer(HeaderLines(headers)[i]) <==> HasToken(headers[i])
    {
      FieldOfHeaderLine(headers[i].name, headers[i].value);
    }
  }

  /** What the headers of a POST request say to the parser. */
  function ParsedHeaderList(path: bytes, headers: seq<Header>): Result<ParsedHeaders, Error> {
    Assemble(path, AllHaveTokens(headers), LastHeader(headers, HOST), LastHeader(headers, AUTHORIZATION),
             LastHeader(headers, CONTENT_TYPE), LastHeader(headers, CONNECTION))
  }

  function ParsedMessage(m: Message): Result<ParsedHeaders, Error> {
    if !IsText(JoinLines(m.Lines())) then Failure(NotUtf8)
    else if m.method_ != POST then Failure(NotPost)
    else ParsedHeaderList(m.path, m.headers)
  }

  lemma ParsedLines(path: bytes, headers: seq<Header>)
    requires ValidHeaders(headers)
    ensures ParseFields(path, HeaderLines(headers)) == ParsedHeaderList(path, headers)
  {
    LastValueOfHeaders(headers, HOST);
    LastValueOfHeaders(headers, AUTHORIZATION);
    LastValueOfHeaders(headers, CONTENT_TYPE);
    LastValueOfHeaders(headers, CONNECTION);
    BearersOfHeaders(headers);
  }

  lemma MessageLinesParse(m: Message)
    requires m.Valid()
    ensures ParseLines(m.Lines()) == if m.method_ != POST then Failure(NotPost) else ParsedHeaderList(m.path, m.headers)
  {
    RequestLineTokens(m.method_, m.path);
    ParsedLines(m.path, m.headers);
    assert m.Lines()[1..] == HeaderLines(m.headers);
  }

  /** The exact result of `parse_headers` on the head of any message. */
  lemma MessageParses(m: Message)
    requires m.Valid()
    ensures ParseHeaders(JoinLines(m.Lines())) == ParsedMessage(m)
  {
    MessageSplits(m);
    MessageLinesParse(m);
  }

  // Rewriting.

  function RewrittenHeader(h: Header, n: nat): Header {
    if SameName(h.name, CONTENT_LENGTH) then Header(CONTENT_LENGTH, Decimal(n)) else h
  }

  function RewrittenHeaders(headers: seq<Header>, n: nat): (rewritten: seq<Header>)
    ensures |rewritten| == |headers|
    ensures forall i | 0 <= i < |headers| :: rewritten[i] == RewrittenHeader(headers[i], n)
  {
    seq(|headers|, i requires 0 <= i < |headers| => RewrittenHeader(headers[i], n))
  }

  lemma HeaderLineRewritten(h: Header, n: nat)
    requires TokenName(h.name)
    ensures RewriteLine(HeaderLine(h.name, h.value), n)
         == HeaderLine(RewrittenHeader(h, n).name, RewrittenHeader(h, n).value)
  {
    FieldOfHeaderLine(h.name, h.value);
    assert HeaderLine(h.name, h.value)[..|h.name|] == h.name;
  }

  lemma PostIsToken()
    ensures POST != [] && NoSpace(POST)
  {
    AsciiNoSpace(POST);
  }

  lemma RequestLineKept(path: bytes, n: nat)
    requires path != [] && NoSpace(path)
    ensures RewriteLine(RequestLine(POST, path), n) == RequestLine(POST, path)
  {
    PostIsToken();
    RequestLineTokens(POST, path);
    if IsContentLength(RequestLine(POST, path)) {
      ContentLengthIsNotPost(RequestLine(POST, path));
    }
  }

  lemma RewriteFirst(line: bytes, lines: seq<bytes>, n: nat)
    ensures RewriteLines([line] + lines, n) == [RewriteLine(line, n)] + RewriteLines(lines, n)
  {
  }

  lemma HeaderLinesRewritten(headers: seq<Header>, n: nat)
    requires ValidHeaders(headers)
    ensures RewriteLines(HeaderLines(headers), n) == HeaderLines(RewrittenHeaders(headers, n))
  {
    forall i | 0 <= i < |headers|
      ensures RewriteLines(HeaderLines(headers), n)[i] == HeaderLines(RewrittenHeaders(headers, n))[i]
    {
      HeaderLineRewritten(headers[i], n);
    }
  }

  lemma RewriteMessageLines(path: bytes, headers: seq<Header>, n: nat)
    requires path != [] && NoSpace(path) && ValidHeaders(headers)
    ensures RewriteLines([RequestLine(POST, path)] + HeaderLines(headers), n)
         == [RequestLine(POST, path)] + HeaderLines(RewrittenHeaders(headers, n))
  {
    RequestLineKept(path, n);
    HeaderLinesRewritten(headers, n);
    RewriteFirst(RequestLine(POST, path), HeaderLines(headers), n);
  }

  // Checking.

  /** What a message must be like to pass `check_and_pad`. */
  ghost predicate Passes(accepted: iset<bytes>, config: RequestConfig, m: Message) {
    && ParsedMessage(m).Success? && ValidateHeaders(ParsedMessage(m).value, config).None?
    && m.body in accepted && PadBody(m.body, config.contentLength).Success?
  }

  /** The headers that come back. */
  function CheckedHeaders(m: Message, n: nat): seq<Header> {
    if |m.body| == n then m.headers else RewrittenHeaders(m.headers, n)
  }

  lemma ParsedSuccess(m: Message)
    requires ParsedMessage(m).Success?
    ensures IsText(JoinLines(m.Lines())) && m.method_ == POST && ParsedMessage(m).value.basepath == m.path
  {
  }

  lemma PassesStart(accepted: iset<bytes>, config: RequestConfig, m: Message)
    requires m.Valid()
    ensures SplitHttp(m.Encode()) == Success((JoinLines(m.Lines()), m.body))
    ensures ParseHeaders(JoinLines(m.Lines())) == ParsedMessage(m)
    ensures ParsedMessage(m).Success? ==> IsText(JoinLines(m.Lines())) && m.method_ == POST
  {
    MessageSplits(m);
    MessageParses(m);
    if ParsedMessage(m).Success? {
      ParsedSuccess(m);
    }
  }

  /** Exactly when a message passes `check_and_pad`. */
  lemma MessagePassesExactly(accepted: iset<bytes>, config: RequestConfig, m: Message)
    requires m.Valid()
    ensures CheckAndPad(accepted, config, m.Encode()).Success? <==> Passes(accepted, config, m)
  {
    PassesStart(accepted, config, m);
  }

  /** What comes back. */
  lemma CheckedMessage(accepted: iset<bytes>, config: RequestConfig, m: Message)
    requires m.Valid() && CheckAndPad(accepted, config, m.Encode()).Success?
    ensures var r := CheckAndPad(accepted, config, m.Encode()).value;
            PadBody(m.body, config.contentLength) == Success(r.body)
            && SplitHttp(m.Encode()).Success?
            && CheckedLines(m.Encode(), config.contentLength)
               == [RequestLine(POST, config.basepath)] + HeaderLines(CheckedHeaders(m, config.contentLength))
    ensures m.method_ == POST && m.path == config.basepath
  {
    PassesStart(accepted, config, m);
    MessageSplits(m);
    MessagePassesExactly(accepted, config, m);
    ParsedSuccess(m);
    RewriteMessageLines(m.path, m.headers, config.contentLength);
  }

  // The template as a message.

  function TemplateHeaders(config: RequestConfig): (headers: seq<Header>)
    ensures |headers| == 5
  {
    [Header(HOST, config.host), Header(AUTHORIZATION, BEARER + config.apiKey), Header(CONTENT_TYPE, APPLICATION_JSON),
     Header(CONTENT_LENGTH, Decimal(config.contentLength)), Header(CONNECTION, CLOSE)]
  }

  lemma TemplateIsMessage(config: RequestConfig)
    ensures TemplateLines(config) == [RequestLine(POST, config.basepath)] + HeaderLines(TemplateHeaders(config))
  {
  }

  lemma NamesAreTokens()
    ensures TokenName(HOST) && TokenName(AUTHORIZATION) && TokenName(CONTENT_TYPE)
    ensures TokenName(CONTENT_LENGTH) && TokenName(CONNECTION) && NoSpace(CLOSE)
  {
    AsciiNoSpace(HOST);
    AsciiNoSpace(AUTHORIZATION);
    AsciiNoSpace(CONTENT_TYPE);
    AsciiNoSpace(CONTENT_LENGTH);
    AsciiNoSpace(CONNECTION);
    AsciiNoSpace(CLOSE);
  }

  lemma HeaderLineParts(h: Header)
    ensures HeaderLine(h.name, h.value)[..|h.name|] == h.name && HeaderLine(h.name, h.value)[|h.name| + 2..] == h.value
  {
  }

  lemma SameHeaderLine(g: Header, h: Header)
    requires TokenName(g.name) && TokenName(h.name)
    ensures HeaderLine(g.name, g.value) == HeaderLine(h.name, h.value) <==> g == h
  {
    FieldOfHeaderLine(g.name, g.value);
    FieldOfHeaderLine(h.name, h.value);
    HeaderLineParts(g);
    HeaderLineParts(h);
  }

  predicate TokenNames(headers: seq<Header>) {
    forall i | 0 <= i < |headers| :: TokenName(headers[i].name)
  }

  lemma SameHeaderLines(a: seq<Header>, b: seq<Header>)
    requires TokenNames(a) && TokenNames(b)
    ensures HeaderLines(a) <= HeaderLines(b) <==> a <= b
    ensures HeaderLines(a) == HeaderLines(b) <==> a == b
  {
    forall i | 0 <= i < |a| && i < |b|
      ensures HeaderLines(a)[i] == HeaderLines(b)[i] <==> a[i] == b[i]
    {
      SameHeaderLine(a[i], b[i]);
    }
    if HeaderLines(a) <= HeaderLines(b) {
      assert forall i | 0 <= i < |a| :: HeaderLines(b)[i] == HeaderLines(a)[i];
    }
    if a <= b {
      assert forall i | 0 <= i < |a| :: HeaderLines(b)[i] == HeaderLines(a)[i];
    }
  }

  lemma TokenNamesChecked(m: Message, n: nat)
    requires ValidHeaders(m.headers)
    ensures TokenNames(CheckedHeaders(m, n))
  {
    NamesAreTokens();
  }

  lemma TemplateTokenNames(config: RequestConfig)
    ensures TokenNames(TemplateHeaders(config))
  {
    NamesAreTokens();
  }

  lemma SamePrefix(line: bytes, a: seq<bytes>, b: seq<bytes>)
    ensures [line] + a <= [line] + b <==> a <= b
    ensures [line] + a == [line] + b <==> a == b
  {
    assert ([line] + a)[1..] == a && ([line] + b)[1..] == b;
    if [line] + a <= [line] + b {
      assert a == ([line] + b)[..|a| + 1][1..];
    }
  }

  lemma MessageLinesExactly(config: RequestConfig, m: Message, n: nat)
    requires ValidHeaders(m.headers)
    ensures var lines := [RequestLine(POST, config.basepath)] + HeaderLines(CheckedHeaders(m, n));
            (TemplateLines(config) <= lines <==> TemplateHeaders(config) <= CheckedHeaders(m, n))
            && (lines == TemplateLines(config) <==> CheckedHeaders(m, n) == TemplateHeaders(config))
  {
    var line := RequestLine(POST, config.basepath);
    TemplateIsMessage(config);
    TokenNamesChecked(m, n);
    TemplateTokenNames(config);
    SamePrefix(line, HeaderLines(TemplateHeaders(config)), HeaderLines(CheckedHeaders(m, n)));
    SameHeaderLines(TemplateHeaders(config), CheckedHeaders(m, n));
    SameHeaderLines(CheckedHeaders(m, n), TemplateHeaders(config));
  }

  /** A message that passes comes back starting with the template exactly when its headers, with the
      content length rewritten, start with the template's; and as template, CR LF and body exactly when
      they are the template's. */
  lemma MessageIsTemplateExactly(accepted: iset<bytes>, config: RequestConfig, m: Message)
    requires m.Valid() && CheckAndPad(accepted, config, m.Encode()).Success?
    ensures var r := CheckAndPad(accepted, config, m.Encode()).value;
            (Template(config) <= r.request <==> TemplateHeaders(config) <= CheckedHeaders(m, config.contentLength))
            && (r.request == Template(config) + CRLF + r.body
                <==> CheckedHeaders(m, config.contentLength) == TemplateHeaders(config))
  {
    CheckedMessage(accepted, config, m);
    CheckedTemplateExactly(accepted, config, m.Encode());
    MessageLinesExactly(config, m, config.contentLength);
  }
}
