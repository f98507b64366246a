/** Requests that pass `check_and_pad` and are not the circuit's template, for every configuration and
    every accepted body of the configured length. */
module Witnesses {
  import opened Sequences
  import opened Bytes
  import opened Text
  import opened WireSpec
  import opened Lines
  import opened WireTheorems
  import opened Templates
  import opened Messages
  import opened EncodeSpec
  import opened PrintedFields
  import opened ClientTheorems

  /** A word of text. */
  predicate IsWord(s: bytes) {
    s != [] && IsText(s) && NoSpace(s)
  }

  predicate WordConfig(config: RequestConfig) {
    IsWord(config.host) && IsWord(config.basepath) && IsWord(config.apiKey)
  }

  // Text.

  lemma TextLine(h: Header)
    requires IsText(h.name) && IsText(h.value)
    ensures IsText(HeaderLine(h.name, h.value))
  {
    AsciiIsText([COLON, SPACE]);
    TextConcat(h.name, [COLON, SPACE]);
    TextConcat(h.name + [COLON, SPACE], h.value);
  }

  lemma TextAround(a: bytes, s: bytes, b: bytes)
    requires IsAscii(a) && IsText(s) && IsAscii(b)
    ensures IsText(a + s + b)
  {
    AsciiIsText(a);
    AsciiIsText(b);
    TextConcat(a, s);
    TextConcat(a + s, b);
  }

  lemma TextRequestLine(path: bytes)
    requires IsText(path)
    ensures IsText(RequestLine(POST, path))
  {
    TextAround(POST + [SPACE], path, [SPACE] + HTTP_1_1);
    assert RequestLine(POST, path) == (POST + [SPACE]) + path + ([SPACE] + HTTP_1_1);
  }

  lemma MessageIsText(m: Message)
    requires m.method_ == POST && IsText(m.path) && AllFine(m.headers)
    ensures IsText(JoinLines(m.Lines()))
  {
    TextRequestLine(m.path);
    forall i | 0 <= i < |m.headers|
      ensures IsText(HeaderLines(m.headers)[i])
    {
      assert FineHeader(m.headers[i]);
      TextLine(m.headers[i]);
    }
    JoinIsText(m.Lines());
  }

  // Headers as the `http` crate and the parser take them.

  ghost predicate FineHeader(h: Header) {
    TokenName(h.name) && OneLine(h.value) && IsText(h.name) && IsText(h.value)
  }

  ghost predicate AllFine(headers: seq<Header>) {
    forall h | h in headers :: FineHeader(h)
  }

  /** ASCII without white space and without a colon. */
  predicate Plain(s: bytes) {
    forall i | 0 <= i < |s| :: s[i] < 0x80 && !IsSpace(s[i]) && s[i] != COLON
  }

  lemma PlainIsFine(s: bytes)
    requires Plain(s)
    ensures TokenName(s) && IsText(s) && LF !in s
  {
    AsciiNoSpace(s);
    AsciiIsText(s);
  }

  lemma PlainNames()
    ensures Plain(HOST) && Plain(CONTENT_LENGTH) && Plain(CONNECTION)
  {
  }

  lemma PlainAuthorization()
    ensures Plain(AUTHORIZATION)
  {
  }

  lemma PlainContentType()
    ensures Plain(CONTENT_TYPE) && Plain(APPLICATION_JSON) && Plain(CLOSE)
  {
  }

  lemma FineWith(name: bytes, value: bytes)
    requires Plain(name) && IsText(value) && LF !in value
    ensures FineHeader(Header(name, value))
  {
    PlainIsFine(name);
    NoLineFeedIsOneLine(value);
  }

  lemma FineHost(config: RequestConfig)
    requires WordConfig(config)
    ensures FineHeader(HostHeader(config))
  {
    NoSpaceByte(config.host, LF);
    PlainNames();
    FineWith(HOST, config.host);
  }

  lemma FineBearer(prefix: bytes, key: bytes)
    requires IsWord(key) && IsAscii(prefix) && LF !in prefix
    ensures FineHeader(Header(AUTHORIZATION, prefix + key))
  {
    NoSpaceByte(key, LF);
    TextAround(prefix, key, []);
    assert prefix + key + [] == prefix + key;
    PlainAuthorization();
    FineWith(AUTHORIZATION, prefix + key);
  }

  lemma FineJson()
    ensures FineHeader(JSON_HEADER)
  {
    PlainContentType();
    PlainIsFine(APPLICATION_JSON);
    FineWith(CONTENT_TYPE, APPLICATION_JSON);
  }

  lemma FineLength(n: nat)
    ensures FineHeader(LastHeaders(n)[0])
  {
    DecimalIsDigits(n);
    AsciiIsText(Decimal(n));
    PlainNames();
    FineWith(CONTENT_LENGTH, Decimal(n));
  }

  lemma FineConnection()
    ensures FineHeader(Header(CONNECTION, CLOSE))
  {
    PlainNames();
    PlainContentType();
    PlainIsFine(CLOSE);
    FineWith(CONNECTION, CLOSE);
  }

  lemma AllFineConcat(a: seq<Header>, b: seq<Header>)
    requires AllFine(a) && AllFine(b)
    ensures AllFine(a + b)
  {
  }

  lemma FineLast(n: nat)
    ensures AllFine(LastHeaders(n))
  {
    FineLength(n);
    FineConnection();
  }

  lemma TrimToken(prefix: bytes, token: bytes)
    requires prefix == BEARER || prefix == BEARER_LOWER
    requires token != [] && NoSpace(token)
    ensures Trim(prefix + token) == prefix + token
  {
    NoSpaceAtEnd(token);
    var s := prefix + token;
    assert s[0] == prefix[0];
    assert s[|s| - 1] == token[|token| - 1];
    assert |token| >= 2 ==> s[|s| - 2] == token[|token| - 2];
    assert |token| == 1 ==> s[|s| - 2] == SPACE;
    assert |token| >= 3 ==> s[|s| - 3] == token[|token| - 3];
    assert |token| == 2 ==> s[|s| - 3] == SPACE;
  }

  lemma BearerToken(prefix: bytes, token: bytes)
    requires prefix == BEARER || prefix == BEARER_LOWER
    requires token != [] && NoSpace(token)
    ensures Bearer(Trim(prefix + token)) == Some(token)
  {
    TrimToken(prefix, token);
    assert (prefix + token)[|BEARER|..] == token;
  }

  lemma TrimJson()
    ensures Trim(APPLICATION_JSON) == APPLICATION_JSON
  {
    AsciiNoSpace(APPLICATION_JSON);
    TrimNothing(APPLICATION_JSON);
  }

  // Messages that pass.

  function HostHeader(config: RequestConfig): Header {
    Header(HOST, config.host)
  }

  /** The host, authorization and content-type headers of the template. */
  function Required(config: RequestConfig): (headers: seq<Header>)
    ensures |headers| == 3
  {
    [HostHeader(config), BearerHeader(config), JSON_HEADER]
  }

  /** None of the three. */
  predicate Unread(h: Header) {
    !SameName(h.name, HOST) && !SameName(h.name, AUTHORIZATION) && !SameName(h.name, CONTENT_TYPE)
  }

  predicate AllUnread(headers: seq<Header>) {
    forall h | h in headers :: Unread(h)
  }

  /** Headers that leave the three and the connection as they are. */
  ghost predicate Harmless(headers: seq<Header>) {
    AllFine(headers) && AllUnread(headers) && LastHeader(headers, CONNECTION) == Some(CLOSE)
  }

  lemma {:induction false} UnreadValue(headers: seq<Header>, name: bytes)
    requires forall h | h in headers :: !SameName(h.name, name)
    ensures LastHeader(headers, name) == None
    decreases |headers|
  {
    if headers != [] {
      UnreadValue(headers[..|headers| - 1], name);
    }
  }

  lemma RequiredValues(config: RequestConfig)
    ensures LastHeader(Required(config), HOST) == Some(Trim(config.host))
    ensures LastHeader(Required(config), AUTHORIZATION) == Some(Trim(BEARER + config.apiKey))
    ensures LastHeader(Required(config), CONTENT_TYPE) == Some(Trim(APPLICATION_JSON))
  {
    HeaderNamesDiffer();
    assert Required(config) == [HostHeader(config)] + [BearerHeader(config)] + [JSON_HEADER];
    RequiredValue(config, HOST);
    RequiredValue(config, AUTHORIZATION);
    RequiredValue(config, CONTENT_TYPE);
  }

  lemma RequiredValue(config: RequestConfig, name: bytes)
    ensures LastHeader(Required(config), name)
         == if SameName(CONTENT_TYPE, name) then Some(Trim(APPLICATION_JSON))
            else if SameName(AUTHORIZATION, name) then Some(Trim(BEARER + config.apiKey))
            else if SameName(HOST, name) then Some(Trim(config.host)) else None
  {
    var h, a, c := [HostHeader(config)], [BearerHeader(config)], [JSON_HEADER];
    assert Required(config) == h + a + c;
    LastHeaderConcat(h + a, c, name);
    LastHeaderConcat(h, a, name);
    OneHeaderValue(HostHeader(config), name);
    OneHeaderValue(BearerHeader(config), name);
    OneHeaderValue(JSON_HEADER, name);
  }

  lemma RequiredAreFine(config: RequestConfig)
    requires WordConfig(config)
    ensures AllFine(Required(config))
  {
    FineHost(config);
    BearersAreAscii();
    FineBearer(BEARER, config.apiKey);
    FineJson();
    ThreeFine(HostHeader(config), BearerHeader(config), JSON_HEADER);
  }

  lemma ThreeFine(a: Header, b: Header, c: Header)
    requires FineHeader(a) && FineHeader(b) && FineHeader(c)
    ensures AllFine([a, b, c])
  {
  }

  lemma RequiredHaveTokens(config: RequestConfig)
    requires WordConfig(config)
    ensures AllHaveTokens(Required(config))
  {
    HeaderNamesDiffer();
    BearerToken(BEARER, config.apiKey);
  }

  lemma ValueWith(config: RequestConfig, rest: seq<Header>, name: bytes)
    requires name == HOST || name == AUTHORIZATION || name == CONTENT_TYPE
    requires AllUnread(rest)
    ensures LastHeader(Required(config) + rest, name) == LastHeader(Required(config), name)
  {
    UnreadValue(rest, name);
    LastHeaderConcat(Required(config), rest, name);
  }

  lemma HarmlessValues(config: RequestConfig, rest: seq<Header>)
    requires WordConfig(config) && Harmless(rest)
    ensures LastHeader(Required(config) + rest, HOST) == Some(config.host)
    ensures LastHeader(Required(config) + rest, AUTHORIZATION) == Some(Trim(BEARER + config.apiKey))
    ensures LastHeader(Required(config) + rest, CONTENT_TYPE) == Some(APPLICATION_JSON)
    ensures LastHeader(Required(config) + rest, CONNECTION) == Some(CLOSE)
  {
    RequiredValues(config);
    ValueWith(config, rest, HOST);
    ValueWith(config, rest, AUTHORIZATION);
    ValueWith(config, rest, CONTENT_TYPE);
    LastHeaderConcat(Required(config), rest, CONNECTION);
    TrimNothing(config.host);
    TrimJson();
  }

  lemma HarmlessParses(config: RequestConfig, headers: seq<Header>, rest: seq<Header>)
    requires WordConfig(config) && Harmless(rest) && headers == Required(config) + rest
    ensures ParsedHeaderList(config.basepath, headers)
         == Success(ParsedHeaders(config.host, config.basepath, config.apiKey, APPLICATION_JSON, CLOSE))
  {
    HarmlessValues(config, rest);
    RequiredHaveTokens(config);
    BearerToken(BEARER, config.apiKey);
    assert forall h | h in rest :: HasToken(h);
    assert AllHaveTokens(headers);
  }

  function MessageWith(config: RequestConfig, rest: seq<Header>, body: bytes): Message {
    Message(POST, config.basepath, Required(config) + rest, body)
  }

  lemma HarmlessPasses(accepted: iset<bytes>, config: RequestConfig, rest: seq<Header>, body: bytes)
    requires WordConfig(config) && Harmless(rest) && body in accepted && |body| == config.contentLength
    ensures var m := MessageWith(config, rest, body);
            m.Valid() && CheckAndPad(accepted, config, m.Encode()) == Success(PaddedRequest(m.Encode(), body))
  {
    var m := MessageWith(config, rest, body);
    PostIsToken();
    RequiredAreFine(config);
    assert AllFine(m.headers);
    MessageIsText(m);
    HarmlessParses(config, m.headers, rest);
    ParsedPasses(accepted, config, m, ParsedHeaders(config.host, config.basepath, config.apiKey, APPLICATION_JSON, CLOSE));
  }

  lemma ParsedPasses(accepted: iset<bytes>, config: RequestConfig, m: Message, parsed: ParsedHeaders)
    requires m.Valid() && ParsedMessage(m) == Success(parsed) && m.body in accepted && |m.body| == config.contentLength
    requires parsed == ParsedHeaders(config.host, config.basepath, config.apiKey, APPLICATION_JSON, CLOSE)
    ensures CheckAndPad(accepted, config, m.Encode()) == Success(PaddedRequest(m.Encode(), m.body))
  {
    LowerClose();
    MessagePassesExactly(accepted, config, m);
    MessageSplits(m);
  }

  // Headers that are harmless.

  lemma LastAreOthers(n: nat)
    ensures AllUnread(LastHeaders(n)) && !SameName(CONTENT_LENGTH, CONNECTION)
  {
    HeaderNamesDiffer();
  }

  lemma ConnectionValue()
    ensures LastHeader([Header(CONNECTION, CLOSE)], CONNECTION) == Some(CLOSE)
  {
    OneHeaderValue(Header(CONNECTION, CLOSE), CONNECTION);
    NamesAreTokens();
    TrimNothing(CLOSE);
  }

  lemma LastHeadersHarmless(n: nat)
    ensures Harmless(LastHeaders(n)) && Harmless([Header(CONNECTION, CLOSE)])
  {
    var length, connection := [LastHeaders(n)[0]], [Header(CONNECTION, CLOSE)];
    FineLast(n);
    LastAreOthers(n);
    ConnectionValue();
    assert LastHeaders(n) == length + connection;
    LastHeaderConcat(length, connection, CONNECTION);
    assert connection[0] in LastHeaders(n);
  }

  /** A further header: not one of the template's. */
  ghost predicate Further(h: Header) {
    FineHeader(h) && Unread(h) && !SameName(h.name, CONTENT_LENGTH) && !SameName(h.name, CONNECTION)
  }

  lemma FurtherHarmless(extra: Header, n: nat)
    requires Further(extra)
    ensures Harmless([extra] + LastHeaders(n)) && Harmless(LastHeaders(n) + [extra])
  {
    LastHeadersHarmless(n);
    OneHeaderValue(extra, CONNECTION);
    LastHeaderConcat([extra], LastHeaders(n), CONNECTION);
    LastHeaderConcat(LastHeaders(n), [extra], CONNECTION);
  }

  // The witnesses.

  /** With "bearer " in lower case a chat request passes and misses the template. */
  lemma LowerCaseBearerMissesTemplate(accepted: iset<bytes>, config: RequestConfig, body: bytes)
    requires WordConfig(config) && body in accepted && |body| == config.contentLength
    ensures var req := ChatRequest(POST, config.basepath, config.host, BEARER_LOWER + config.apiKey, APPLICATION_JSON, body);
            req.Valid() && CheckAndPad(accepted, config, EncodeRequest(req.AsRequest())).Success?
            && !(Template(config) <= CheckAndPad(accepted, config, EncodeRequest(req.AsRequest())).value.request)
  {
    var req := ChatRequest(POST, config.basepath, config.host, BEARER_LOWER + config.apiKey, APPLICATION_JSON, body);
    PostIsToken();
    NoSpaceByte(config.apiKey, LF);
    assert LF !in BEARER_LOWER && LF !in APPLICATION_JSON;
    LowerCaseIsText(config, req);
    LowerCasePasses(accepted, config, req);
    PaddedIsTemplateExactly(accepted, config, req);
    assert req.authorization[0] != (BEARER + config.apiKey)[0];
  }

  lemma LowerCasePasses(accepted: iset<bytes>, config: RequestConfig, req: ChatRequest)
    requires WordConfig(config) && req.Valid() && req.IsUtf8()
    requires req.method_ == POST && req.path == config.basepath && req.authority == config.host
    requires req.authorization == BEARER_LOWER + config.apiKey && req.contentType == APPLICATION_JSON
    requires req.body in accepted && |req.body| == config.contentLength
    ensures CheckAndPad(accepted, config, EncodeRequest(req.AsRequest())).Success?
  {
    BearerToken(BEARER_LOWER, config.apiKey);
    TrimJson();
    ChatPassesExactly(accepted, config, req);
  }

  lemma BearersAreAscii()
    ensures IsAscii(BEARER) && LF !in BEARER && IsAscii(BEARER_LOWER) && LF !in BEARER_LOWER
  {
  }

  lemma ChatIsText(req: ChatRequest, host: Header, authorization: Header, contentType: Header)
    requires host == Header(HOST, req.authority) && authorization == Header(AUTHORIZATION, req.authorization)
    requires contentType == Header(CONTENT_TYPE, req.contentType)
    requires FineHeader(host) && FineHeader(authorization) && FineHeader(contentType)
    requires req.method_ == POST && IsText(req.path)
    ensures req.IsUtf8()
  {
    ThreeFine(host, authorization, contentType);
    ChatHeaders(req);
    PrintedIsText(req.AsRequest(), [host, authorization, contentType]);
  }

  lemma LowerCaseIsText(config: RequestConfig, req: ChatRequest)
    requires WordConfig(config) && req.method_ == POST && req.path == config.basepath && req.authority == config.host
    requires req.authorization == BEARER_LOWER + config.apiKey && req.contentType == APPLICATION_JSON
    ensures req.IsUtf8()
  {
    FineHost(config);
    BearersAreAscii();
    FineBearer(BEARER_LOWER, config.apiKey);
    FineJson();
    ChatIsText(req, HostHeader(config), Header(AUTHORIZATION, req.authorization), JSON_HEADER);
  }

  lemma PrintedIsText(req: Request, headers: seq<Header>)
    requires LeavesToPrinter(req) && HostHeaders(req) + Kept(req.headers) == headers && AllFine(headers)
    requires req.method_ == POST && IsText(req.Path())
    ensures IsText(JoinLines(AsMessage(req).Lines()))
  {
    FineLast(|req.body|);
    CheckedPrinted(req, |req.body|);
    AllFineConcat(headers, LastHeaders(|req.body|));
    MessageIsText(AsMessage(req));
  }

  /** A printed request with the literal headers and any further one passes and misses the template. */
  lemma FurtherHeaderMissesTemplate(accepted: iset<bytes>, config: RequestConfig, extra: Header, body: bytes)
    requires WordConfig(config) && Further(extra) && body in accepted && |body| == config.contentLength
    ensures var req := RequestWith(config, extra, body);
            req.Valid() && CheckAndPad(accepted, config, EncodeRequest(req)).Success?
            && !(Template(config) <= CheckAndPad(accepted, config, EncodeRequest(req)).value.request)
  {
    var req := RequestWith(config, extra, body);
    var rest := [extra] + LastHeaders(config.contentLength);
    RequestWithIsMessage(config, extra, body);
    FurtherHarmless(extra, config.contentLength);
    HarmlessPasses(accepted, config, rest, body);
    UsualIsTemplateExactly(accepted, config, req);
  }

  function RequestWith(config: RequestConfig, extra: Header, body: bytes): Request {
    Request(POST, Some(config.basepath), Some(config.host), [BearerHeader(config), JSON_HEADER, extra], body)
  }

  lemma RequestWithHeaders(config: RequestConfig, extra: Header, body: bytes)
    requires Further(extra)
    ensures var req := RequestWith(config, extra, body);
            LeavesToPrinter(req) && Kept(req.headers) == [BearerHeader(config), JSON_HEADER, extra]
  {
    HeaderNamesDiffer();
    ThreeKept(BearerHeader(config), JSON_HEADER, extra);
  }

  lemma RequestWithIsMessage(config: RequestConfig, extra: Header, body: bytes)
    requires WordConfig(config) && Further(extra) && |body| == config.contentLength
    ensures var req := RequestWith(config, extra, body);
            req.Valid() && LeavesToPrinter(req) && Kept(req.headers) == [BearerHeader(config), JSON_HEADER, extra]
            && AsMessage(req) == MessageWith(config, [extra] + LastHeaders(config.contentLength), body)
  {
    var req := RequestWith(config, extra, body);
    RequestWithHeaders(config, extra, body);
    PostIsToken();
    RequiredAreFine(config);
    ThreeFine(Required(config)[1], Required(config)[2], extra);
    CheckedPrinted(req, |body|);
    SameList(HostHeader(config), BearerHeader(config), JSON_HEADER, extra, LastHeaders(|body|));
  }

  lemma SameList(h: Header, a: Header, c: Header, x: Header, last: seq<Header>)
    ensures [h] + [a, c, x] + last == [h, a, c] + ([x] + last)
  {
  }

  lemma ThreeKept(a: Header, b: Header, c: Header)
    requires !SameName(a.name, HOST) && !SameName(b.name, HOST) && !SameName(c.name, HOST)
    ensures Kept([a, b, c]) == [a, b, c]
  {
    TwoKept(a, b);
    assert [a, b, c][..2] == [a, b];
  }

  /** A further line after the template's: the message passes and starts with the template, but the
      circuit's region is not its body, if that does not start with a space. */
  lemma SeventhLineMovesBody(accepted: iset<bytes>, config: RequestConfig, extra: Header, body: bytes)
    requires WordConfig(config) && Further(extra) && |extra.name| == 1
    requires body in accepted && |body| == config.contentLength && body != [] && body[0] != SPACE
    ensures var wire := MessageWith(config, LastHeaders(config.contentLength) + [extra], body).Encode();
            CheckAndPad(accepted, config, wire) == Success(PaddedRequest(wire, body))
            && Template(config) <= wire && BodyRegionFromWire(wire, config) != Success(body)
  {
    SeventhLine(accepted, config, extra, body);
    var between := Between([HeaderLine(extra.name, extra.value)]);
    assert 0 % |between| == 0;
    assert between[0 % |between|] == SPACE;
  }

  /** The region can still be equal to the body: when the further line happens to hold it. */
  lemma SeventhLineHoldsBody(accepted: iset<bytes>, config: RequestConfig, extra: Header, body: bytes)
    requires WordConfig(config) && Further(extra) && |extra.name| == 1 && body == [SPACE] + extra.value
    requires body in accepted && |body| == config.contentLength
    ensures var wire := MessageWith(config, LastHeaders(config.contentLength) + [extra], body).Encode();
            CheckAndPad(accepted, config, wire) == Success(PaddedRequest(wire, body))
            && wire != Template(config) + CRLF + body && BodyRegionFromWire(wire, config) == Success(body)
  {
    SeventhLine(accepted, config, extra, body);
    var between := Between([HeaderLine(extra.name, extra.value)]);
    assert between == body + BLANK_LINE;
    forall i | 0 <= i < |body|
      ensures body[i] == between[i % |between|]
    {
      SmallRemainder(i, |between|);
    }
  }

  lemma SeventhLine(accepted: iset<bytes>, config: RequestConfig, extra: Header, body: bytes)
    requires WordConfig(config) && Further(extra) && |extra.name| == 1
    requires body in accepted && |body| == config.contentLength
    ensures var wire := MessageWith(config, LastHeaders(config.contentLength) + [extra], body).Encode();
            var between := Between([HeaderLine(extra.name, extra.value)]);
            CheckAndPad(accepted, config, wire) == Success(PaddedRequest(wire, body))
            && Template(config) <= wire && wire != Template(config) + CRLF + body
            && between == [SPACE] + extra.value + BLANK_LINE
            && (BodyRegionFromWire(wire, config) == Success(body) <==> Repeats(body, between))
  {
    var rest := LastHeaders(config.contentLength) + [extra];
    var wire := MessageWith(config, rest, body).Encode();
    FurtherHarmless(extra, config.contentLength);
    HarmlessPasses(accepted, config, rest, body);
    SevenLines(config, extra, body);
    BetweenIs(extra);
    SevenLinesRegion(accepted, config, wire, body, HeaderLine(extra.name, extra.value));
  }

  lemma SevenLinesRegion(accepted: iset<bytes>, config: RequestConfig, wire: bytes, body: bytes, line: bytes)
    requires CheckAndPad(accepted, config, wire) == Success(PaddedRequest(wire, body))
    requires SplitHttp(wire).Success? && CheckedLines(wire, config.contentLength) == TemplateLines(config) + [line]
    requires CheckedLines(wire, config.contentLength)[6..] == [line]
    ensures Template(config) <= wire && wire != Template(config) + CRLF + body
    ensures BodyRegionFromWire(wire, config) == Success(body) <==> Repeats(body, Between([line]))
  {
    CheckedTemplateExactly(accepted, config, wire);
    CheckedRegionExactly(accepted, config, wire);
  }

  lemma SevenHeaders(config: RequestConfig, extra: Header)
    ensures Required(config) + (LastHeaders(config.contentLength) + [extra]) == TemplateHeaders(config) + [extra]
  {
  }

  lemma MoreHeaderLines(headers: seq<Header>, extra: Header)
    ensures HeaderLines(headers + [extra]) == HeaderLines(headers) + [HeaderLine(extra.name, extra.value)]
  {
  }

  lemma SixAndOne(a: seq<bytes>, line: bytes)
    requires |a| == 6
    ensures (a + [line])[6..] == [line]
  {
  }

  lemma SevenLines(config: RequestConfig, extra: Header, body: bytes)
    requires MessageWith(config, LastHeaders(config.contentLength) + [extra], body).Valid()
    requires |body| == config.contentLength
    ensures var wire := MessageWith(config, LastHeaders(config.contentLength) + [extra], body).Encode();
            SplitHttp(wire).Success?
            && CheckedLines(wire, config.contentLength) == TemplateLines(config) + [HeaderLine(extra.name, extra.value)]
            && CheckedLines(wire, config.contentLength)[6..] == [HeaderLine(extra.name, extra.value)]
  {
    var line := HeaderLine(extra.name, extra.value);
    MessageSplits(MessageWith(config, LastHeaders(config.contentLength) + [extra], body));
    SevenHeaders(config, extra);
    MoreHeaderLines(TemplateHeaders(config), extra);
    TemplateIsMessage(config);
    Associates([RequestLine(POST, config.basepath)], HeaderLines(TemplateHeaders(config)), [line]);
    SixAndOne(TemplateLines(config), line);
  }

  lemma BetweenIs(extra: Header)
    requires |extra.name| == 1
    ensures Between([HeaderLine(extra.name, extra.value)]) == [SPACE] + extra.value + BLANK_LINE
  {
    assert JoinLines([HeaderLine(extra.name, extra.value)]) == HeaderLine(extra.name, extra.value);
  }

  /** Without a content-length line a message passes and is too short for the circuit's region. */
  lemma NoLengthIsTooShort(accepted: iset<bytes>, config: RequestConfig, body: bytes)
    requires WordConfig(config) && body in accepted && |body| == config.contentLength
    ensures var wire := MessageWith(config, [Header(CONNECTION, CLOSE)], body).Encode();
            CheckAndPad(accepted, config, wire) == Success(PaddedRequest(wire, body))
            && BodyRegionFromWire(wire, config) == Failure(WireTooShort)
  {
    var m := MessageWith(config, [Header(CONNECTION, CLOSE)], body);
    LastHeadersHarmless(0);
    HarmlessPasses(accepted, config, [Header(CONNECTION, CLOSE)], body);
    LongEnoughExactly(config, m.Lines(), body);
    ShorterLines(config, m);
  }

  lemma ShorterLines(config: RequestConfig, m: Message)
    requires m.method_ == POST && m.path == config.basepath
    requires m.headers == Required(config) + [Header(CONNECTION, CLOSE)]
    ensures |JoinLines(m.Lines())| < |JoinLines(TemplateLines(config))|
  {
    var front := [RequestLine(POST, config.basepath)] + HeaderLines(Required(config));
    var length, connection := HeaderLine(CONTENT_LENGTH, Decimal(config.contentLength)), HeaderLine(CONNECTION, CLOSE);
    TemplateIsMessage(config);
    assert m.Lines() == front + [connection];
    assert TemplateLines(config) == front + [length] + [connection];
    JoinConcat(front, [connection]);
    JoinConcat(front + [length], [connection]);
    JoinConcat(front, [length]);
  }
}
