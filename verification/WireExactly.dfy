/** What the functions of the wire layer compute, outcome by outcome, in terms of the text of the source:
    its literals, the first colon of a line, names that differ in case, and which error comes first. */
module WireExactly {
  import opened Sequences
  import opened Bytes
  import opened Text
  import opened WireSpec
  import opened Lines
  import opened WireTheorems
  import opened Unicode
  import Padding

  // Literals.

  /** The bytes of an ASCII literal. */
  predicate Spells(b: bytes, s: string) {
    |b| == |s| && forall i | 0 <= i < |s| :: b[i] as int == s[i] as int
  }

  lemma PostSpelled()
    ensures Spells(POST, "POST")
  {
  }

  lemma VersionSpelled()
    ensures Spells(HTTP_1_1, "HTTP/1.1")
  {
  }

  lemma HostSpelled()
    ensures Spells(HOST, "Host")
  {
  }

  lemma AuthorizationSpelled()
    ensures Spells(AUTHORIZATION, "authorization")
  {
  }

  lemma BearerSpelled()
    ensures Spells(BEARER, "Bearer ")
  {
  }

  lemma LowerBearerSpelled()
    ensures Spells(BEARER_LOWER, "bearer ")
  {
  }

  lemma ContentTypeSpelled()
    ensures Spells(CONTENT_TYPE, "content-type")
  {
  }

  lemma JsonSpelled()
    ensures Spells(APPLICATION_JSON, "application/json")
  {
  }

  lemma ContentLengthSpelled()
    ensures Spells(CONTENT_LENGTH, "Content-Length")
  {
  }

  lemma ConnectionSpelled()
    ensures Spells(CONNECTION, "Connection")
  {
  }

  lemma CloseSpelled()
    ensures Spells(CLOSE, "close")
  {
  }

  lemma LineEndSpelled()
    ensures Spells(CRLF, "\r\n")
  {
  }

  lemma BlankLineSpelled()
    ensures Spells(BLANK_LINE, "\r\n\r\n")
  {
  }

  lemma RoleSpelled()
    ensures Spells(Padding.ROLE, "role")
  {
  }

  lemma UserSpelled()
    ensures Spells(Padding.USER, "user")
  {
  }

  lemma ContentSpelled()
    ensures Spells(Padding.CONTENT, "content")
  {
  }

  /** The literals of the wire layer. */
  lemma LiteralsSpelled()
    ensures Spells(POST, "POST") && Spells(HTTP_1_1, "HTTP/1.1")
    ensures Spells(HOST, "Host") && Spells(AUTHORIZATION, "authorization")
    ensures Spells(BEARER, "Bearer ") && Spells(BEARER_LOWER, "bearer ")
    ensures Spells(CONTENT_TYPE, "content-type") && Spells(APPLICATION_JSON, "application/json")
    ensures Spells(CONTENT_LENGTH, "Content-Length") && Spells(CONNECTION, "Connection")
    ensures Spells(CLOSE, "close") && Spells(CRLF, "\r\n")
    ensures Spells(BLANK_LINE, "\r\n\r\n") && Spells(Padding.ROLE, "role")
    ensures Spells(Padding.USER, "user") && Spells(Padding.CONTENT, "content")
    ensures USER_CONTENT_MARKER
         == ([QUOTE] + Padding.ROLE + [QUOTE]) + [COLON] + ([QUOTE] + Padding.USER + [QUOTE]) + [0x2C]
            + ([QUOTE] + Padding.CONTENT + [QUOTE]) + [COLON] + [QUOTE]
  {
    PostSpelled();
    VersionSpelled();
    HostSpelled();
    AuthorizationSpelled();
    BearerSpelled();
    LowerBearerSpelled();
    ContentTypeSpelled();
    JsonSpelled();
    ContentLengthSpelled();
    ConnectionSpelled();
    CloseSpelled();
    LineEndSpelled();
    BlankLineSpelled();
    RoleSpelled();
    UserSpelled();
    ContentSpelled();
    Padding.MarkerParts();
  }

  /** `name: value` and a line end. */
  lemma WrittenLine(name: bytes, value: bytes)
    ensures HeaderLine(name, value) + CRLF == name + [COLON, SPACE] + value + CRLF
  {
  }

  /** The template, written out line by line. */
  lemma TemplateExactly(config: RequestConfig)
    ensures Template(config)
         == (POST + [SPACE] + config.basepath + [SPACE] + HTTP_1_1 + CRLF)
            + (HOST + [COLON, SPACE] + config.host + CRLF)
            + (AUTHORIZATION + [COLON, SPACE] + (BEARER + config.apiKey) + CRLF)
            + (CONTENT_TYPE + [COLON, SPACE] + APPLICATION_JSON + CRLF)
            + (CONTENT_LENGTH + [COLON, SPACE] + Decimal(config.contentLength) + CRLF)
            + (CONNECTION + [COLON, SPACE] + CLOSE + CRLF)
    ensures BodyStart(config) == |Template(config)| + 2
  {
    WrittenLine(HOST, config.host);
    WrittenLine(AUTHORIZATION, BEARER + config.apiKey);
    WrittenLine(CONTENT_TYPE, APPLICATION_JSON);
    WrittenLine(CONTENT_LENGTH, Decimal(config.contentLength));
    WrittenLine(CONNECTION, CLOSE);
    SixSections(config, HeaderSections(config));
  }

  lemma SixSections(config: RequestConfig, s: seq<bytes>)
    requires s == HeaderSections(config)
    ensures Template(config)
         == (RequestLine(POST, config.basepath) + CRLF) + (HeaderLine(HOST, config.host) + CRLF)
            + (HeaderLine(AUTHORIZATION, BEARER + config.apiKey) + CRLF)
            + (HeaderLine(CONTENT_TYPE, APPLICATION_JSON) + CRLF)
            + (HeaderLine(CONTENT_LENGTH, Decimal(config.contentLength)) + CRLF) + (HeaderLine(CONNECTION, CLOSE) + CRLF)
  {
    assert s == [s[0], s[1], s[2], s[3], s[4], s[5]];
    FlattenSix(s[0], s[1], s[2], s[3], s[4], s[5]);
  }

  lemma FlattenSix(a: bytes, b: bytes, c: bytes, d: bytes, e: bytes, f: bytes)
    ensures Flatten([a, b, c, d, e, f]) == a + b + c + d + e + f
  {
    FlattenThree(a, b, c);
    FlattenThree(d, e, f);
    assert [a, b, c, d, e, f] == [a, b, c] + [d, e, f];
    FlattenConcat([a, b, c], [d, e, f]);
    Associates(a + b + c, d + e, f);
    Associates(a + b + c, d, e);
  }

  lemma FlattenThree(a: bytes, b: bytes, c: bytes)
    ensures Flatten([a, b, c]) == a + b + c
  {
    FlattenCons(c, []);
    FlattenCons(b, [c]);
    FlattenCons(a, [b, c]);
    assert [a] + [b, c] == [a, b, c] && [b] + [c] == [b, c];
    Associates(a, b, c);
  }

  // Header lines.

  /** What stands before and after the first colon of a line. */
  ghost predicate AtColon(line: bytes, name: bytes, rest: bytes) {
    line == name + [COLON] + rest && COLON !in name
  }

  lemma ColonFound(line: bytes, name: bytes, rest: bytes)
    requires AtColon(line, name, rest)
    ensures Find(line, [COLON]) == Some(|name|) && line[..|name|] == name && line[|name| + 1..] == rest
  {
    FirstColon(name, rest);
  }

  lemma ColonOrNot(line: bytes)
    ensures match Find(line, [COLON])
            case None => COLON !in line
            case Some(i) => AtColon(line, line[..i], line[i + 1..])
  {
    FindFirst(line, [COLON]);
    match Find(line, [COLON])
    case None =>
      forall j | 0 <= j < |line|
        ensures line[j] != COLON
      {
        NotAColon(line, j);
      }
    case Some(i) =>
      ColonAt(line, i);
      forall j | 0 <= j < i
        ensures line[..i][j] != COLON
      {
        NotAColon(line, j);
      }
      assert line == line[..i] + [COLON] + line[i + 1..];
  }

  lemma NotAColon(line: bytes, j: nat)
    requires j < |line| && !OccursAt(line, [COLON], j)
    ensures line[j] != COLON
  {
    assert line[j..j + 1] == [line[j]];
  }

  /** The line is a header of this name, in any case and with white space around it or not. */
  ghost predicate Named(line: bytes, name: bytes) {
    exists n, rest :: AtColon(line, n, rest) && SameIgnoringCase(Trim(n), name)
  }

  /** And this is its value, without the white space around it. */
  ghost predicate Gives(line: bytes, name: bytes, value: bytes) {
    exists n, rest :: AtColon(line, n, rest) && SameIgnoringCase(Trim(n), name) && Trim(rest) == value
  }

  /** What the parser takes for a header of this name. */
  lemma FieldExactly(line: bytes, name: bytes, value: bytes)
    ensures IsField(line, name) <==> Named(line, name)
    ensures IsField(line, name) && FieldOf(line).value.value == value <==> Gives(line, name, value)
  {
    ColonOrNot(line);
    if IsField(line, name) {
      var i := Find(line, [COLON]).value;
      LowerExactly(Trim(line[..i]), name);
      assert AtColon(line, line[..i], line[i + 1..]);
    }
    if n, rest :| AtColon(line, n, rest) && SameIgnoringCase(Trim(n), name) {
      ColonFound(line, n, rest);
      LowerExactly(Trim(n), name);
    }
    if n, rest :| AtColon(line, n, rest) && SameIgnoringCase(Trim(n), name) && Trim(rest) == value {
      ColonFound(line, n, rest);
      LowerExactly(Trim(n), name);
    }
  }

  /** `rebuild_request` replaces a line exactly if its name is content-length, in any case and without white
      space around it, and copies every other line. */
  lemma RewriteLineExactly(line: bytes, n: nat)
    ensures RewriteLine(line, n)
         == if exists name, rest :: AtColon(line, name, rest) && SameIgnoringCase(name, CONTENT_LENGTH)
            then CONTENT_LENGTH + [COLON, SPACE] + Decimal(n) else line
  {
    ColonOrNot(line);
    if Find(line, [COLON]).Some? {
      var i := Find(line, [COLON]).value;
      LowerExactly(line[..i], CONTENT_LENGTH);
      assert AtColon(line, line[..i], line[i + 1..]);
    }
    if name, rest :| AtColon(line, name, rest) && SameIgnoringCase(name, CONTENT_LENGTH) {
      ColonFound(line, name, rest);
      LowerExactly(name, CONTENT_LENGTH);
    }
  }

  /** A token is what follows "Bearer " or "bearer ", and nothing else introduces one. */
  lemma BearerExactly(value: bytes, token: bytes)
    ensures Bearer(value) == Some(token) <==> value == BEARER + token || value == BEARER_LOWER + token
  {
    if BEARER <= value {
      PrefixAndRest(BEARER, value);
    }
    if BEARER_LOWER <= value {
      PrefixAndRest(BEARER_LOWER, value);
    }
  }

  /** The last of the lines with this name. */
  ghost predicate LastGives(lines: seq<bytes>, i: nat, name: bytes, value: bytes) {
    i < |lines| && Gives(lines[i], name, value) && forall j | i < j < |lines| :: !Named(lines[j], name)
  }

  predicate LastIs(lines: seq<bytes>, i: nat, name: bytes, value: bytes) {
    && i < |lines| && IsField(lines[i], name) && FieldOf(lines[i]).value.value == value
    && forall j | i < j < |lines| :: !IsField(lines[j], name)
  }

  lemma LastGivesIs(lines: seq<bytes>, i: nat, name: bytes, value: bytes)
    ensures LastGives(lines, i, name, value) <==> LastIs(lines, i, name, value)
  {
    forall j | 0 <= j < |lines|
      ensures IsField(lines[j], name) <==> Named(lines[j], name)
    {
      FieldExactly(lines[j], name, value);
    }
    if i < |lines| {
      FieldExactly(lines[i], name, value);
    }
  }

  lemma {:induction false} LastIsFound(lines: seq<bytes>, i: nat, name: bytes, value: bytes)
    requires LastIs(lines, i, name, value)
    ensures LastValue(lines, name) == Some(value)
    decreases |lines|
  {
    if i < |lines| - 1 {
      assert !IsField(lines[|lines| - 1], name);
      LastIsFound(lines[..|lines| - 1], i, name, value);
    }
  }

  lemma {:induction false} FoundIsLast(lines: seq<bytes>, name: bytes, value: bytes) returns (i: nat)
    requires LastValue(lines, name) == Some(value)
    ensures LastIs(lines, i, name, value)
    decreases |lines|
  {
    var front, last := lines[..|lines| - 1], lines[|lines| - 1];
    SplitLast(lines, front, last, name);
    if IsField(last, name) {
      i := |front|;
      LastAtEnd(front, last, lines, name);
    } else {
      i := FoundIsLast(front, name, value);
      LastStays(front, last, lines, i, name, value);
    }
  }

  lemma SplitLast(lines: seq<bytes>, front: seq<bytes>, last: bytes, name: bytes)
    requires lines != [] && front == lines[..|lines| - 1] && last == lines[|lines| - 1]
    ensures lines == front + [last]
    ensures LastValue(lines, name) == if IsField(last, name) then Some(FieldOf(last).value.value) else LastValue(front, name)
  {
  }

  lemma LastAtEnd(front: seq<bytes>, last: bytes, lines: seq<bytes>, name: bytes)
    requires lines == front + [last] && IsField(last, name)
    ensures LastIs(lines, |front|, name, FieldOf(last).value.value)
  {
  }

  lemma LastStays(front: seq<bytes>, last: bytes, lines: seq<bytes>, i: nat, name: bytes, value: bytes)
    requires lines == front + [last] && LastIs(front, i, name, value) && !IsField(last, name)
    ensures LastIs(lines, i, name, value)
  {
    assert lines[i] == front[i];
    forall j | i < j < |lines|
      ensures !IsField(lines[j], name)
    {
      assert j < |front| ==> lines[j] == front[j];
    }
  }

  lemma {:induction false} NoneFound(lines: seq<bytes>, name: bytes)
    ensures LastValue(lines, name) == None <==> forall i | 0 <= i < |lines| :: !IsField(lines[i], name)
    decreases |lines|
  {
    if lines != [] {
      NoneFound(lines[..|lines| - 1], name);
    }
  }

  /** Of several headers with one name the last one counts. */
  lemma LastValueExactly(lines: seq<bytes>, name: bytes, value: bytes)
    ensures LastValue(lines, name) == Some(value) <==> exists i: nat :: LastGives(lines, i, name, value)
    ensures LastValue(lines, name) == None <==> forall i | 0 <= i < |lines| :: !Named(lines[i], name)
  {
    if LastValue(lines, name) == Some(value) {
      var i := FoundIsLast(lines, name, value);
      LastGivesIs(lines, i, name, value);
    }
    if i: nat :| LastGives(lines, i, name, value) {
      LastGivesIs(lines, i, name, value);
      LastIsFound(lines, i, name, value);
    }
    NoneFound(lines, name);
    forall j | 0 <= j < |lines|
      ensures IsField(lines[j], name) <==> Named(lines[j], name)
    {
      FieldExactly(lines[j], name, value);
    }
  }

  // Parsing: which result, and which error first.

  /** An authorization line without a token. */
  ghost predicate Tokenless(line: bytes) {
    exists value :: Gives(line, AUTHORIZATION, value) && Bearer(value) == None
  }

  ghost predicate NoneNamed(lines: seq<bytes>, name: bytes) {
    forall i | 0 <= i < |lines| :: !Named(lines[i], name)
  }

  ghost predicate AllTokens(lines: seq<bytes>) {
    forall i | 0 <= i < |lines| :: !Tokenless(lines[i])
  }

  lemma TokenlessExactly(line: bytes)
    ensures HasBearer(line) <==> !Tokenless(line)
  {
    if IsField(line, AUTHORIZATION) {
      FieldExactly(line, AUTHORIZATION, FieldOf(line).value.value);
    }
    if value :| Gives(line, AUTHORIZATION, value) && Bearer(value) == None {
      FieldExactly(line, AUTHORIZATION, value);
    }
  }

  lemma AllTokensExactly(lines: seq<bytes>)
    ensures AllTokens(lines) <==> forall i | 0 <= i < |lines| :: HasBearer(lines[i])
  {
    forall i | 0 <= i < |lines|
      ensures HasBearer(lines[i]) <==> !Tokenless(lines[i])
    {
      TokenlessExactly(lines[i]);
    }
  }

  lemma {:induction false} LastHasBearer(lines: seq<bytes>)
    requires forall i | 0 <= i < |lines| :: HasBearer(lines[i])
    ensures LastValue(lines, AUTHORIZATION).Some? ==> Bearer(LastValue(lines, AUTHORIZATION).value).Some?
    decreases |lines|
  {
    if lines != [] {
      assert HasBearer(lines[|lines| - 1]);
      LastHasBearer(lines[..|lines| - 1]);
    }
  }

  /** The first error of the header lines: an authorization line without a token, wherever it stands, then
      the first of the four names that is missing. */
  lemma FieldErrorsExactly(basepath: bytes, lines: seq<bytes>)
    ensures ParseFields(basepath, lines) == Failure(MissingBearer) <==> !AllTokens(lines)
    ensures ParseFields(basepath, lines) == Failure(MissingHost) <==> AllTokens(lines) && NoneNamed(lines, HOST)
    ensures ParseFields(basepath, lines) == Failure(MissingAuthorization)
       <==> AllTokens(lines) && !NoneNamed(lines, HOST) && NoneNamed(lines, AUTHORIZATION)
    ensures ParseFields(basepath, lines) == Failure(MissingContentType)
       <==> (AllTokens(lines) && !NoneNamed(lines, HOST) && !NoneNamed(lines, AUTHORIZATION)
             && NoneNamed(lines, CONTENT_TYPE))
    ensures ParseFields(basepath, lines) == Failure(MissingConnection)
       <==> (AllTokens(lines) && !NoneNamed(lines, HOST) && !NoneNamed(lines, AUTHORIZATION)
             && !NoneNamed(lines, CONTENT_TYPE) && NoneNamed(lines, CONNECTION))
  {
    AllTokensExactly(lines);
    LastValueExactly(lines, HOST, []);
    LastValueExactly(lines, AUTHORIZATION, []);
    LastValueExactly(lines, CONTENT_TYPE, []);
    LastValueExactly(lines, CONNECTION, []);
    if AllTokens(lines) {
      LastHasBearer(lines);
    }
  }

  /** The fields are the last values of the four names, of the authorization value its token. */
  lemma FieldsExactly(basepath: bytes, lines: seq<bytes>, parsed: ParsedHeaders)
    ensures ParseFields(basepath, lines) == Success(parsed)
       <==> (AllTokens(lines) && parsed.basepath == basepath
             && LastValue(lines, HOST) == Some(parsed.host)
             && (LastValue(lines, AUTHORIZATION) == Some(BEARER + parsed.apiKey)
                 || LastValue(lines, AUTHORIZATION) == Some(BEARER_LOWER + parsed.apiKey))
             && LastValue(lines, CONTENT_TYPE) == Some(parsed.contentType)
             && LastValue(lines, CONNECTION) == Some(parsed.connection))
  {
    AllTokensExactly(lines);
    AssembledExactly(basepath, AllTokens(lines), LastValue(lines, HOST), LastValue(lines, AUTHORIZATION),
                     LastValue(lines, CONTENT_TYPE), LastValue(lines, CONNECTION), parsed);
  }

  lemma AssembledExactly(basepath: bytes, allTokens: bool, host: Option<bytes>, authorization: Option<bytes>,
                         contentType: Option<bytes>, connection: Option<bytes>, parsed: ParsedHeaders)
    ensures Assemble(basepath, allTokens, host, authorization, contentType, connection) == Success(parsed)
       <==> (allTokens && parsed.basepath == basepath && host == Some(parsed.host)
             && (authorization == Some(BEARER + parsed.apiKey) || authorization == Some(BEARER_LOWER + parsed.apiKey))
             && contentType == Some(parsed.contentType) && connection == Some(parsed.connection))
  {
    if authorization.Some? {
      BearerExactly(authorization.value, parsed.apiKey);
    }
  }

  /** What `parse_headers` makes of the first line. */
  lemma FirstLineExactly(headers: bytes)
    ensures ParseHeaders(headers) == Failure(NotUtf8) <==> !IsText(headers)
    ensures ParseHeaders(headers) == Failure(MissingMethod) <==> IsText(headers) && AllSpace(SplitLines(headers)[0])
    ensures ParseHeaders(headers) == Failure(MissingPath) <==> IsText(headers) && IsSplit(SplitLines(headers)[0], [POST])
    ensures ParseHeaders(headers) == Failure(NotPost)
       <==> IsText(headers) && exists parts :: IsSplit(SplitLines(headers)[0], parts) && parts != [] && parts[0] != POST
    ensures forall parts | IsSplit(SplitLines(headers)[0], parts) && |parts| >= 2 && parts[0] == POST && IsText(headers) ::
              ParseHeaders(headers) == ParseFields(parts[1], SplitLines(headers)[1..])
  {
    var line := SplitLines(headers)[0];
    TokensAreSplit(line);
    forall parts | IsSplit(line, parts)
      ensures parts == Tokens(line)
    {
      TokensExactly(line, parts);
    }
    TokensExactly(line, []);
    TokensExactly(line, [POST]);
    assert |Tokens(line)| == 1 && Tokens(line)[0] == POST ==> Tokens(line) == [POST];
    FieldErrorsExactly(if |Tokens(line)| > 1 then Tokens(line)[1] else [], SplitLines(headers)[1..]);
  }

  // Checking.

  /** `validate_headers`: five comparisons in this order, the last of them ignoring case. */
  lemma ValidateExactly(parsed: ParsedHeaders, config: RequestConfig)
    ensures ValidateHeaders(parsed, config) == None
       <==> (parsed.host == config.host && parsed.basepath == config.basepath && parsed.apiKey == config.apiKey
             && parsed.contentType == APPLICATION_JSON && SameIgnoringCase(parsed.connection, CLOSE))
    ensures ValidateHeaders(parsed, config) == Some(HostMismatch) <==> parsed.host != config.host
    ensures ValidateHeaders(parsed, config) == Some(PathMismatch)
       <==> parsed.host == config.host && parsed.basepath != config.basepath
    ensures ValidateHeaders(parsed, config) == Some(ApiKeyMismatch)
       <==> parsed.host == config.host && parsed.basepath == config.basepath && parsed.apiKey != config.apiKey
    ensures ValidateHeaders(parsed, config) == Some(ContentTypeMismatch)
       <==> (parsed.host == config.host && parsed.basepath == config.basepath && parsed.apiKey == config.apiKey
             && parsed.contentType != APPLICATION_JSON)
  {
    LowerExactly(parsed.connection, CLOSE);
    CloseIsLower();
  }

  lemma CloseIsLower()
    ensures Lower(CLOSE) == CLOSE
  {
  }

  /** The request splits, and its headers parse to those of the configuration. */
  predicate HeadAccepted(config: RequestConfig, data: bytes) {
    && SplitHttp(data).Success? && ParseHeaders(SplitHttp(data).value.0).Success?
    && ValidateHeaders(ParseHeaders(SplitHttp(data).value.0).value, config).None?
  }

  /** `rebuild_request` fails exactly on headers that are not text. */
  lemma RebuildExactly(headers: bytes, body: bytes, n: nat)
    ensures RebuildRequest(headers, body, n)
         == if IsText(headers) then Success(RewriteHeaders(headers, n) + BLANK_LINE + body) else Failure(NotUtf8)
  {
  }

  lemma RebuildSucceeds(headers: bytes, body: bytes, n: nat)
    requires ParseHeaders(headers).Success?
    ensures RebuildRequest(headers, body, n) == Success(RewriteHeaders(headers, n) + BLANK_LINE + body)
  {
    RebuildExactly(headers, body, n);
  }

  /** What `check_and_pad` returns, and when. */
  lemma CheckAndPadExactly(accepted: iset<bytes>, config: RequestConfig, data: bytes, r: PaddedRequest)
    ensures CheckAndPad(accepted, config, data) == Success(r)
       <==> (HeadAccepted(config, data) && SplitHttp(data).value.1 in accepted
             && PadBody(SplitHttp(data).value.1, config.contentLength) == Success(r.body)
             && r.request == if |SplitHttp(data).value.1| == config.contentLength then data
                             else RewriteHeaders(SplitHttp(data).value.0, config.contentLength) + BLANK_LINE + r.body)
  {
    if HeadAccepted(config, data) {
      RebuildSucceeds(SplitHttp(data).value.0, r.body, config.contentLength);
    }
  }

  /** Which error of the head comes first: no blank line, then what parsing says, then what the comparison
      with the configuration says. */
  lemma HeadErrorsExactly(accepted: iset<bytes>, config: RequestConfig, data: bytes)
    ensures CheckAndPad(accepted, config, data) == Failure(MissingSeparator) <==> Absent(data, BLANK_LINE)
    ensures SplitHttp(data).Success? && ParseHeaders(SplitHttp(data).value.0).Failure? ==>
              CheckAndPad(accepted, config, data) == Failure(ParseHeaders(SplitHttp(data).value.0).error)
    ensures SplitHttp(data).Success? && ParseHeaders(SplitHttp(data).value.0).Success? ==>
              match ValidateHeaders(ParseHeaders(SplitHttp(data).value.0).value, config)
              case None => true
              case Some(e) => CheckAndPad(accepted, config, data) == Failure(e)
  {
    FindFirst(data, BLANK_LINE);
    if SplitHttp(data).Success? {
      var (headers, body) := SplitHttp(data).value;
      ParseErrors(headers);
      NotASeparatorError(accepted, config, data, headers, body);
    }
  }

  /** The errors of parsing. */
  predicate ParseError(e: Error) {
    || e == NotUtf8 || e == MissingMethod || e == NotPost || e == MissingPath || e == MissingBearer || e == MissingHost
    || e == MissingAuthorization || e == MissingContentType || e == MissingConnection
  }

  lemma ParseErrors(headers: bytes)
    ensures ParseHeaders(headers).Failure? ==> ParseError(ParseHeaders(headers).error)
  {
  }

  lemma NotASeparatorError(accepted: iset<bytes>, config: RequestConfig, data: bytes, headers: bytes, body: bytes)
    requires SplitHttp(data) == Success((headers, body))
    requires ParseHeaders(headers).Failure? ==> ParseError(ParseHeaders(headers).error)
    ensures CheckAndPad(accepted, config, data) != Failure(MissingSeparator)
  {
    Padding.PadBodyExactly(body, config.contentLength);
    if ParseHeaders(headers).Success? && PadBody(body, config.contentLength).Success? {
      RebuildSucceeds(headers, PadBody(body, config.contentLength).value, config.contentLength);
    }
  }

  /** After an accepted head: the body is checked, and then padded. */
  lemma AfterHead(accepted: iset<bytes>, config: RequestConfig, data: bytes, body: bytes)
    requires HeadAccepted(config, data) && body == SplitHttp(data).value.1
    ensures body !in accepted ==> CheckAndPad(accepted, config, data) == Failure(InvalidChatBody)
    ensures body in accepted && PadBody(body, config.contentLength).Success? ==> CheckAndPad(accepted, config, data).Success?
    ensures body in accepted && PadBody(body, config.contentLength).Failure? ==>
              CheckAndPad(accepted, config, data) == Failure(PadBody(body, config.contentLength).error)
  {
    if PadBody(body, config.contentLength).Success? {
      RebuildSucceeds(SplitHttp(data).value.0, PadBody(body, config.contentLength).value, config.contentLength);
    }
  }

  /** Then which error of the body: it is not accepted, or too long, or too short and without user
      content. */
  lemma BodyErrorsExactly(accepted: iset<bytes>, config: RequestConfig, data: bytes, body: bytes)
    requires HeadAccepted(config, data) && body == SplitHttp(data).value.1
    ensures CheckAndPad(accepted, config, data) == Failure(InvalidChatBody) <==> body !in accepted
    ensures CheckAndPad(accepted, config, data) == Failure(BodyTooLong)
       <==> body in accepted && |body| > config.contentLength
    ensures CheckAndPad(accepted, config, data) == Failure(UserContentNotFound)
       <==> (body in accepted && |body| < config.contentLength
             && forall start, from, pos :: !Padding.PadsAt(body, start, from, pos))
  {
    AfterHead(accepted, config, data, body);
    Padding.PadBodyExactly(body, config.contentLength);
  }
}
