/** The HTTP wire layer: what `wire.rs` computes, as functions on byte strings. */
module WireSpec {
  import opened Sequences
  import opened Bytes
  import opened Text

  datatype RequestConfig = RequestConfig(host: bytes, basepath: bytes, apiKey: bytes, contentLength: nat)

  datatype PaddedRequest = PaddedRequest(request: bytes, body: bytes)

  datatype ParsedHeaders = ParsedHeaders(host: bytes, basepath: bytes, apiKey: bytes, contentType: bytes,
                                         connection: bytes)

  datatype Error =
    | MissingSeparator
    | NotUtf8
    | MissingMethod
    | NotPost
    | MissingPath
    | MissingBearer
    | MissingHost
    | MissingAuthorization
    | MissingContentType
    | MissingConnection
    | HostMismatch
    | PathMismatch
    | ApiKeyMismatch
    | ContentTypeMismatch
    | ConnectionMismatch
    | InvalidChatBody
    | BodyTooLong
    | UserContentNotFound
    | WireTooShort

  // The header template.

  /** "POST" */
  const POST: bytes := [0x50, 0x4F, 0x53, 0x54]
  /** "HTTP/1.1" */
  const HTTP_1_1: bytes := [0x48, 0x54, 0x54, 0x50, 0x2F, 0x31, 0x2E, 0x31]
  /** "Host" */
  const HOST: bytes := [0x48, 0x6F, 0x73, 0x74]
  /** "authorization" */
  const AUTHORIZATION: bytes := [0x61, 0x75, 0x74, 0x68, 0x6F, 0x72, 0x69, 0x7A, 0x61, 0x74, 0x69, 0x6F, 0x6E]
  /** "Bearer " */
  const BEARER: bytes := [0x42, 0x65, 0x61, 0x72, 0x65, 0x72, 0x20]
  /** "bearer " */
  const BEARER_LOWER: bytes := [0x62, 0x65, 0x61, 0x72, 0x65, 0x72, 0x20]
  /** "content-type" */
  const CONTENT_TYPE: bytes := [0x63, 0x6F, 0x6E, 0x74, 0x65, 0x6E, 0x74, 0x2D, 0x74, 0x79, 0x70, 0x65]
  /** "application/json" */
  const APPLICATION_JSON: bytes :=
    [0x61, 0x70, 0x70, 0x6C, 0x69, 0x63, 0x61, 0x74, 0x69, 0x6F, 0x6E, 0x2F, 0x6A, 0x73, 0x6F, 0x6E]
  /** "Content-Length" */
  const CONTENT_LENGTH: bytes :=
    [0x43, 0x6F, 0x6E, 0x74, 0x65, 0x6E, 0x74, 0x2D, 0x4C, 0x65, 0x6E, 0x67, 0x74, 0x68]
  /** "Connection" */
  const CONNECTION: bytes := [0x43, 0x6F, 0x6E, 0x6E, 0x65, 0x63, 0x74, 0x69, 0x6F, 0x6E]
  /** "close" */
  const CLOSE: bytes := [0x63, 0x6C, 0x6F, 0x73, 0x65]

  /** One header line without its end: `name: value`. */
  function HeaderLine(name: bytes, value: bytes): bytes {
    name + [COLON, SPACE] + value
  }

  function RequestLine(method_: bytes, path: bytes): bytes {
    method_ + [SPACE] + path + [SPACE] + HTTP_1_1
  }

  /** The six lines of the template, without their ends. */
  function TemplateLines(config: RequestConfig): (lines: seq<bytes>)
    ensures |lines| == 6
  {
    [RequestLine(POST, config.basepath),
     HeaderLine(HOST, config.host),
     HeaderLine(AUTHORIZATION, BEARER + config.apiKey),
     HeaderLine(CONTENT_TYPE, APPLICATION_JSON),
     HeaderLine(CONTENT_LENGTH, Decimal(config.contentLength)),
     HeaderLine(CONNECTION, CLOSE)]
  }

  /** `header_sections` */
  function HeaderSections(config: RequestConfig): (sections: seq<bytes>)
    ensures |sections| == 6
  {
    var lines := TemplateLines(config);
    seq(6, i requires 0 <= i < 6 => lines[i] + CRLF)
  }

  function Template(config: RequestConfig): bytes {
    Flatten(HeaderSections(config))
  }

  /** `body_start` */
  function BodyStart(config: RequestConfig): nat {
    |Template(config)| + 2
  }

  /** `body_region_from_wire` */
  function BodyRegionFromWire(wire: bytes, config: RequestConfig): Result<bytes, Error> {
    var start := BodyStart(config);
    if |wire| < start + config.contentLength then Failure(WireTooShort)
    else Success(wire[start..start + config.contentLength])
  }

  // Splitting and parsing.

  /** `split_http`: the first blank line ends the headers. */
  function SplitHttp(data: bytes): Result<(bytes, bytes), Error> {
    match Find(data, BLANK_LINE)
    case None => Failure(MissingSeparator)
    case Some(i) => Success((data[..i], data[i + |BLANK_LINE|..]))
  }

  /** `split("\r\n")` */
  function SplitLines(s: bytes): (lines: seq<bytes>)
    ensures |lines| > 0
    decreases |s|
  {
    match Find(s, CRLF)
    case None => [s]
    case Some(i) => [s[..i]] + SplitLines(s[i + 2..])
  }

  function JoinLines(lines: seq<bytes>): bytes
    requires |lines| > 0
  {
    if |lines| == 1 then lines[0] else lines[0] + CRLF + JoinLines(lines[1..])
  }

  datatype HeaderField = HeaderField(name: bytes, value: bytes)

  /** A header line at its first colon: the lower-case trimmed name and the trimmed value. */
  function FieldOf(line: bytes): Option<HeaderField> {
    match Find(line, [COLON])
    case None => None
    case Some(i) => Some(HeaderField(Lower(Trim(line[..i])), Trim(line[i + 1..])))
  }

  predicate IsField(line: bytes, name: bytes) {
    FieldOf(line).Some? && FieldOf(line).value.name == Lower(name)
  }

  /** The value of the last line with this name. */
  function LastValue(lines: seq<bytes>, name: bytes): Option<bytes> {
    if lines == [] then None
    else if IsField(lines[|lines| - 1], name) then Some(FieldOf(lines[|lines| - 1]).value.value)
    else LastValue(lines[..|lines| - 1], name)
  }

  /** The token of an authorization value. */
  function Bearer(value: bytes): Option<bytes> {
    if BEARER <= value || BEARER_LOWER <= value then Some(value[|BEARER|..]) else None
  }

  predicate HasBearer(line: bytes) {
    IsField(line, AUTHORIZATION) ==> Bearer(FieldOf(line).value.value).Some?
  }

  /** `parse_headers` */
  function ParseHeaders(headers: bytes): Result<ParsedHeaders, Error> {
    if !IsText(headers) then Failure(NotUtf8)
    else ParseLines(SplitLines(headers))
  }

  function ParseLines(lines: seq<bytes>): Result<ParsedHeaders, Error>
    requires |lines| > 0
  {
    var parts := Tokens(lines[0]);
    if |parts| == 0 then Failure(MissingMethod)
    else if parts[0] != POST then Failure(NotPost)
    else if |parts| == 1 then Failure(MissingPath)
    else ParseFields(parts[1], lines[1..])
  }

  function ParseFields(basepath: bytes, lines: seq<bytes>): Result<ParsedHeaders, Error> {
    Assemble(basepath, forall i | 0 <= i < |lines| :: HasBearer(lines[i]), LastValue(lines, HOST),
             LastValue(lines, AUTHORIZATION), LastValue(lines, CONTENT_TYPE), LastValue(lines, CONNECTION))
  }

  /** The fields, or the first error: a missing token comes before a missing field. */
  function Assemble(basepath: bytes, allHaveBearers: bool, host: Option<bytes>, authorization: Option<bytes>,
                    contentType: Option<bytes>, connection: Option<bytes>): Result<ParsedHeaders, Error> {
    if !allHaveBearers then Failure(MissingBearer)
    else if host.None? then Failure(MissingHost)
    else if authorization.None? || Bearer(authorization.value).None? then Failure(MissingAuthorization)
    else if contentType.None? then Failure(MissingContentType)
    else if connection.None? then Failure(MissingConnection)
    else Success(ParsedHeaders(host.value, basepath, Bearer(authorization.value).value, contentType.value,
                               connection.value))
  }

  /** `validate_headers` */
  function ValidateHeaders(parsed: ParsedHeaders, config: RequestConfig): Option<Error> {
    if parsed.host != config.host then Some(HostMismatch)
    else if parsed.basepath != config.basepath then Some(PathMismatch)
    else if parsed.apiKey != config.apiKey then Some(ApiKeyMismatch)
    else if parsed.contentType != APPLICATION_JSON then Some(ContentTypeMismatch)
    else if Lower(parsed.connection) != CLOSE then Some(ConnectionMismatch)
    else None
  }

  // Padding.

  /** `"role":"user","content":"` */
  const USER_CONTENT_MARKER: bytes :=
    [0x22, 0x72, 0x6F, 0x6C, 0x65, 0x22, 0x3A, 0x22, 0x75, 0x73, 0x65, 0x72, 0x22, 0x2C,
     0x22, 0x63, 0x6F, 0x6E, 0x74, 0x65, 0x6E, 0x74, 0x22, 0x3A, 0x22]

  /** How many backslashes stand right before `pos`, counting back to `from` at most. */
  function Backslashes(s: bytes, from: nat, pos: nat): nat
    requires from <= pos <= |s|
    decreases pos
  {
    if pos > from && s[pos - 1] == BACKSLASH then Backslashes(s, from, pos - 1) + 1 else 0
  }

  /** A quotation mark that ends the string literal whose content starts at `from`. */
  predicate EndsLiteral(s: bytes, from: nat, pos: nat)
    requires from <= pos <= |s|
  {
    pos < |s| && s[pos] == QUOTE && Backslashes(s, from, pos) % 2 == 0
  }

  /** `pos` is the first position that ends the literal. */
  ghost predicate LiteralEnd(s: bytes, from: nat, pos: nat)
    requires from <= |s|
  {
    from <= pos < |s| && EndsLiteral(s, from, pos) && forall j | from <= j < pos :: !EndsLiteral(s, from, j)
  }

  ghost predicate LiteralOpen(s: bytes, from: nat)
    requires from <= |s|
  {
    forall j | from <= j <= |s| :: !EndsLiteral(s, from, j)
  }

  function FindLiteralEnd(s: bytes, from: nat, pos: nat): (r: Option<nat>)
    requires from <= pos <= |s|
    ensures r.Some? ==> pos <= r.value < |s|
    decreases |s| - pos
  {
    if EndsLiteral(s, from, pos) then Some(pos)
    else if pos == |s| then None
    else FindLiteralEnd(s, from, pos + 1)
  }

  lemma {:induction false} LiteralEndFound(s: bytes, from: nat, pos: nat)
    requires from <= pos <= |s|
    requires forall j | from <= j < pos :: !EndsLiteral(s, from, j)
    ensures var r := FindLiteralEnd(s, from, pos);
            (r.None? ==> LiteralOpen(s, from)) && (r.Some? ==> LiteralEnd(s, from, r.value))
    decreases |s| - pos
  {
    if !EndsLiteral(s, from, pos) && pos < |s| {
      LiteralEndFound(s, from, pos + 1);
    }
  }

  /** `user_content_pad_position`: the end of the first user content literal. */
  function PadPosition(body: bytes): Result<nat, Error> {
    match Find(body, USER_CONTENT_MARKER)
    case None => Failure(UserContentNotFound)
    case Some(start) =>
      var from := start + |USER_CONTENT_MARKER|;
      match FindLiteralEnd(body, from, from)
      case None => Failure(UserContentNotFound)
      case Some(pos) => Success(pos)
  }

  function InsertSpaces(body: bytes, pos: nat, n: nat): bytes
    requires pos <= |body|
  {
    body[..pos] + Repeat(SPACE, n) + body[pos..]
  }

  /** `pad_body` */
  function PadBody(body: bytes, targetLen: nat): (r: Result<bytes, Error>)
    ensures r.Success? ==> |r.value| == targetLen
  {
    if |body| == targetLen then Success(body)
    else if |body| > targetLen then Failure(BodyTooLong)
    else
      match PadPosition(body)
      case Failure(e) => Failure(e)
      case Success(pos) =>
        PadPositionInRange(body);
        Success(InsertSpaces(body, pos, targetLen - |body|))
  }

  lemma PadPositionInRange(body: bytes)
    ensures PadPosition(body).Success? ==> PadPosition(body).value < |body|
  {
  }

  // Rebuilding.

  /** The line as `rebuild_request` copies it: a content-length line gets the new length. */
  function RewriteLine(line: bytes, contentLength: nat): bytes {
    match Find(line, [COLON])
    case None => line
    case Some(i) =>
      if Lower(line[..i]) == Lower(CONTENT_LENGTH) then HeaderLine(CONTENT_LENGTH, Decimal(contentLength)) else line
  }

  function RewriteLines(lines: seq<bytes>, contentLength: nat): (rewritten: seq<bytes>)
    ensures |rewritten| == |lines|
    ensures forall i | 0 <= i < |lines| :: rewritten[i] == RewriteLine(lines[i], contentLength)
  {
    seq(|lines|, i requires 0 <= i < |lines| => RewriteLine(lines[i], contentLength))
  }

  function RewriteHeaders(headers: bytes, contentLength: nat): bytes {
    JoinLines(RewriteLines(SplitLines(headers), contentLength))
  }

  /** `rebuild_request` */
  function RebuildRequest(headers: bytes, body: bytes, contentLength: nat): Result<bytes, Error> {
    if !IsText(headers) then Failure(NotUtf8)
    else Success(RewriteHeaders(headers, contentLength) + BLANK_LINE + body)
  }

  /** `check_and_pad`; `accepted` is the set of bodies that `validate_chat_body` accepts. */
  function CheckAndPad(accepted: iset<bytes>, config: RequestConfig, data: bytes): Result<PaddedRequest, Error> {
    match SplitHttp(data)
    case Failure(e) => Failure(e)
    case Success((headers, body)) =>
      match ParseHeaders(headers)
      case Failure(e) => Failure(e)
      case Success(parsed) =>
        match ValidateHeaders(parsed, config)
        case Some(e) => Failure(e)
        case None =>
          if body !in accepted then Failure(InvalidChatBody)
          else if |body| == config.contentLength then Success(PaddedRequest(data, body))
          else
            match PadBody(body, config.contentLength)
            case Failure(e) => Failure(e)
            case Success(newBody) =>
              match RebuildRequest(headers, newBody, config.contentLength)
              case Failure(e) => Failure(e)
              case Success(request) => Success(PaddedRequest(request, newBody))
  }
}
