/** The loops of `wire.rs`. */
module Wire {
  import opened Sequences
  import opened Bytes
  import opened Text
  import opened WireSpec
  import Padding

  method ParseHeaders(headers: bytes) returns (r: Result<ParsedHeaders, Error>)
    ensures r == WireSpec.ParseHeaders(headers)
  {
    if !IsText(headers) {
      return Failure(NotUtf8);
    }
    var lines := SplitLines(headers);
    var parts := Tokens(lines[0]);
    if |parts| == 0 {
      return Failure(MissingMethod);
    }
    if parts[0] != POST {
      return Failure(NotPost);
    }
    if |parts| == 1 {
      return Failure(MissingPath);
    }
    r := ParseFields(parts[1], lines[1..]);
  }

  /** The four variables of the header loop. */
  datatype Found = Found(host: Option<bytes>, apiKey: Option<bytes>, contentType: Option<bytes>,
                         connection: Option<bytes>)

  method ParseFields(basepath: bytes, lines: seq<bytes>) returns (r: Result<ParsedHeaders, Error>)
    ensures r == WireSpec.ParseFields(basepath, lines)
  {
    var host: Option<bytes> := None;
    var apiKey: Option<bytes> := None;
    var contentType: Option<bytes> := None;
    var connection: Option<bytes> := None;
    for i := 0 to |lines|
      invariant Collected(lines, i, Found(host, apiKey, contentType, connection))
    {
      ghost var before := Found(host, apiKey, contentType, connection);
      var field := FieldOf(lines[i]);
      match field {
        case None =>
        case Some(f) =>
          if f.name == Lower(HOST) {
            host := Some(f.value);
          } else if f.name == Lower(AUTHORIZATION) {
            var token := Bearer(f.value);
            if token.None? {
              NoBearer(basepath, lines, i);
              return Failure(MissingBearer);
            }
            apiKey := token;
          } else if f.name == Lower(CONTENT_TYPE) {
            contentType := Some(f.value);
          } else if f.name == Lower(CONNECTION) {
            connection := Some(f.value);
          }
      }
      CollectNext(lines, i, before, Found(host, apiKey, contentType, connection));
    }
    CollectedResult(basepath, lines, Found(host, apiKey, contentType, connection));
    if host.None? {
      return Failure(MissingHost);
    }
    if apiKey.None? {
      return Failure(MissingAuthorization);
    }
    if contentType.None? {
      return Failure(MissingContentType);
    }
    if connection.None? {
      return Failure(MissingConnection);
    }
    r := Success(ParsedHeaders(host.value, basepath, apiKey.value, contentType.value, connection.value));
  }

  lemma NoBearer(basepath: bytes, lines: seq<bytes>, i: nat)
    requires i < |lines| && FieldOf(lines[i]).Some? && FieldOf(lines[i]).value.name == Lower(AUTHORIZATION)
    requires Bearer(FieldOf(lines[i]).value.value).None?
    ensures WireSpec.ParseFields(basepath, lines) == Failure(MissingBearer)
  {
    assert !HasBearer(lines[i]);
  }

  lemma CollectedResult(basepath: bytes, lines: seq<bytes>, found: Found)
    requires Collected(lines, |lines|, found)
    ensures WireSpec.ParseFields(basepath, lines)
         == if found.host.None? then Failure(MissingHost)
            else if found.apiKey.None? then Failure(MissingAuthorization)
            else if found.contentType.None? then Failure(MissingContentType)
            else if found.connection.None? then Failure(MissingConnection)
            else Success(ParsedHeaders(found.host.value, basepath, found.apiKey.value, found.contentType.value,
                                       found.connection.value))
  {
    assert lines[..|lines|] == lines;
  }

  /** What the loop has found in the first `i` lines. */
  ghost predicate Collected(lines: seq<bytes>, i: nat, found: Found)
    requires i <= |lines|
  {
    && (forall j | 0 <= j < i :: HasBearer(lines[j]))
    && found.host == LastValue(lines[..i], HOST)
    && found.apiKey == TokenOf(LastValue(lines[..i], AUTHORIZATION))
    && (found.apiKey.None? <==> LastValue(lines[..i], AUTHORIZATION).None?)
    && found.contentType == LastValue(lines[..i], CONTENT_TYPE)
    && found.connection == LastValue(lines[..i], CONNECTION)
  }

  /** What one more line, with a token if it is an authorization line, changes. */
  function Read(line: bytes, found: Found): Found {
    match FieldOf(line)
    case None => found
    case Some(f) =>
      if f.name == Lower(HOST) then found.(host := Some(f.value))
      else if f.name == Lower(AUTHORIZATION) then found.(apiKey := Bearer(f.value))
      else if f.name == Lower(CONTENT_TYPE) then found.(contentType := Some(f.value))
      else if f.name == Lower(CONNECTION) then found.(connection := Some(f.value))
      else found
  }

  lemma CollectNext(lines: seq<bytes>, i: nat, found: Found, next: Found)
    requires i < |lines| && Collected(lines, i, found) && next == Read(lines[i], found) && HasBearer(lines[i])
    ensures Collected(lines, i + 1, next)
  {
    NamesDiffer();
    LastValueNext(lines, i, HOST);
    LastValueNext(lines, i, AUTHORIZATION);
    LastValueNext(lines, i, CONTENT_TYPE);
    LastValueNext(lines, i, CONNECTION);
  }

  /** The last value of a name, after one more line. */
  function Updated(value: Option<bytes>, line: bytes, name: bytes): Option<bytes> {
    if IsField(line, name) then Some(FieldOf(line).value.value) else value
  }

  lemma LastValueNext(lines: seq<bytes>, i: nat, name: bytes)
    requires i < |lines|
    ensures LastValue(lines[..i + 1], name) == Updated(LastValue(lines[..i], name), lines[i], name)
  {
    assert lines[..i + 1][..i] == lines[..i];
  }

  function TokenOf(value: Option<bytes>): Option<bytes> {
    match value
    case None => None
    case Some(v) => Bearer(v)
  }

  lemma NamesDiffer()
    ensures Lower(HOST) != Lower(AUTHORIZATION) && Lower(HOST) != Lower(CONTENT_TYPE) && Lower(HOST) != Lower(CONNECTION)
    ensures Lower(AUTHORIZATION) != Lower(CONTENT_TYPE) && Lower(AUTHORIZATION) != Lower(CONNECTION)
    ensures Lower(CONTENT_TYPE) != Lower(CONNECTION)
  {
    assert |Lower(HOST)| == 4 && |Lower(AUTHORIZATION)| == 13 && |Lower(CONTENT_TYPE)| == 12 && |Lower(CONNECTION)| == 10;
  }

  /** The scan flips `escaped` at every backslash; the position it stops at is the first quotation
      mark with an even number of backslashes before it. */
  method UserContentPadPosition(body: bytes) returns (r: Result<nat, Error>)
    ensures r == PadPosition(body)
    ensures match r
            case Success(pos) =>
              exists start: nat, from: nat :: Padding.PadsAt(body, start, from, pos)
            case Failure(e) =>
              e == UserContentNotFound
              && forall start :: FirstAt(body, USER_CONTENT_MARKER, start)
                             ==> LiteralOpen(body, start + |USER_CONTENT_MARKER|)
  {
    var found := Find(body, USER_CONTENT_MARKER);
    FindFirst(body, USER_CONTENT_MARKER);
    if found.None? {
      return Failure(UserContentNotFound);
    }
    var from := found.value + |USER_CONTENT_MARKER|;
    var pos := from;
    var escaped := false;
    while pos < |body|
      invariant from <= pos <= |body|
      invariant escaped <==> Backslashes(body, from, pos) % 2 == 1
      invariant forall j | from <= j < pos :: !EndsLiteral(body, from, j)
    {
      var byte := body[pos];
      if escaped {
        escaped := false;
      } else if byte == BACKSLASH {
        escaped := true;
      } else if byte == QUOTE {
        assert Padding.PadsAt(body, found.value, from, pos);
        Padding.PadPlaceUnique(body, found.value, from, pos);
        return Success(pos);
      }
      pos := pos + 1;
    }
    NoLiteralEnd(body, found.value, from);
    r := Failure(UserContentNotFound);
  }

  lemma NoLiteralEnd(body: bytes, start: nat, from: nat)
    requires FirstAt(body, USER_CONTENT_MARKER, start) && from == start + |USER_CONTENT_MARKER| <= |body|
    requires LiteralOpen(body, from)
    ensures PadPosition(body) == Failure(UserContentNotFound)
    ensures forall other :: FirstAt(body, USER_CONTENT_MARKER, other) ==> LiteralOpen(body, other + |USER_CONTENT_MARKER|)
  {
    FindUnique(body, USER_CONTENT_MARKER, start);
    LiteralEndFound(body, from, from);
    forall other | FirstAt(body, USER_CONTENT_MARKER, other)
      ensures other == start
    {
      FindUnique(body, USER_CONTENT_MARKER, other);
    }
  }

  method PadBody(body: bytes, targetLen: nat) returns (r: Result<bytes, Error>)
    ensures r == WireSpec.PadBody(body, targetLen)
  {
    if |body| == targetLen {
      return Success(body);
    }
    if |body| > targetLen {
      return Failure(BodyTooLong);
    }
    var padLen := targetLen - |body|;
    var insertPos := UserContentPadPosition(body);
    if insertPos.Failure? {
      return Failure(insertPos.error);
    }
    PadPositionInRange(body);
    var newBody := body[..insertPos.value];
    newBody := newBody + Repeat(SPACE, padLen);
    newBody := newBody + body[insertPos.value..];
    r := Success(newBody);
  }

  method RebuildRequest(headers: bytes, body: bytes, contentLength: nat) returns (r: Result<bytes, Error>)
    ensures r == WireSpec.RebuildRequest(headers, body, contentLength)
  {
    if !IsText(headers) {
      return Failure(NotUtf8);
    }
    var lines := SplitLines(headers);
    var wire: bytes := [];
    for index := 0 to |lines|
      invariant wire == Written(lines, index, contentLength)
    {
      NextLine(lines, index, contentLength);
      if index > 0 {
        wire := wire + CRLF;
      }
      var line := CopyLine(lines[index], contentLength);
      wire := wire + line;
    }
    assert lines[..|lines|] == lines;
    wire := wire + BLANK_LINE;
    wire := wire + body;
    r := Success(wire);
  }

  /** The first `index` lines as the loop has written them. */
  function Written(lines: seq<bytes>, index: nat, contentLength: nat): bytes
    requires index <= |lines|
  {
    if index == 0 then [] else JoinLines(RewriteLines(lines[..index], contentLength))
  }

  /** The line that the loop body appends. */
  method CopyLine(line: bytes, contentLength: nat) returns (copied: bytes)
    ensures copied == RewriteLine(line, contentLength)
  {
    var colon := Find(line, [COLON]);
    if colon.Some? && Lower(line[..colon.value]) == Lower(CONTENT_LENGTH) {
      return HeaderLine(CONTENT_LENGTH, Decimal(contentLength));
    }
    return line;
  }

  lemma NextLine(lines: seq<bytes>, index: nat, contentLength: nat)
    requires index < |lines|
    ensures Written(lines, index + 1, contentLength)
         == (if index == 0 then [] else Written(lines, index, contentLength) + CRLF) + RewriteLine(lines[index], contentLength)
  {
    var line := RewriteLine(lines[index], contentLength);
    RewriteNext(lines, index, contentLength);
    AppendLine(RewriteLines(lines[..index], contentLength), line);
    assert [] + line == line;
  }

  lemma RewriteNext(lines: seq<bytes>, index: nat, contentLength: nat)
    requires index < |lines|
    ensures RewriteLines(lines[..index + 1], contentLength)
         == RewriteLines(lines[..index], contentLength) + [RewriteLine(lines[index], contentLength)]
  {
  }

  lemma {:induction false} AppendLine(lines: seq<bytes>, line: bytes)
    ensures JoinLines(lines + [line]) == if lines == [] then line else JoinLines(lines) + CRLF + line
    decreases |lines|
  {
    if |lines| == 0 {
    } else if |lines| == 1 {
      assert (lines + [line])[1..] == [line];
    } else {
      assert (lines + [line])[1..] == lines[1..] + [line];
      AppendLine(lines[1..], line);
    }
  }

  method CheckAndPad(accepted: iset<bytes>, config: RequestConfig, data: bytes)
    returns (r: Result<PaddedRequest, Error>)
    ensures r == WireSpec.CheckAndPad(accepted, config, data)
  {
    var split := SplitHttp(data);
    if split.Failure? {
      return Failure(split.error);
    }
    var (headers, body) := split.value;
    var parsed := ParseHeaders(headers);
    if parsed.Failure? {
      return Failure(parsed.error);
    }
    var mismatch := ValidateHeaders(parsed.value, config);
    if mismatch.Some? {
      return Failure(mismatch.value);
    }
    if body !in accepted {
      return Failure(InvalidChatBody);
    }
    var targetLen := config.contentLength;
    if |body| == targetLen {
      return Success(PaddedRequest(data, body));
    }
    var newBody := PadBody(body, targetLen);
    if newBody.Failure? {
      return Failure(newBody.error);
    }
    var request := RebuildRequest(headers, newBody.value, targetLen);
    if request.Failure? {
      return Failure(request.error);
    }
    r := Success(PaddedRequest(request.value, newBody.value));
  }
}
