/** When the client's printer and padder land on the circuit's template. */
module ClientTheorems {
  import opened Sequences
  import opened Bytes
  import opened Text
  import opened WireSpec
  import opened Lines
  import opened Templates
  import opened Messages
  import opened EncodeSpec
  import opened PrintedFields

  // Any printed request.

  /** Exactly when a printed request passes `check_and_pad`. */
  lemma PrintedPassesExactly(accepted: iset<bytes>, config: RequestConfig, req: Request)
    requires req.Valid()
    ensures CheckAndPad(accepted, config, EncodeRequest(req)).Success?
       <==> (ParsedRequest(req).Success? && ValidateHeaders(ParsedRequest(req).value, config).None?
             && req.body in accepted && PadBody(req.body, config.contentLength).Success?)
  {
    PrintedAreValid(req);
    PrintedParses(req);
    MessagePassesExactly(accepted, config, AsMessage(req));
  }

  /** A printed request that passes comes back starting with the template exactly when its printed
      headers, with the content length rewritten if the body is padded, start with the template's. */
  lemma PrintedIsTemplateExactly(accepted: iset<bytes>, config: RequestConfig, req: Request)
    requires req.Valid() && CheckAndPad(accepted, config, EncodeRequest(req)).Success?
    ensures var r := CheckAndPad(accepted, config, EncodeRequest(req)).value;
            var headers := CheckedHeaders(AsMessage(req), config.contentLength);
            (Template(config) <= r.request <==> TemplateHeaders(config) <= headers)
            && (r.request == Template(config) + CRLF + r.body <==> headers == TemplateHeaders(config))
  {
    PrintedAreValid(req);
    MessageIsTemplateExactly(accepted, config, AsMessage(req));
  }

  // Requests that leave length and connection to the printer.

  predicate LeavesToPrinter(req: Request) {
    !Has(req.headers, CONTENT_LENGTH) && !Has(req.headers, CONNECTION)
  }

  function LastHeaders(n: nat): seq<Header> {
    [Header(CONTENT_LENGTH, Decimal(n)), Header(CONNECTION, CLOSE)]
  }

  lemma RewriteConcat(a: seq<Header>, b: seq<Header>, n: nat)
    ensures RewrittenHeaders(a + b, n) == RewrittenHeaders(a, n) + RewrittenHeaders(b, n)
  {
  }

  lemma RewriteNothing(headers: seq<Header>, n: nat)
    requires forall h | h in headers :: !SameName(h.name, CONTENT_LENGTH)
    ensures RewrittenHeaders(headers, n) == headers
  {
  }

  lemma RewriteLast(m: nat, n: nat)
    ensures RewrittenHeaders(LastHeaders(m), n) == LastHeaders(n)
  {
    HeaderNamesDiffer();
  }

  lemma KeptAreOthers(req: Request)
    requires LeavesToPrinter(req)
    ensures forall h | h in Kept(req.headers) :: !SameName(h.name, CONTENT_LENGTH)
    ensures forall h | h in HostHeaders(req) :: !SameName(h.name, CONTENT_LENGTH)
  {
    HeaderNamesDiffer();
    KeptAreGiven(req.headers);
    forall h | h in Kept(req.headers)
      ensures !SameName(h.name, CONTENT_LENGTH)
    {
      var i :| 0 <= i < |req.headers| && req.headers[i] == h;
    }
  }

  lemma CheckedPrinted(req: Request, n: nat)
    requires LeavesToPrinter(req)
    ensures CheckedHeaders(AsMessage(req), n) == HostHeaders(req) + Kept(req.headers) + LastHeaders(n)
  {
    KeptAreOthers(req);
    assert AddedHeaders(req) == LastHeaders(|req.body|);
    RewriteConcat(HostHeaders(req) + Kept(req.headers), AddedHeaders(req), n);
    RewriteConcat(HostHeaders(req), Kept(req.headers), n);
    RewriteNothing(HostHeaders(req), n);
    RewriteNothing(Kept(req.headers), n);
    RewriteLast(|req.body|, n);
  }

  function BearerHeader(config: RequestConfig): Header {
    Header(AUTHORIZATION, BEARER + config.apiKey)
  }

  const JSON_HEADER: Header := Header(CONTENT_TYPE, APPLICATION_JSON)

  lemma TemplateList(host: Header, kept: seq<Header>, a: Header, c: Header, last: seq<Header>, template: seq<Header>,
                     all: seq<Header>)
    requires |last| == 2 && last[0] !in kept && all == [host] + kept + last
    requires |template| == 5 && template[1] == a && template[2] == c && template[3..] == last
    ensures template <= all <==> template[0] == host && kept == [a, c]
    ensures template == all <==> template[0] == host && kept == [a, c]
  {
    if kept == [a, c] {
      assert all == [host, a, c] + last;
      assert template == [template[0], a, c] + last;
    }
    assert forall i | 0 <= i < |kept| :: all[i + 1] == kept[i];
    assert template[3] == last[0];
    if template <= all {
      assert forall i | 0 <= i < 5 :: all[i] == template[i];
    }
  }

  /** If the request leaves length and connection to the printer, both hold exactly when its URI names
      the host literally and its other headers are literally authorization and content-type. */
  lemma UsualIsTemplateExactly(accepted: iset<bytes>, config: RequestConfig, req: Request)
    requires req.Valid() && LeavesToPrinter(req)
    requires CheckAndPad(accepted, config, EncodeRequest(req)).Success?
    ensures var r := CheckAndPad(accepted, config, EncodeRequest(req)).value;
            var literal := req.authority == Some(config.host) && Kept(req.headers) == [BearerHeader(config), JSON_HEADER];
            (Template(config) <= r.request <==> literal)
            && (r.request == Template(config) + CRLF + r.body <==> literal)
  {
    PrintedPassesExactly(accepted, config, req);
    PrintedIsTemplateExactly(accepted, config, req);
    UsualHeaders(config, req, CheckedHeaders(AsMessage(req), config.contentLength));
  }

  lemma UsualHeaders(config: RequestConfig, req: Request, all: seq<Header>)
    requires LeavesToPrinter(req) && req.authority.Some?
    requires all == CheckedHeaders(AsMessage(req), config.contentLength)
    ensures var literal := req.authority == Some(config.host) && Kept(req.headers) == [BearerHeader(config), JSON_HEADER];
            (TemplateHeaders(config) <= all <==> literal) && (all == TemplateHeaders(config) <==> literal)
  {
    var last := LastHeaders(config.contentLength);
    CheckedPrinted(req, config.contentLength);
    KeptAreOthers(req);
    assert last[0] !in Kept(req.headers);
    TemplateList(HostHeaders(req)[0], Kept(req.headers), BearerHeader(config), JSON_HEADER, last, TemplateHeaders(config),
                 all);
  }

  // A chat request: an authority, and the headers authorization and content-type in this order.

  datatype ChatRequest = ChatRequest(method_: bytes, path: bytes, authority: bytes, authorization: bytes,
                                     contentType: bytes, body: bytes)
  {
    /** What a URI, a method token and header values guarantee. */
    predicate Valid() {
      && method_ != [] && NoSpace(method_)
      && path != [] && NoSpace(path)
      && NoSpace(authority)
      && LF !in authorization && LF !in contentType
    }

    function AsRequest(): Request {
      Request(method_, Some(path), Some(authority),
              [Header(AUTHORIZATION, authorization), Header(CONTENT_TYPE, contentType)], body)
    }

    predicate IsUtf8() {
      IsText(JoinLines(AsMessage(AsRequest()).Lines()))
    }
  }

  lemma ChatIsValid(req: ChatRequest)
    requires req.Valid()
    ensures req.AsRequest().Valid()
  {
    NamesAreTokens();
    NoLineFeedIsOneLine(req.authorization);
    NoLineFeedIsOneLine(req.contentType);
  }

  lemma TwoKept(a: Header, c: Header)
    requires !SameName(a.name, HOST) && !SameName(c.name, HOST)
    ensures Kept([a, c]) == [a, c]
  {
    assert [a, c][..1] == [a] && [a][..0] == [];
    assert Kept([a]) == [a];
  }

  lemma TwoValues(a: Header, c: Header)
    requires a.name == AUTHORIZATION && c.name == CONTENT_TYPE
    ensures LastHeader([a, c], AUTHORIZATION) == Some(Trim(a.value))
    ensures LastHeader([a, c], CONTENT_TYPE) == Some(Trim(c.value))
    ensures AllHaveTokens([a, c]) <==> Bearer(Trim(a.value)).Some?
  {
    HeaderNamesDiffer();
    assert [a, c][..1] == [a];
    OneHeaderValue(a, AUTHORIZATION);
    assert HasToken(c);
    assert forall h | h in [a, c] :: h == a || h == c;
    assert a in [a, c];
  }

  lemma ChatHeaders(req: ChatRequest)
    ensures LeavesToPrinter(req.AsRequest()) && Kept(req.AsRequest().headers) == req.AsRequest().headers
    ensures LastHeader(req.AsRequest().headers, AUTHORIZATION) == Some(Trim(req.authorization))
    ensures LastHeader(req.AsRequest().headers, CONTENT_TYPE) == Some(Trim(req.contentType))
    ensures AllHaveTokens(req.AsRequest().headers) <==> Bearer(Trim(req.authorization)).Some?
  {
    HeaderNamesDiffer();
    TwoKept(Header(AUTHORIZATION, req.authorization), Header(CONTENT_TYPE, req.contentType));
    TwoValues(Header(AUTHORIZATION, req.authorization), Header(CONTENT_TYPE, req.contentType));
  }

  function ParsedChat(req: ChatRequest): Result<ParsedHeaders, Error> {
    if !req.IsUtf8() then Failure(NotUtf8)
    else if req.method_ != POST then Failure(NotPost)
    else
      match Bearer(Trim(req.authorization))
      case None => Failure(MissingBearer)
      case Some(token) => Success(ParsedHeaders(req.authority, req.path, token, Trim(req.contentType), CLOSE))
  }

  lemma ChatValues(req: ChatRequest)
    ensures PrintedValue(req.AsRequest(), AUTHORIZATION) == Some(Trim(req.authorization))
    ensures PrintedValue(req.AsRequest(), CONTENT_TYPE) == Some(Trim(req.contentType))
    ensures PrintedValue(req.AsRequest(), CONNECTION) == Some(CLOSE)
  {
    var headers := req.AsRequest().headers;
    HeaderNamesDiffer();
    ChatHeaders(req);
    HasLastHeader(headers, AUTHORIZATION);
    HasLastHeader(headers, CONTENT_TYPE);
  }

  lemma ChatParsed(req: ChatRequest)
    requires req.Valid()
    ensures ParsedRequest(req.AsRequest()) == ParsedChat(req)
  {
    ChatHeaders(req);
    ChatValues(req);
    TrimNothing(req.authority);
  }

  /** What `parse_headers` makes of a printed chat request. */
  lemma ParseChat(req: ChatRequest)
    requires req.Valid()
    ensures ParseHeaders(JoinLines(AsMessage(req.AsRequest()).Lines())) == ParsedChat(req)
  {
    ChatIsValid(req);
    ParsedIsPrinted(req.AsRequest());
    ChatParsed(req);
  }

  /** What a printed chat request must be like to pass `check_and_pad`. */
  predicate ChatPasses(accepted: iset<bytes>, config: RequestConfig, req: ChatRequest) {
    && req.method_ == POST && req.path == config.basepath && req.authority == config.host
    && Bearer(Trim(req.authorization)) == Some(config.apiKey) && Trim(req.contentType) == APPLICATION_JSON
    && req.IsUtf8() && req.body in accepted && PadBody(req.body, config.contentLength).Success?
  }

  lemma LowerClose()
    ensures Lower(CLOSE) == CLOSE
  {
  }

  /** Exactly when a printed chat request passes `check_and_pad`. */
  lemma ChatPassesExactly(accepted: iset<bytes>, config: RequestConfig, req: ChatRequest)
    requires req.Valid()
    ensures CheckAndPad(accepted, config, EncodeRequest(req.AsRequest())).Success? <==> ChatPasses(accepted, config, req)
  {
    ChatIsValid(req);
    ChatParsed(req);
    LowerClose();
    PrintedPassesExactly(accepted, config, req.AsRequest());
  }

  /** The two header values are literally those of the template. */
  predicate MeetsTemplate(config: RequestConfig, req: ChatRequest) {
    req.authorization == BEARER + config.apiKey && req.contentType == APPLICATION_JSON
  }

  /** The printer, the padder and the circuit's template agree on a chat request that passes exactly
      when its two header values are literal. The check alone is more lenient: it also takes "bearer "
      and white space around a value. */
  lemma PaddedIsTemplateExactly(accepted: iset<bytes>, config: RequestConfig, req: ChatRequest)
    requires req.Valid()
    requires CheckAndPad(accepted, config, EncodeRequest(req.AsRequest())).Success?
    ensures var r := CheckAndPad(accepted, config, EncodeRequest(req.AsRequest())).value;
            (Template(config) <= r.request <==> MeetsTemplate(config, req))
            && (r.request == Template(config) + CRLF + r.body <==> MeetsTemplate(config, req))
  {
    ChatIsValid(req);
    ChatHeaders(req);
    ChatPassesExactly(accepted, config, req);
    UsualIsTemplateExactly(accepted, config, req.AsRequest());
    assert req.AsRequest().headers == [BearerHeader(config), JSON_HEADER] <==> MeetsTemplate(config, req);
  }

  /** A template request: the circuit's body region is exactly the body. */
  lemma TemplateBodyRegion(config: RequestConfig, body: bytes)
    requires |body| == config.contentLength
    ensures BodyRegionFromWire(Template(config) + CRLF + body, config) == Success(body)
  {
    RegionOfParts(config, Template(config), CRLF, CRLF, [], body, Template(config) + CRLF + body);
    assert ([] + body)[..|body|] == body;
  }
}
