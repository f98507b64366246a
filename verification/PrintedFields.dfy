/** What the parser reads back from any request that the client prints. */
module PrintedFields {
  import opened Sequences
  import opened Bytes
  import opened Text
  import opened WireSpec
  import opened WireTheorems
  import opened Messages
  import opened EncodeSpec

  /** The value that a printed request gives a name: the host comes from the URI alone, any other
      name from the headers, and a missing length or connection is filled in. */
  function PrintedValue(req: Request, name: bytes): Option<bytes> {
    if SameName(name, HOST) then (if req.authority.Some? then Some(Trim(req.authority.value)) else None)
    else if Has(req.headers, name) then LastHeader(req.headers, name)
    else if SameName(name, CONTENT_LENGTH) then Some(Decimal(|req.body|))
    else if SameName(name, CONNECTION) then Some(CLOSE)
    else None
  }

  lemma OneHeaderValue(h: Header, name: bytes)
    ensures LastHeader([h], name) == if SameName(h.name, name) then Some(Trim(h.value)) else None
  {
    assert [h][..0] == [];
  }

  lemma {:induction false} KeptValue(headers: seq<Header>, name: bytes)
    ensures LastHeader(Kept(headers), name) == if SameName(name, HOST) then None else LastHeader(headers, name)
    decreases |headers|
  {
    if headers != [] {
      var front, h := headers[..|headers| - 1], headers[|headers| - 1];
      KeptValue(front, name);
      if !SameName(h.name, HOST) {
        LastHeaderConcat(Kept(front), [h], name);
        OneHeaderValue(h, name);
      } else {
        assert Kept(headers) == Kept(front);
      }
    }
  }

  lemma {:induction false} HasLastHeader(headers: seq<Header>, name: bytes)
    ensures Has(headers, name) <==> LastHeader(headers, name).Some?
    decreases |headers|
  {
    if headers != [] {
      var front := headers[..|headers| - 1];
      HasLastHeader(front, name);
      if Has(front, name) {
        var i :| 0 <= i < |front| && SameName(front[i].name, name);
        assert SameName(headers[i].name, name);
      }
      if Has(headers, name) {
        var i :| 0 <= i < |headers| && SameName(headers[i].name, name);
        assert i < |front| ==> SameName(front[i].name, name);
      }
    }
  }

  lemma DecimalIsTrimmed(n: nat)
    ensures Trim(Decimal(n)) == Decimal(n)
  {
    DecimalIsDigits(n);
    AsciiNoSpace(Decimal(n));
    TrimNothing(Decimal(n));
  }

  function AddedHeader(isThere: bool, h: Header): seq<Header> {
    if isThere then [] else [h]
  }

  lemma HeaderNamesDiffer()
    ensures !SameName(AUTHORIZATION, HOST) && !SameName(CONTENT_TYPE, HOST)
    ensures !SameName(AUTHORIZATION, CONTENT_LENGTH) && !SameName(CONTENT_TYPE, CONTENT_LENGTH)
    ensures !SameName(AUTHORIZATION, CONNECTION) && !SameName(CONTENT_TYPE, CONNECTION)
    ensures !SameName(HOST, CONTENT_LENGTH) && !SameName(CONNECTION, CONTENT_LENGTH) && !SameName(HOST, CONNECTION)
    ensures !SameName(AUTHORIZATION, CONTENT_TYPE)
  {
    ReadNamesDiffer(HOST);
    ReadNamesDiffer(AUTHORIZATION);
    ReadNamesDiffer(CONTENT_TYPE);
    ReadNamesDiffer(CONNECTION);
    assert |Lower(HOST)| == 4 && |Lower(AUTHORIZATION)| == 13 && |Lower(CONTENT_TYPE)| == 12 && |Lower(CONNECTION)| == 10;
  }

  lemma AddedValue(req: Request, name: bytes)
    ensures LastHeader(AddedHeaders(req), name)
         == if SameName(name, CONTENT_LENGTH) && !Has(req.headers, CONTENT_LENGTH) then Some(Decimal(|req.body|))
            else if SameName(name, CONNECTION) && !Has(req.headers, CONNECTION) then Some(CLOSE)
            else None
  {
    var length, connection := Header(CONTENT_LENGTH, Decimal(|req.body|)), Header(CONNECTION, CLOSE);
    var a := AddedHeader(Has(req.headers, CONTENT_LENGTH), length);
    var b := AddedHeader(Has(req.headers, CONNECTION), connection);
    assert AddedHeaders(req) == a + b;
    LastHeaderConcat(a, b, name);
    HeaderNamesDiffer();
    OneHeaderValue(length, name);
    OneHeaderValue(connection, name);
    DecimalIsTrimmed(|req.body|);
    NamesAreTokens();
    TrimNothing(CLOSE);
  }

  lemma HostValue(req: Request, name: bytes)
    ensures LastHeader(HostHeaders(req), name)
         == if SameName(name, HOST) && req.authority.Some? then Some(Trim(req.authority.value)) else None
  {
    if req.authority.Some? {
      OneHeaderValue(Header(HOST, req.authority.value), name);
    }
  }

  lemma HasSameName(headers: seq<Header>, name: bytes, other: bytes)
    requires SameName(name, other)
    ensures Has(headers, name) <==> Has(headers, other)
  {
  }

  lemma PrintedValueOfHeaders(req: Request, name: bytes)
    ensures LastHeader(PrintedHeaders(req), name) == PrintedValue(req, name)
  {
    var host, kept, added := HostHeaders(req), Kept(req.headers), AddedHeaders(req);
    LastHeaderConcat(host + kept, added, name);
    LastHeaderConcat(host, kept, name);
    HostValue(req, name);
    KeptValue(req.headers, name);
    AddedValue(req, name);
    HasLastHeader(req.headers, name);
    HeaderNamesDiffer();
    if SameName(name, CONTENT_LENGTH) {
      HasSameName(req.headers, name, CONTENT_LENGTH);
    } else if SameName(name, CONNECTION) {
      HasSameName(req.headers, name, CONNECTION);
    }
  }

  /** Every name has its printed value, whatever headers the request brings: a second host header is
      never seen, a length or connection given by the request is kept, a missing one is filled in. */
  lemma PrintedValueOfLines(req: Request, name: bytes)
    requires req.Valid()
    ensures LastValue(AsMessage(req).Lines()[1..], name) == PrintedValue(req, name)
  {
    PrintedAreValid(req);
    LastValueOfHeaders(PrintedHeaders(req), name);
    PrintedValueOfHeaders(req, name);
    assert AsMessage(req).Lines()[1..] == HeaderLines(PrintedHeaders(req));
  }

  lemma {:induction false} KeptTokens(headers: seq<Header>)
    ensures AllHaveTokens(Kept(headers)) <==> AllHaveTokens(headers)
    decreases |headers|
  {
    HeaderNamesDiffer();
    if headers != [] {
      var front, h := headers[..|headers| - 1], headers[|headers| - 1];
      KeptTokens(front);
      assert headers == front + [h];
      assert SameName(h.name, HOST) ==> HasToken(h);
    }
  }

  lemma PrintedTokens(req: Request)
    ensures AllHaveTokens(PrintedHeaders(req)) <==> AllHaveTokens(req.headers)
  {
    HeaderNamesDiffer();
    KeptTokens(req.headers);
    assert AllHaveTokens(HostHeaders(req)) && AllHaveTokens(AddedHeaders(req));
  }

  /** What the parser makes of a printed request, in terms of the request. */
  function ParsedRequest(req: Request): Result<ParsedHeaders, Error> {
    if !IsText(JoinLines(AsMessage(req).Lines())) then Failure(NotUtf8)
    else if req.method_ != POST then Failure(NotPost)
    else Assemble(req.Path(), AllHaveTokens(req.headers), PrintedValue(req, HOST), PrintedValue(req, AUTHORIZATION),
                  PrintedValue(req, CONTENT_TYPE), PrintedValue(req, CONNECTION))
  }

  lemma PrintedParses(req: Request)
    ensures ParsedMessage(AsMessage(req)) == ParsedRequest(req)
  {
    PrintedTokens(req);
    PrintedValueOfHeaders(req, HOST);
    PrintedValueOfHeaders(req, AUTHORIZATION);
    PrintedValueOfHeaders(req, CONTENT_TYPE);
    PrintedValueOfHeaders(req, CONNECTION);
  }

  /** Printing, splitting and parsing: the exact result for every request, with every error. One
      authorization header without a bearer token fails, even if a later one has a token. */
  lemma ParsedIsPrinted(req: Request)
    requires req.Valid()
    ensures SplitHttp(EncodeRequest(req)) == Success((JoinLines(AsMessage(req).Lines()), req.body))
    ensures ParseHeaders(JoinLines(AsMessage(req).Lines())) == ParsedRequest(req)
  {
    PrintedAreValid(req);
    MessageSplits(AsMessage(req));
    MessageParses(AsMessage(req));
    PrintedParses(req);
  }

  /** A printed request always has a connection, and the host is the authority. */
  lemma ParsedSuccessExactly(req: Request)
    ensures ParsedRequest(req).Success?
       <==> (IsText(JoinLines(AsMessage(req).Lines())) && req.method_ == POST && req.authority.Some?
             && AllHaveTokens(req.headers) && Has(req.headers, AUTHORIZATION) && Has(req.headers, CONTENT_TYPE))
  {
    HeaderNamesDiffer();
    HasLastHeader(req.headers, AUTHORIZATION);
    HasLastHeader(req.headers, CONTENT_TYPE);
    HasLastHeader(req.headers, CONNECTION);
    if AllHaveTokens(req.headers) && Has(req.headers, AUTHORIZATION) {
      LastTokenFound(req.headers);
    }
  }

  lemma {:induction false} LastTokenFound(headers: seq<Header>)
    requires AllHaveTokens(headers) && LastHeader(headers, AUTHORIZATION).Some?
    ensures Bearer(LastHeader(headers, AUTHORIZATION).value).Some?
    decreases |headers|
  {
    var h := headers[|headers| - 1];
    assert HasToken(h);
    if !SameName(h.name, AUTHORIZATION) {
      LastTokenFound(headers[..|headers| - 1]);
    }
  }
}
