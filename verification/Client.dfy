/** `encode_request`: the loop that prints a request. */
module Client {
  import opened Sequences
  import opened Bytes
  import opened WireSpec
  import opened Templates
  import opened Messages
  import opened EncodeSpec
  import opened PrintedFields

  /** A first line and header lines, each with its end. */
  function Head(line: bytes, headers: seq<Header>): bytes {
    Flatten(Ended([line] + HeaderLines(headers)))
  }

  method EncodeRequest(req: Request) returns (wire: bytes)
    ensures wire == EncodeSpec.EncodeRequest(req)
  {
    ghost var line := RequestLine(req.method_, req.Path());
    wire := RequestLine(req.method_, req.Path()) + CRLF;
    HeadStart(line);
    if req.authority.Some? {
      HeadSnoc(line, [], Header(HOST, req.authority.value));
      wire := wire + (HeaderLine(HOST, req.authority.value) + CRLF);
      assert [] + [Header(HOST, req.authority.value)] == HostHeaders(req);
    }
    var hasContentLength, hasConnection;
    wire, hasContentLength, hasConnection := AppendHeaders(wire, line, HostHeaders(req), req.headers);
    wire := AppendAdded(wire, line, HostHeaders(req) + Kept(req.headers), req, hasContentLength, hasConnection);
    EndedLines(AsMessage(req).Lines());
    BlankLineIsTwoEnds(JoinLines(AsMessage(req).Lines()));
    wire := wire + CRLF;
    wire := wire + req.body;
  }

  /** The header loop: `before` are the headers printed before it. */
  method AppendHeaders(start: bytes, ghost line: bytes, ghost before: seq<Header>, headers: seq<Header>)
    returns (wire: bytes, hasContentLength: bool, hasConnection: bool)
    requires start == Head(line, before)
    ensures wire == Head(line, before + Kept(headers))
    ensures hasContentLength <==> Has(headers, CONTENT_LENGTH)
    ensures hasConnection <==> Has(headers, CONNECTION)
  {
    wire, hasContentLength, hasConnection := start, false, false;
    assert before + Kept([]) == before;
    for i := 0 to |headers|
      invariant hasContentLength <==> Has(headers[..i], CONTENT_LENGTH)
      invariant hasConnection <==> Has(headers[..i], CONNECTION)
      invariant wire == Head(line, before + Kept(headers[..i]))
    {
      var name, value := headers[i].name, headers[i].value;
      KeptNext(line, before, headers, i);
      HasNext(headers, i, CONTENT_LENGTH);
      HasNext(headers, i, CONNECTION);
      HostIsNoOtherName(name);
      if SameName(name, HOST) {
        continue;
      }
      if SameName(name, CONTENT_LENGTH) {
        hasContentLength := true;
      }
      if SameName(name, CONNECTION) {
        hasConnection := true;
      }
      wire := wire + (HeaderLine(name, value) + CRLF);
    }
    assert headers[..|headers|] == headers;
  }

  method AppendAdded(start: bytes, ghost line: bytes, ghost before: seq<Header>, req: Request, hasContentLength: bool,
                     hasConnection: bool)
    returns (wire: bytes)
    requires start == Head(line, before)
    requires hasContentLength == Has(req.headers, CONTENT_LENGTH) && hasConnection == Has(req.headers, CONNECTION)
    ensures wire == Head(line, before + AddedHeaders(req))
  {
    wire := start;
    ghost var all := before;
    if !hasContentLength {
      HeadSnoc(line, all, Header(CONTENT_LENGTH, Decimal(|req.body|)));
      wire := wire + (HeaderLine(CONTENT_LENGTH, Decimal(|req.body|)) + CRLF);
      all := all + [Header(CONTENT_LENGTH, Decimal(|req.body|))];
    }
    if !hasConnection {
      HeadSnoc(line, all, Header(CONNECTION, CLOSE));
      wire := wire + (HeaderLine(CONNECTION, CLOSE) + CRLF);
      all := all + [Header(CONNECTION, CLOSE)];
    }
    assert all == before + AddedHeaders(req);
  }

  /** The headers, written out line by line. */
  function HeaderText(headers: seq<Header>): bytes {
    if headers == [] then []
    else headers[0].name + [COLON, SPACE] + headers[0].value + CRLF + HeaderText(headers[1..])
  }

  lemma OneHeaderText(h: Header)
    ensures HeaderText([h]) == HeaderLine(h.name, h.value) + CRLF
  {
    assert [h][1..] == [];
  }

  lemma {:induction false} HeaderTextConcat(a: seq<Header>, b: seq<Header>)
    ensures HeaderText(a + b) == HeaderText(a) + HeaderText(b)
  {
    if a == [] {
      assert a + b == b;
    } else {
      TailConcat(a, b);
      HeaderTextConcat(a[1..], b);
      Associates(a[0].name + [COLON, SPACE] + a[0].value + CRLF, HeaderText(a[1..]), HeaderText(b));
    }
  }

  lemma {:induction false} HeadIsText(line: bytes, headers: seq<Header>)
    ensures Head(line, headers) == line + CRLF + HeaderText(headers)
    decreases |headers|
  {
    if headers == [] {
      HeadStart(line);
    } else {
      var front, h := headers[..|headers| - 1], headers[|headers| - 1];
      assert headers == front + [h];
      HeadIsText(line, front);
      HeadSnoc(line, front, h);
      HeaderTextConcat(front, [h]);
      OneHeaderText(h);
      Associates(line + CRLF, HeaderText(front), HeaderText([h]));
    }
  }

  /** The request brings a header of this name, in any case. */
  predicate Brings(req: Request, name: bytes) {
    exists i | 0 <= i < |req.headers| :: SameIgnoringCase(req.headers[i].name, name)
  }

  lemma BringsExactly(req: Request, name: bytes)
    ensures Has(req.headers, name) <==> Brings(req, name)
  {
    forall i | 0 <= i < |req.headers|
      ensures SameName(req.headers[i].name, name) <==> SameIgnoringCase(req.headers[i].name, name)
    {
      LowerExactly(req.headers[i].name, name);
    }
  }

  function HostText(req: Request): bytes {
    if req.authority.None? then [] else HOST + [COLON, SPACE] + req.authority.value + CRLF
  }

  function AddedText(req: Request): bytes {
    (if Brings(req, CONTENT_LENGTH) then [] else CONTENT_LENGTH + [COLON, SPACE] + Decimal(|req.body|) + CRLF)
    + (if Brings(req, CONNECTION) then [] else CONNECTION + [COLON, SPACE] + CLOSE + CRLF)
  }

  lemma HostIsText(req: Request)
    ensures HeaderText(HostHeaders(req)) == HostText(req)
  {
    if req.authority.Some? {
      OneHeaderText(Header(HOST, req.authority.value));
    }
  }

  lemma AddedIsText(req: Request)
    ensures HeaderText(AddedHeaders(req)) == AddedText(req)
  {
    BringsExactly(req, CONTENT_LENGTH);
    BringsExactly(req, CONNECTION);
    var length, connection := Header(CONTENT_LENGTH, Decimal(|req.body|)), Header(CONNECTION, CLOSE);
    OneHeaderText(length);
    OneHeaderText(connection);
    HeaderTextConcat(AddedHeader(Has(req.headers, CONTENT_LENGTH), length),
                     AddedHeader(Has(req.headers, CONNECTION), connection));
  }

  lemma PrintedIsText(req: Request)
    ensures HeaderText(PrintedHeaders(req)) == HostText(req) + HeaderText(Kept(req.headers)) + AddedText(req)
  {
    HeaderTextConcat(HostHeaders(req) + Kept(req.headers), AddedHeaders(req));
    HeaderTextConcat(HostHeaders(req), Kept(req.headers));
    HostIsText(req);
    AddedIsText(req);
  }

  /** The printed request, written out: the request line, the host, the kept headers, the length and the
      connection unless the request brings them, an empty line and the body. */
  lemma EncodedText(req: Request)
    ensures EncodeSpec.EncodeRequest(req)
         == (req.method_ + [SPACE] + (if req.path.None? then [0x2F] else req.path.value) + [SPACE] + HTTP_1_1) + CRLF
            + (HostText(req) + HeaderText(Kept(req.headers)) + AddedText(req)) + CRLF + req.body
  {
    var m := AsMessage(req);
    EndedLines(m.Lines());
    BlankLineIsTwoEnds(JoinLines(m.Lines()));
    HeadIsText(RequestLine(m.method_, m.path), m.headers);
    PrintedIsText(req);
  }

  lemma BlankLineIsTwoEnds(s: bytes)
    ensures (s + CRLF) + CRLF == s + BLANK_LINE
  {
  }

  lemma HeadStart(line: bytes)
    ensures Head(line, []) == line + CRLF
  {
    assert Ended([line] + HeaderLines([])) == [line + CRLF];
    FlattenCons(line + CRLF, []);
  }

  lemma HeadSnoc(line: bytes, headers: seq<Header>, h: Header)
    ensures Head(line, headers + [h]) == Head(line, headers) + (HeaderLine(h.name, h.value) + CRLF)
  {
    var lines := [line] + HeaderLines(headers);
    assert [line] + HeaderLines(headers + [h]) == lines + [HeaderLine(h.name, h.value)];
    assert Ended(lines + [HeaderLine(h.name, h.value)]) == Ended(lines) + [HeaderLine(h.name, h.value) + CRLF];
    FlattenSnoc(Ended(lines), HeaderLine(h.name, h.value) + CRLF);
  }

  lemma KeptNext(line: bytes, before: seq<Header>, headers: seq<Header>, i: nat)
    requires i < |headers|
    ensures Head(line, before + Kept(headers[..i + 1]))
         == if SameName(headers[i].name, HOST) then Head(line, before + Kept(headers[..i]))
            else Head(line, before + Kept(headers[..i])) + (HeaderLine(headers[i].name, headers[i].value) + CRLF)
  {
    assert headers[..i + 1][..i] == headers[..i];
    if SameName(headers[i].name, HOST) {
      assert Kept(headers[..i + 1]) == Kept(headers[..i]);
    } else {
      HeadSnoc(line, before + Kept(headers[..i]), headers[i]);
      Associates(before, Kept(headers[..i]), [headers[i]]);
    }
  }

  lemma HasNext(headers: seq<Header>, i: nat, name: bytes)
    requires i < |headers|
    ensures Has(headers[..i + 1], name) <==> Has(headers[..i], name) || SameName(headers[i].name, name)
  {
    var more := headers[..i + 1];
    if Has(headers[..i], name) {
      var k :| 0 <= k < i && SameName(headers[..i][k].name, name);
      assert SameName(more[k].name, name);
    }
    if SameName(headers[i].name, name) {
      assert SameName(more[i].name, name);
    }
    if Has(more, name) {
      var k :| 0 <= k < |more| && SameName(more[k].name, name);
      assert k < i ==> SameName(headers[..i][k].name, name);
    }
  }

  /** A skipped host header is neither a content-length nor a connection header. */
  lemma HostIsNoOtherName(name: bytes)
    ensures SameName(name, HOST) ==> !SameName(name, CONTENT_LENGTH) && !SameName(name, CONNECTION)
  {
    HeaderNamesDiffer();
  }
}
