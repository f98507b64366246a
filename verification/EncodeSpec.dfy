/** The client's printer of HTTP requests. */
module EncodeSpec {
  import opened Sequences
  import opened Bytes
  import opened Text
  import opened WireSpec
  import opened Lines
  import opened Messages

  /** The parts of an `http::Request`; the path includes the query. */
  datatype Request = Request(method_: bytes, path: Option<bytes>, authority: Option<bytes>, headers: seq<Header>,
                             body: bytes)
  {
    function Path(): bytes {
      match path
      case None => [0x2F]
      case Some(p) => p
    }

    /** What the types of the `http` crate guarantee: a method, a path and an authority without white
        space, header names that are tokens, and header values on one line. */
    ghost predicate Valid() {
      && method_ != [] && NoSpace(method_) && Path() != [] && NoSpace(Path())
      && (authority.Some? ==> NoSpace(authority.value))
      && ValidHeaders(headers)
    }

    /** All that the printer needs: no part holds a line feed. */
    predicate NoLineFeeds() {
      && LF !in method_ && LF !in Path()
      && (authority.Some? ==> LF !in authority.value)
      && forall h | h in headers :: LF !in h.name && LF !in h.value
    }
  }

  predicate Has(headers: seq<Header>, name: bytes) {
    exists i | 0 <= i < |headers| :: SameName(headers[i].name, name)
  }

  function HostHeaders(req: Request): seq<Header> {
    match req.authority
    case None => []
    case Some(authority) => [Header(HOST, authority)]
  }

  /** The given headers, without any host header. */
  function Kept(headers: seq<Header>): seq<Header> {
    if headers == [] then []
    else
      var h := headers[|headers| - 1];
      Kept(headers[..|headers| - 1]) + (if SameName(h.name, HOST) then [] else [h])
  }

  /** The headers that are added when the request does not bring them. */
  function AddedHeaders(req: Request): seq<Header> {
    (if Has(req.headers, CONTENT_LENGTH) then [] else [Header(CONTENT_LENGTH, Decimal(|req.body|))])
    + (if Has(req.headers, CONNECTION) then [] else [Header(CONNECTION, CLOSE)])
  }

  function PrintedHeaders(req: Request): seq<Header> {
    HostHeaders(req) + Kept(req.headers) + AddedHeaders(req)
  }

  function AsMessage(req: Request): Message {
    Message(req.method_, req.Path(), PrintedHeaders(req), req.body)
  }

  /** `encode_request` */
  function EncodeRequest(req: Request): bytes {
    AsMessage(req).Encode()
  }

  lemma {:induction false} KeptAreGiven(headers: seq<Header>)
    ensures forall h | h in Kept(headers) :: h in headers && !SameName(h.name, HOST)
    decreases |headers|
  {
    if headers != [] {
      KeptAreGiven(headers[..|headers| - 1]);
    }
  }

  /** The places of the kept headers: all those without a host header, in order. */
  ghost predicate KeptAt(headers: seq<Header>, places: seq<nat>, kept: seq<Header>) {
    && |places| == |kept|
    && (forall j | 0 <= j < |places| :: places[j] < |headers| && kept[j] == headers[places[j]])
    && (forall j, k | 0 <= j < k < |places| :: places[j] < places[k])
    && forall i | 0 <= i < |headers| :: i in places <==> !SameIgnoringCase(headers[i].name, HOST)
  }

  lemma HostLeftOut(headers: seq<Header>, front: seq<Header>, h: Header, places: seq<nat>, kept: seq<Header>)
    requires headers == front + [h] && KeptAt(front, places, kept) && SameIgnoringCase(h.name, HOST)
    ensures KeptAt(headers, places, kept)
  {
    forall i | 0 <= i < |headers|
      ensures i in places <==> !SameIgnoringCase(headers[i].name, HOST)
    {
      assert i < |front| ==> headers[i] == front[i];
    }
  }

  lemma OtherKept(headers: seq<Header>, front: seq<Header>, h: Header, places: seq<nat>, kept: seq<Header>, more: seq<nat>)
    requires headers == front + [h] && KeptAt(front, places, kept) && !SameIgnoringCase(h.name, HOST)
    requires more == places + [|front|]
    ensures KeptAt(headers, more, kept + [h])
  {
    assert forall j | 0 <= j < |places| :: more[j] == places[j];
    assert more[|places|] == |front|;
    forall i | 0 <= i < |headers|
      ensures i in more <==> !SameIgnoringCase(headers[i].name, HOST)
    {
      assert i < |front| ==> headers[i] == front[i];
    }
  }

  lemma KeptNextHeader(headers: seq<Header>, front: seq<Header>, h: Header)
    requires headers != [] && front == headers[..|headers| - 1] && h == headers[|headers| - 1]
    ensures headers == front + [h]
    ensures Kept(headers) == if SameIgnoringCase(h.name, HOST) then Kept(front) else Kept(front) + [h]
  {
    LowerExactly(h.name, HOST);
    assert Kept(front) + [] == Kept(front);
  }

  lemma NextKept(headers: seq<Header>, front: seq<Header>, h: Header, places: seq<nat>, kept: seq<Header>, all: seq<Header>)
    returns (more: seq<nat>)
    requires headers == front + [h] && KeptAt(front, places, kept)
    requires all == if SameIgnoringCase(h.name, HOST) then kept else kept + [h]
    ensures KeptAt(headers, more, all)
  {
    if SameIgnoringCase(h.name, HOST) {
      more := places;
      HostLeftOut(headers, front, h, places, kept);
    } else {
      more := places + [|front|];
      OtherKept(headers, front, h, places, kept, more);
    }
  }

  /** The host headers that the request brings are left out, in any case of their name, and nothing else. */
  lemma {:induction false} KeptExactly(headers: seq<Header>) returns (places: seq<nat>)
    ensures KeptAt(headers, places, Kept(headers))
    decreases |headers|
  {
    if headers == [] {
      places := [];
    } else {
      var front, h := headers[..|headers| - 1], headers[|headers| - 1];
      KeptNextHeader(headers, front, h);
      var before := KeptExactly(front);
      places := NextKept(headers, front, h, before, Kept(front), Kept(headers));
    }
  }

  lemma FixedNames()
    ensures LF !in CONTENT_LENGTH && LF !in CONNECTION && LF !in CLOSE && LF !in HOST
    ensures LF !in HTTP_1_1
  {
  }

  lemma DecimalHasNoLineFeed(n: nat)
    ensures LF !in Decimal(n)
  {
    DecimalIsDigits(n);
  }

  lemma NoLineFeedPrinted(req: Request)
    requires req.NoLineFeeds()
    ensures forall h | h in PrintedHeaders(req) :: LF !in h.name && LF !in h.value
  {
    KeptAreGiven(req.headers);
    FixedNames();
    DecimalHasNoLineFeed(|req.body|);
    assert forall h | h in AddedHeaders(req) :: LF !in h.name && LF !in h.value;
    assert forall h | h in HostHeaders(req) :: LF !in h.name && LF !in h.value;
  }

  lemma NoLineFeedLine(name: bytes, value: bytes)
    requires LF !in name && LF !in value
    ensures OneLine(HeaderLine(name, value))
  {
    NoLineFeedIsOneLine(HeaderLine(name, value));
  }

  /** Whatever the headers and the body, the first blank line of the printed request is the one
      before its body. */
  lemma EncodedSplits(req: Request)
    requires req.NoLineFeeds()
    ensures SplitHttp(EncodeRequest(req)) == Success((JoinLines(AsMessage(req).Lines()), req.body))
    ensures SplitLines(JoinLines(AsMessage(req).Lines())) == AsMessage(req).Lines()
  {
    var m := AsMessage(req);
    FixedNames();
    NoLineFeedIsOneLine(RequestLine(m.method_, m.path));
    NoLineFeedPrinted(req);
    forall h | h in m.headers
      ensures OneLine(HeaderLine(h.name, h.value))
    {
      NoLineFeedLine(h.name, h.value);
    }
    LinesSplit(m);
  }

  lemma PrintedAreValid(req: Request)
    requires req.Valid()
    ensures AsMessage(req).Valid()
  {
    KeptAreGiven(req.headers);
    NamesAreTokens();
    NoLineFeedIsOneLine(CLOSE);
    DecimalHasNoLineFeed(|req.body|);
    NoLineFeedIsOneLine(Decimal(|req.body|));
    assert ValidHeaders(AddedHeaders(req));
    if req.authority.Some? {
      NoSpaceByte(req.authority.value, LF);
      NoLineFeedIsOneLine(req.authority.value);
    }
    assert ValidHeaders(HostHeaders(req));
  }
}
