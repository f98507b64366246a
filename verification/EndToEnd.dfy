/** From the client's request to the circuit's public inputs. */
module EndToEnd {
  import opened Bytes
  import opened Text
  import opened Sequences
  import opened Field
  import opened WireSpec
  import opened WireTheorems
  import opened Templates
  import opened Messages
  import opened EncodeSpec
  import opened ClientTheorems
  import opened CircuitSpec
  import opened Constraints
  import Circuit
  import Padding
  import JsonGrammar
  import JsonPadding
  import ChaCha20Theorems
  import MimcSpec
  import CommitmentSpec

  /** Decrypting what was encrypted under the same key, nonce and count gives the text back. */
  lemma ChaChaInverts(key: KeyBytes, nonce: NonceBytes, count: bv32, text: bytes)
    ensures ChaCha(key, nonce, count, ChaCha(key, nonce, count, text)) == text
  {
    ChaCha20Theorems.EncryptIsInvolution(CipherOf(key, nonce), count, text);
  }

  lemma TemplateText(p: MimcSpec.Params, config: RequestConfig, body: bytes, cipherTexts: bytes, x: Fr, y: Fr)
    requires |body| == config.contentLength
    ensures |Template(config) + CRLF + body| == BodyStart(config) + config.contentLength
    ensures AcceptsText(p, config, Template(config) + CRLF + body, cipherTexts, x, y)
       <==> x == CommitmentSpec.MimcCommit(p, body) && y == CommitmentSpec.MimcCommit(p, cipherTexts)
  {
    var text := Template(config) + CRLF + body;
    assert text[..|Template(config)|] == Template(config);
    assert text[BodyStart(config)..BodyStart(config) + config.contentLength] == body;
  }

  /** Completeness: for every key, nonce, count and body of the configured length, the encrypted
      template, blank line and body satisfy the circuit, with exactly one pair of public inputs: the
      commitments to the body and to the ciphertext. */
  lemma CircuitIsComplete(p: MimcSpec.Params, config: RequestConfig, key: KeyBytes, nonce: NonceBytes, count: bv32, body: bytes,
                          x: Fr, y: Fr)
    requires |body| == config.contentLength
    ensures var cipherTexts := ChaCha(key, nonce, count, Template(config) + CRLF + body);
            |cipherTexts| == BodyStart(config) + config.contentLength
            && (Accepts(p, config, key, nonce, count, cipherTexts, x, y)
                <==> x == CommitmentSpec.MimcCommit(p, body) && y == CommitmentSpec.MimcCommit(p, cipherTexts))
  {
    var text := Template(config) + CRLF + body;
    var cipherTexts := ChaCha(key, nonce, count, text);
    ChaChaInverts(key, nonce, count, text);
    TemplateText(p, config, body, cipherTexts, x, y);
  }

  /** What an assignment that satisfies the constraints says: the ciphertext is the encryption of a text
      that starts with the template, and the two public wires are the commitments to the body region of
      that text and to the ciphertext. */
  ghost predicate Sound(p: MimcSpec.Params, config: RequestConfig, key: KeyBytes, nonce: NonceBytes, count: bv32,
                        cipherTexts: bytes, promptValue: Fr, cipherValue: Fr)
  {
    var text := ChaCha(key, nonce, count, cipherTexts);
    && cipherTexts == ChaCha(key, nonce, count, text)
    && Template(config) <= text
    && BodyRegionFromWire(text, config).Success?
    && promptValue == CommitmentSpec.MimcCommit(p, BodyRegionFromWire(text, config).value)
    && cipherValue == CommitmentSpec.MimcCommit(p, cipherTexts)
  }

  /** Soundness for any constraint system that admits exactly the acceptable public inputs. */
  lemma CircuitIsSound(p: MimcSpec.Params, config: RequestConfig, key: KeyBytes, nonce: NonceBytes, count: bv32,
                       cipherTexts: bytes, cs: seq<Constraint>, wires: nat, promptInput: nat, cipherInput: nat,
                       w: Assignment)
    requires |cipherTexts| >= BodyStart(config) + config.contentLength
    requires forall x: Fr, y: Fr ::
               Satisfiable(cs, wires, promptInput, cipherInput, x, y)
               <==> Accepts(p, config, key, nonce, count, cipherTexts, x, y)
    requires |w| == wires && AllHold(cs, w)
    ensures Sound(p, config, key, nonce, count, cipherTexts, WireValue(w, promptInput), WireValue(w, cipherInput))
  {
    assert Satisfiable(cs, wires, promptInput, cipherInput, WireValue(w, promptInput), WireValue(w, cipherInput));
    ChaChaInverts(key, nonce, count, cipherTexts);
  }

  /** Soundness and completeness of the emitted constraints: every satisfying assignment is sound, and
      there is one exactly when the decrypted text starts with the template. */
  method SynthesisIsSound(z: Circuit.ZkPrompt, cs: ConstraintSystem) returns (promptInput: nat, cipherInput: nat)
    requires z.Valid() && cs.wires == 0 && cs.constraints == []
    modifies cs
    ensures forall w: Assignment | |w| == cs.wires && AllHold(cs.constraints, w) ::
              Sound(MimcSpec.Params(z.exponent, 0, z.roundKeys), z.config, z.key, z.nonce, z.count, z.cipherTexts,
                    WireValue(w, promptInput), WireValue(w, cipherInput))
    ensures (exists w: Assignment :: |w| == cs.wires && AllHold(cs.constraints, w))
       <==> Template(z.config) <= ChaCha(z.key, z.nonce, z.count, z.cipherTexts)
  {
    ghost var p := MimcSpec.Params(z.exponent, 0, z.roundKeys);
    promptInput, cipherInput := z.GenerateConstraints(cs);
    forall w: Assignment | |w| == cs.wires && AllHold(cs.constraints, w)
      ensures Sound(MimcSpec.Params(z.exponent, 0, z.roundKeys), z.config, z.key, z.nonce, z.count, z.cipherTexts,
                    WireValue(w, promptInput), WireValue(w, cipherInput))
    {
      CircuitIsSound(p, z.config, z.key, z.nonce, z.count, z.cipherTexts, cs.constraints, cs.wires,
                     promptInput, cipherInput, w);
    }
    var text := ChaCha(z.key, z.nonce, z.count, z.cipherTexts);
    if Template(z.config) <= text {
      TemplateIsAccepted(p, z.config, z.key, z.nonce, z.count, z.cipherTexts, cs.constraints, cs.wires,
                         promptInput, cipherInput);
    }
  }

  lemma TemplateIsAccepted(p: MimcSpec.Params, config: RequestConfig, key: KeyBytes, nonce: NonceBytes, count: bv32,
                           cipherTexts: bytes, cs: seq<Constraint>, wires: nat, promptInput: nat, cipherInput: nat)
    requires |cipherTexts| >= BodyStart(config) + config.contentLength
    requires Template(config) <= ChaCha(key, nonce, count, cipherTexts)
    requires forall x: Fr, y: Fr ::
               Satisfiable(cs, wires, promptInput, cipherInput, x, y)
               <==> Accepts(p, config, key, nonce, count, cipherTexts, x, y)
    ensures exists w: Assignment :: |w| == wires && AllHold(cs, w)
  {
    var text := ChaCha(key, nonce, count, cipherTexts);
    var x := CommitmentSpec.MimcCommit(p, PromptOf(config, text));
    var y := CommitmentSpec.MimcCommit(p, cipherTexts);
    assert Accepts(p, config, key, nonce, count, cipherTexts, x, y);
    assert Satisfiable(cs, wires, promptInput, cipherInput, x, y);
  }

  // What the circuit leaves free.

  /** The circuit looks at the template and at the body region, and at nothing else of the text: not at
      the two bytes between them, and not at what follows. */
  lemma UnseenBytesAreFree(p: MimcSpec.Params, config: RequestConfig, text: bytes, other: bytes, cipherTexts: bytes,
                           x: Fr, y: Fr)
    requires |text| >= BodyStart(config) + config.contentLength
    requires |other| >= BodyStart(config) + config.contentLength
    requires text[..|Template(config)|] == other[..|Template(config)|]
    requires PromptOf(config, text) == PromptOf(config, other)
    ensures AcceptsText(p, config, other, cipherTexts, x, y) <==> AcceptsText(p, config, text, cipherTexts, x, y)
  {
  }

  /** Replacing the two bytes after the template changes nothing about the text that is accepted. */
  lemma SeparatorIsFree(p: MimcSpec.Params, config: RequestConfig, text: bytes, separator: bytes, cipherTexts: bytes,
                        x: Fr, y: Fr)
    requires |text| >= BodyStart(config) + config.contentLength && |separator| == 2
    ensures var other := text[..|Template(config)|] + separator + text[BodyStart(config)..];
            |other| == |text|
            && (AcceptsText(p, config, other, cipherTexts, x, y) <==> AcceptsText(p, config, text, cipherTexts, x, y))
  {
    var start, end := BodyStart(config), BodyStart(config) + config.contentLength;
    var other := text[..|Template(config)|] + separator + text[start..];
    assert other[..|Template(config)|] == text[..|Template(config)|];
    assert other[start..end] == text[start..end];
    UnseenBytesAreFree(p, config, text, other, cipherTexts, x, y);
  }

  lemma BodyFollowsSeparatorExactly(config: RequestConfig, text: bytes)
    requires PlainConfig(config)
    requires Template(config) <= text && |text| >= BodyStart(config)
    ensures SplitHttp(text) == Success((JoinLines(TemplateLines(config)), text[BodyStart(config)..]))
       <==> text[|Template(config)|..BodyStart(config)] == CRLF
  {
    var lines := TemplateLines(config);
    var rest := text[BodyStart(config)..];
    TemplateAsLines(config);
    TemplateLinesAreLines(config);
    TemplateLinesNonempty(config);
    if text[|Template(config)|..BodyStart(config)] == CRLF {
      assert text == Template(config) + CRLF + rest;
      SplitHttpOfBlock(lines, rest);
    }
    if SplitHttp(text) == Success((JoinLines(lines), rest)) {
      SplitHttpGivesBlock(text);
      assert text == (JoinLines(lines) + CRLF) + CRLF + rest;
    }
  }

  /** For a text that the circuit accepts: it is an HTTP message with the template's lines and the
      committed body region as its body exactly when the two bytes after the template are a line end and
      the text ends with the region. */
  lemma RegionIsHttpBodyExactly(config: RequestConfig, text: bytes)
    requires PlainConfig(config)
    requires Template(config) <= text && |text| >= BodyStart(config) + config.contentLength
    ensures SplitHttp(text) == Success((JoinLines(TemplateLines(config)), PromptOf(config, text)))
       <==> text[|Template(config)|..BodyStart(config)] == CRLF && |text| == BodyStart(config) + config.contentLength
  {
    BodyFollowsSeparatorExactly(config, text);
    if SplitHttp(text) == Success((JoinLines(TemplateLines(config)), PromptOf(config, text))) {
      SplitHttpExactly(text, JoinLines(TemplateLines(config)), PromptOf(config, text));
      TemplateAsLines(config);
    }
    if |text| == BodyStart(config) + config.contentLength {
      assert PromptOf(config, text) == text[BodyStart(config)..];
    }
  }

  /** Whatever headers the message has: its body is the committed region exactly when its body has the
      configured length and repeats what stands between the region's start and its own; nothing stands
      there exactly when the text ends with the region. */
  lemma AnyHttpBodyIsRegionExactly(config: RequestConfig, text: bytes)
    requires |text| >= BodyStart(config) + config.contentLength && SplitHttp(text).Success?
    ensures var body, between := SplitHttp(text).value.1, text[BodyStart(config)..|text| - config.contentLength];
            body == PromptOf(config, text)
            <==> |body| == config.contentLength && (between == [] || Repeats(body, between))
  {
    var (headers, body) := SplitHttp(text).value;
    SplitHttpExactly(text, headers, body);
    var between := text[BodyStart(config)..|text| - config.contentLength];
    if |body| == config.contentLength {
      RegionBeforeBody(config, text, headers + BLANK_LINE, body, between);
      if between == [] {
        assert ([] + body)[..|body|] == body;
      } else {
        RepeatsExactly(body, between);
      }
    }
  }

  lemma RegionBeforeBody(config: RequestConfig, text: bytes, head: bytes, body: bytes, between: bytes)
    requires |text| >= BodyStart(config) + config.contentLength && |body| == config.contentLength
    requires text == head + body && between == text[BodyStart(config)..|text| - config.contentLength]
    ensures PromptOf(config, text) == (between + body)[..|body|]
  {
    var start := BodyStart(config);
    assert text[start..] == between + body;
    assert text[start..start + |body|] == text[start..][..|body|];
  }

  /** Bytes after the region are accepted, and belong to the HTTP body without being committed to. */
  lemma TrailingBytesAreNotCommitted(p: MimcSpec.Params, config: RequestConfig, body: bytes, extra: bytes, cipherTexts: bytes)
    requires PlainConfig(config) && |body| == config.contentLength && extra != []
    ensures var text := Template(config) + CRLF + body + extra;
            |text| >= BodyStart(config) + config.contentLength
            && AcceptsText(p, config, text, cipherTexts, CommitmentSpec.MimcCommit(p, body),
                           CommitmentSpec.MimcCommit(p, cipherTexts))
            && BodyRegionFromWire(text, config) == Success(body)
            && SplitHttp(text) == Success((JoinLines(TemplateLines(config)), body + extra))
            && body + extra != body
  {
    var text := Template(config) + CRLF + body + extra;
    assert text[..|Template(config)|] == Template(config);
    assert text[|Template(config)|..BodyStart(config)] == CRLF;
    assert text[BodyStart(config)..BodyStart(config) + config.contentLength] == body;
    assert text[BodyStart(config)..] == body + extra;
    BodyFollowsSeparatorExactly(config, text);
  }

  // The whole way, for all data.

  /** The text is long enough for the circuit, and its encryption has these public inputs. */
  ghost predicate Provable(p: MimcSpec.Params, config: RequestConfig, key: KeyBytes, nonce: NonceBytes, count: bv32,
                           cipherTexts: bytes, x: Fr, y: Fr)
  {
    |cipherTexts| >= BodyStart(config) + config.contentLength
    && Accepts(p, config, key, nonce, count, cipherTexts, x, y)
  }

  lemma LinesAreLongEnough(config: RequestConfig, lines: seq<bytes>)
    requires TemplateLines(config) <= lines
    ensures |JoinLines(lines)| >= |JoinLines(TemplateLines(config))|
  {
    assert lines == TemplateLines(config) + lines[6..];
    if lines[6..] != [] {
      JoinConcat(TemplateLines(config), lines[6..]);
    } else {
      assert lines == TemplateLines(config);
    }
  }

  lemma EncryptedText(p: MimcSpec.Params, config: RequestConfig, key: KeyBytes, nonce: NonceBytes, count: bv32, text: bytes,
                      cipherTexts: bytes, x: Fr, y: Fr)
    requires cipherTexts == ChaCha(key, nonce, count, text)
    ensures Provable(p, config, key, nonce, count, cipherTexts, x, y)
       <==> (Template(config) <= text && BodyRegionFromWire(text, config).Success?
             && x == CommitmentSpec.MimcCommit(p, BodyRegionFromWire(text, config).value)
             && y == CommitmentSpec.MimcCommit(p, cipherTexts))
  {
    ChaChaInverts(key, nonce, count, text);
  }

  /** For all data that passes `check_and_pad`, encrypted under any key, nonce and count: there are public
      inputs exactly when the caller's header lines, with the content length rewritten if the body is
      padded, start with the template's; and they are the commitments to the circuit's body region and to
      the ciphertext. */
  lemma CheckedMeetsCircuit(p: MimcSpec.Params, accepted: iset<bytes>, config: RequestConfig, data: bytes,
                            key: KeyBytes, nonce: NonceBytes, count: bv32, x: Fr, y: Fr)
    requires CheckAndPad(accepted, config, data).Success?
    ensures SplitHttp(data).Success?
    ensures var r, lines := CheckAndPad(accepted, config, data).value, CheckedLines(data, config.contentLength);
            var cipherTexts := ChaCha(key, nonce, count, r.request);
            (Provable(p, config, key, nonce, count, cipherTexts, x, y)
             <==> (TemplateLines(config) <= lines
                   && BodyRegionFromWire(r.request, config).Success?
                   && x == CommitmentSpec.MimcCommit(p, BodyRegionFromWire(r.request, config).value)
                   && y == CommitmentSpec.MimcCommit(p, cipherTexts)))
            && (TemplateLines(config) <= lines ==> BodyRegionFromWire(r.request, config).Success?)
  {
    var r := CheckAndPad(accepted, config, data).value;
    CheckedTemplateExactly(accepted, config, data);
    var lines := CheckedLines(data, config.contentLength);
    EncryptedText(p, config, key, nonce, count, r.request, ChaCha(key, nonce, count, r.request), x, y);
    if TemplateLines(config) <= lines {
      LinesAreLongEnough(config, lines);
    }
  }

  /** When the lines are exactly the template's, the first input is the commitment to the HTTP body. */
  lemma TemplateCommitsToBody(p: MimcSpec.Params, accepted: iset<bytes>, config: RequestConfig, data: bytes,
                              key: KeyBytes, nonce: NonceBytes, count: bv32, x: Fr, y: Fr)
    requires CheckAndPad(accepted, config, data).Success?
    requires var r := CheckAndPad(accepted, config, data).value;
             r.request == Template(config) + CRLF + r.body
    ensures var r := CheckAndPad(accepted, config, data).value;
            var cipherTexts := ChaCha(key, nonce, count, r.request);
            BodyRegionFromWire(r.request, config) == Success(r.body)
            && (Provable(p, config, key, nonce, count, cipherTexts, x, y)
                <==> x == CommitmentSpec.MimcCommit(p, r.body) && y == CommitmentSpec.MimcCommit(p, cipherTexts))
  {
    var r := CheckAndPad(accepted, config, data).value;
    CheckedShape(accepted, config, data);
    TemplateBodyRegion(config, r.body);
    assert Template(config) <= r.request;
    EncryptedText(p, config, key, nonce, count, r.request, ChaCha(key, nonce, count, r.request), x, y);
  }

  /** If only JSON texts are accepted, that body is a JSON text that means what the caller's body means:
      it is the caller's text, or that text with trailing spaces in the user content. */
  lemma CircuitCommitsToCallersJson(p: MimcSpec.Params, accepted: iset<bytes>, config: RequestConfig, data: bytes,
                                    key: KeyBytes, nonce: NonceBytes, count: bv32, x: Fr, y: Fr) returns (body: bytes)
    requires JsonPadding.AcceptsJson(accepted) && CheckAndPad(accepted, config, data).Success?
    requires var r := CheckAndPad(accepted, config, data).value;
             r.request == Template(config) + CRLF + r.body
             && Provable(p, config, key, nonce, count, ChaCha(key, nonce, count, r.request), x, y)
    ensures SplitHttp(data).Success? && Padding.SameMeaning(SplitHttp(data).value.1, body) && JsonGrammar.IsJson(body)
    ensures x == CommitmentSpec.MimcCommit(p, body)
  {
    body := CheckAndPad(accepted, config, data).value.body;
    JsonPadding.CheckedBodyIsJson(accepted, config, data);
    TemplateCommitsToBody(p, accepted, config, data, key, nonce, count, x, y);
  }

  // Printed requests.

  /** For any printed request that leaves length and connection to the printer: there are public inputs
      exactly when its URI names the host literally and its other headers are literally authorization
      and content-type; and they are the commitments to the padded body and to the ciphertext. */
  lemma PrintedMeetsCircuit(p: MimcSpec.Params, accepted: iset<bytes>, config: RequestConfig, req: Request,
                            key: KeyBytes, nonce: NonceBytes, count: bv32, x: Fr, y: Fr)
    requires req.Valid() && LeavesToPrinter(req)
    requires CheckAndPad(accepted, config, EncodeRequest(req)).Success?
    ensures var r := CheckAndPad(accepted, config, EncodeRequest(req)).value;
            var cipherTexts := ChaCha(key, nonce, count, r.request);
            Provable(p, config, key, nonce, count, cipherTexts, x, y)
            <==> (req.authority == Some(config.host) && Kept(req.headers) == [BearerHeader(config), JSON_HEADER]
                  && x == CommitmentSpec.MimcCommit(p, r.body) && y == CommitmentSpec.MimcCommit(p, cipherTexts))
  {
    var r := CheckAndPad(accepted, config, EncodeRequest(req)).value;
    UsualIsTemplateExactly(accepted, config, req);
    if Template(config) <= r.request {
      TemplateCommitsToBody(p, accepted, config, EncodeRequest(req), key, nonce, count, x, y);
    } else {
      EncryptedText(p, config, key, nonce, count, r.request, ChaCha(key, nonce, count, r.request), x, y);
    }
  }

  /** The same for a chat request: exactly when its two header values are literally the template's. */
  lemma ClientMeetsCircuit(p: MimcSpec.Params, accepted: iset<bytes>, config: RequestConfig, req: ChatRequest,
                           key: KeyBytes, nonce: NonceBytes, count: bv32, x: Fr, y: Fr)
    requires req.Valid()
    requires CheckAndPad(accepted, config, EncodeRequest(req.AsRequest())).Success?
    ensures var r := CheckAndPad(accepted, config, EncodeRequest(req.AsRequest())).value;
            var cipherTexts := ChaCha(key, nonce, count, r.request);
            |cipherTexts| >= BodyStart(config) + config.contentLength
            && (Accepts(p, config, key, nonce, count, cipherTexts, x, y)
                <==> (MeetsTemplate(config, req)
                      && x == CommitmentSpec.MimcCommit(p, r.body) && y == CommitmentSpec.MimcCommit(p, cipherTexts)))
  {
    ChatIsValid(req);
    ChatHeaders(req);
    ChatIsLongEnough(accepted, config, req);
    ChatPassesExactly(accepted, config, req);
    assert req.AsRequest().headers == [BearerHeader(config), JSON_HEADER] <==> MeetsTemplate(config, req);
    PrintedMeetsCircuit(p, accepted, config, req.AsRequest(), key, nonce, count, x, y);
  }

  lemma {:induction false} LongerLines(a: seq<bytes>, b: seq<bytes>)
    requires |a| == |b| > 0 && forall i | 0 <= i < |a| :: |a[i]| <= |b[i]|
    ensures |JoinLines(a)| <= |JoinLines(b)|
    decreases |a|
  {
    if |a| > 1 {
      LongerLines(a[1..], b[1..]);
    }
  }

  lemma TrimShortens(s: bytes)
    ensures |Trim(s)| <= |s|
  {
    TrimIsSlice(s);
  }

  /** The headers of a checked chat request. */
  function ChatList(req: ChatRequest, n: nat): seq<Header> {
    [Header(HOST, req.authority), Header(AUTHORIZATION, req.authorization), Header(CONTENT_TYPE, req.contentType)]
    + LastHeaders(n)
  }

  lemma ChatCheckedHeaders(req: ChatRequest, n: nat)
    ensures CheckedHeaders(AsMessage(req.AsRequest()), n) == ChatList(req, n)
  {
    ChatHeaders(req);
    CheckedPrinted(req.AsRequest(), n);
    assert HostHeaders(req.AsRequest()) + Kept(req.AsRequest().headers)
        == [Header(HOST, req.authority), Header(AUTHORIZATION, req.authorization), Header(CONTENT_TYPE, req.contentType)];
  }

  lemma ChatLines(accepted: iset<bytes>, config: RequestConfig, req: ChatRequest)
    requires req.Valid()
    requires CheckAndPad(accepted, config, EncodeRequest(req.AsRequest())).Success?
    ensures var data := EncodeRequest(req.AsRequest());
            SplitHttp(data).Success?
            && CheckedLines(data, config.contentLength)
               == [RequestLine(POST, config.basepath)] + HeaderLines(ChatList(req, config.contentLength))
  {
    ChatIsValid(req);
    PrintedAreValid(req.AsRequest());
    CheckedMessage(accepted, config, AsMessage(req.AsRequest()));
    ChatCheckedHeaders(req, config.contentLength);
  }

  lemma ChatHeadIsLonger(config: RequestConfig, req: ChatRequest)
    requires req.authority == config.host && Trim(req.contentType) == APPLICATION_JSON
    requires Bearer(Trim(req.authorization)) == Some(config.apiKey)
    ensures |JoinLines(TemplateLines(config))|
         <= |JoinLines([RequestLine(POST, config.basepath)] + HeaderLines(ChatList(req, config.contentLength)))|
  {
    TrimShortens(req.authorization);
    TrimShortens(req.contentType);
    TemplateIsMessage(config);
    LongerHeaders(TemplateHeaders(config), ChatList(req, config.contentLength), RequestLine(POST, config.basepath));
  }

  lemma LongerHeaders(a: seq<Header>, b: seq<Header>, line: bytes)
    requires |a| == |b| && forall i | 0 <= i < |a| :: a[i].name == b[i].name && |a[i].value| <= |b[i].value|
    ensures |JoinLines([line] + HeaderLines(a))| <= |JoinLines([line] + HeaderLines(b))|
  {
    LongerLines([line] + HeaderLines(a), [line] + HeaderLines(b));
  }

  /** A checked chat request is always long enough for the circuit's body region. */
  lemma ChatIsLongEnough(accepted: iset<bytes>, config: RequestConfig, req: ChatRequest)
    requires req.Valid()
    requires CheckAndPad(accepted, config, EncodeRequest(req.AsRequest())).Success?
    ensures |CheckAndPad(accepted, config, EncodeRequest(req.AsRequest())).value.request|
         >= BodyStart(config) + config.contentLength
  {
    ChatPassesExactly(accepted, config, req);
    ChatLines(accepted, config, req);
    CheckedTemplateExactly(accepted, config, EncodeRequest(req.AsRequest()));
    ChatHeadIsLonger(config, req);
  }
}
