/** When a checked request is the circuit's template: for all bytes that `check_and_pad` takes. */
module Templates {
  import opened Sequences
  import opened Bytes
  import opened Text
  import opened WireSpec
  import opened Lines
  import opened WireTheorems

  // The template as lines.

  function Ended(lines: seq<bytes>): (ended: seq<bytes>)
    ensures |ended| == |lines|
  {
    seq(|lines|, i requires 0 <= i < |lines| => lines[i] + CRLF)
  }

  lemma {:induction false} EndedLines(lines: seq<bytes>)
    requires |lines| > 0
    ensures Flatten(Ended(lines)) == JoinLines(lines) + CRLF
    decreases |lines|
  {
    assert Ended(lines)[1..] == Ended(lines[1..]);
    if |lines| == 1 {
      assert Flatten(Ended(lines)[1..]) == [];
    } else {
      EndedLines(lines[1..]);
      Associates(lines[0] + CRLF, JoinLines(lines[1..]), CRLF);
    }
  }

  lemma TemplateAsLines(config: RequestConfig)
    ensures Template(config) == JoinLines(TemplateLines(config)) + CRLF
    ensures Template(config) + CRLF == JoinLines(TemplateLines(config)) + BLANK_LINE
  {
    assert HeaderSections(config) == Ended(TemplateLines(config));
    EndedLines(TemplateLines(config));
    assert CRLF + CRLF == BLANK_LINE;
    Associates(JoinLines(TemplateLines(config)), CRLF, CRLF);
  }

  // Values that keep the template's lines apart.

  ghost predicate PlainConfig(config: RequestConfig) {
    OneLine(config.host) && OneLine(config.basepath) && OneLine(config.apiKey)
  }

  lemma OneLineBetween(a: bytes, v: bytes, b: bytes)
    requires NoLineEnd(a) && OneLine(v) && LF !in b
    ensures OneLine(a + v + b)
  {
    var s := a + v + b;
    forall j
      ensures !OccursAt(s, CRLF, j)
    {
      CrlfAt(s, j);
      CrlfAt(v, j - |a|);
    }
  }

  lemma OneLineSlice(v: bytes, s: bytes)
    requires OneLine(s) && SliceOf(v, s)
    ensures OneLine(v)
  {
    var from, to :| 0 <= from <= to <= |s| && v == s[from..to];
    forall j
      ensures !OccursAt(v, CRLF, j)
    {
      CrlfAt(v, j);
      CrlfAt(s, from + j);
    }
  }

  predicate NoLineEnd(s: bytes) {
    CR !in s && LF !in s
  }

  lemma PlainHeaderLine(name: bytes, v: bytes)
    requires NoLineEnd(name) && OneLine(v)
    ensures OneLine(HeaderLine(name, v))
  {
    OneLineBetween(name + [COLON, SPACE], v, []);
    assert name + [COLON, SPACE] + v + [] == HeaderLine(name, v);
  }

  lemma PlainRequestLine(path: bytes)
    requires OneLine(path)
    ensures OneLine(RequestLine(POST, path))
  {
    assert LF !in HTTP_1_1 && CR !in POST && LF !in POST;
    OneLineBetween(POST + [SPACE], path, [SPACE] + HTTP_1_1);
    assert POST + [SPACE] + path + ([SPACE] + HTTP_1_1) == RequestLine(POST, path);
  }

  lemma TemplateNames()
    ensures NoLineEnd(HOST) && NoLineEnd(AUTHORIZATION) && NoLineEnd(CONTENT_TYPE) && NoLineEnd(CONNECTION)
    ensures NoLineEnd(BEARER) && NoLineEnd(APPLICATION_JSON) && NoLineEnd(CLOSE)
  {
  }

  lemma TemplateLinesAreLines(config: RequestConfig)
    requires PlainConfig(config)
    ensures forall i | 0 <= i < 6 :: OneLine(TemplateLines(config)[i])
  {
    TemplateNames();
    PlainRequestLine(config.basepath);
    PlainHeaderLine(HOST, config.host);
    OneLineBetween(BEARER, config.apiKey, []);
    assert BEARER + config.apiKey + [] == BEARER + config.apiKey;
    PlainHeaderLine(AUTHORIZATION, BEARER + config.apiKey);
    NoLineFeedIsOneLine(APPLICATION_JSON);
    PlainHeaderLine(CONTENT_TYPE, APPLICATION_JSON);
    ContentLengthLine(config.contentLength);
    NoLineFeedIsOneLine(CLOSE);
    PlainHeaderLine(CONNECTION, CLOSE);
  }

  // The values that a check compares are such.

  lemma {:induction false} LastValueSource(lines: seq<bytes>, name: bytes) returns (i: nat)
    requires LastValue(lines, name).Some?
    ensures i < |lines| && FieldOf(lines[i]).Some? && FieldOf(lines[i]).value.value == LastValue(lines, name).value
    decreases |lines|
  {
    if IsField(lines[|lines| - 1], name) {
      i := |lines| - 1;
    } else {
      i := LastValueSource(lines[..|lines| - 1], name);
    }
  }

  lemma FieldIsOneLine(line: bytes)
    requires OneLine(line) && FieldOf(line).Some?
    ensures OneLine(FieldOf(line).value.value)
  {
    var i := Find(line, [COLON]).value;
    TrimIsSlice(line[i + 1..]);
    SliceIs(line, i + 1, |line|);
    assert line[i + 1..] == line[i + 1..|line|];
    SliceOfSlice(Trim(line[i + 1..]), line[i + 1..], line);
    OneLineSlice(Trim(line[i + 1..]), line);
  }

  lemma LastValueIsOneLine(lines: seq<bytes>, name: bytes)
    requires LastValue(lines, name).Some? && forall i | 0 <= i < |lines| :: OneLine(lines[i])
    ensures OneLine(LastValue(lines, name).value)
  {
    var i := LastValueSource(lines, name);
    FieldIsOneLine(lines[i]);
  }

  lemma BearerIsOneLine(value: bytes)
    requires OneLine(value) && Bearer(value).Some?
    ensures OneLine(Bearer(value).value)
  {
    SliceIs(value, |BEARER|, |value|);
    assert value[|BEARER|..] == value[|BEARER|..|value|];
    OneLineSlice(value[|BEARER|..], value);
  }

  lemma ConfigIsPlain(config: RequestConfig, lines: seq<bytes>)
    requires |lines| > 0 && forall i | 0 <= i < |lines| :: OneLine(lines[i])
    requires ParseLines(lines).Success? && ValidateHeaders(ParseLines(lines).value, config).None?
    ensures PlainConfig(config)
  {
    LastValueIsOneLine(lines[1..], HOST);
    LastValueIsOneLine(lines[1..], AUTHORIZATION);
    BearerIsOneLine(LastValue(lines[1..], AUTHORIZATION).value);
    TokensHaveNoSpace(lines[0]);
    NoSpaceByte(config.basepath, LF);
    NoLineFeedIsOneLine(config.basepath);
  }

  // Leading lines of a text.

  lemma LeadingLine(line: bytes, more: bytes)
    requires OneLine(line)
    ensures SplitLines(line + CRLF + more) == [line] + SplitLines(more)
  {
    var s := line + CRLF + more;
    FirstCrlf(line, more);
    FindUnique(s, CRLF, |line|);
    assert s[..|line|] == line && s[|line| + 2..] == more;
  }

  lemma JoinMore(lines: seq<bytes>, rest: bytes)
    requires |lines| > 1
    ensures JoinLines(lines) + CRLF + rest == lines[0] + CRLF + (JoinLines(lines[1..]) + CRLF + rest)
  {
  }

  lemma {:induction false} LeadingLines(lines: seq<bytes>, rest: bytes)
    requires |lines| > 0 && forall i | 0 <= i < |lines| :: OneLine(lines[i])
    ensures SplitLines(JoinLines(lines) + CRLF + rest) == lines + SplitLines(rest)
    decreases |lines|
  {
    if |lines| == 1 {
      LeadingLine(lines[0], rest);
      assert lines == [lines[0]];
    } else {
      LeadingLines(lines[1..], rest);
      LeadingLine(lines[0], JoinLines(lines[1..]) + CRLF + rest);
      JoinMore(lines, rest);
      ConsAssociates(lines, SplitLines(rest));
    }
  }

  lemma TwoLineEnds(s: bytes, body: bytes)
    ensures s + BLANK_LINE + body == s + CRLF + ([] + CRLF + body)
  {
    assert BLANK_LINE == CRLF + CRLF;
  }

  /** The lines of a message: those of its headers, an empty one, and those of its body. */
  lemma MessageLines(lines: seq<bytes>, body: bytes)
    requires HeaderBlock(lines)
    ensures SplitLines(JoinLines(lines) + BLANK_LINE + body) == lines + ([[]] + SplitLines(body))
  {
    TwoLineEnds(JoinLines(lines), body);
    NoLineFeedIsOneLine([]);
    LeadingLine([], body);
    LeadingLines(lines, [] + CRLF + body);
  }

  lemma {:induction false} JoinConcat(a: seq<bytes>, b: seq<bytes>)
    requires |a| > 0 && |b| > 0
    ensures JoinLines(a + b) == JoinLines(a) + CRLF + JoinLines(b)
    decreases |a|
  {
    if |a| == 1 {
      assert (a + b)[1..] == b;
    } else {
      assert (a + b)[1..] == a[1..] + b;
      JoinConcat(a[1..], b);
      JoinMore(a, JoinLines(b));
    }
  }

  lemma PrefixOfLines(all: seq<bytes>, a: seq<bytes>, x: seq<bytes>, b: seq<bytes>, y: seq<bytes>)
    requires all == a + x == b + ([[]] + y)
    requires forall i | 0 <= i < |a| :: a[i] != []
    ensures |a| <= |b| && b[..|a|] == a
  {
    assert all[|b|] == [];
    assert forall i | 0 <= i < |a| :: all[i] == a[i];
    assert b[..|a|] == all[..|a|] == a;
  }

  lemma TemplateLinesNonempty(config: RequestConfig)
    ensures forall i | 0 <= i < 6 :: TemplateLines(config)[i] != []
  {
  }

  lemma StartIsLines(config: RequestConfig, lines: seq<bytes>, body: bytes)
    requires PlainConfig(config) && HeaderBlock(lines)
    requires Template(config) <= JoinLines(lines) + BLANK_LINE + body
    ensures TemplateLines(config) <= lines
  {
    var s, rest := JoinLines(lines) + BLANK_LINE + body, (JoinLines(lines) + BLANK_LINE + body)[|Template(config)|..];
    PrefixAndRest(Template(config), s);
    TemplateAsLines(config);
    TemplateLinesAreLines(config);
    LeadingLines(TemplateLines(config), rest);
    MessageLines(lines, body);
    TemplateLinesNonempty(config);
    PrefixOfLines(SplitLines(s), TemplateLines(config), SplitLines(rest), lines, SplitLines(body));
  }

  /** What follows the template in a message whose lines start with the template's. */
  function AfterTemplate(extra: seq<bytes>): bytes {
    if extra == [] then CRLF else JoinLines(extra) + BLANK_LINE
  }

  lemma LinesAreStart(config: RequestConfig, lines: seq<bytes>, body: bytes)
    requires TemplateLines(config) <= lines
    ensures JoinLines(lines) + BLANK_LINE + body == Template(config) + AfterTemplate(lines[6..]) + body
  {
    var t, extra := TemplateLines(config), lines[6..];
    TemplateAsLines(config);
    assert lines == t + extra;
    if extra == [] {
      assert lines == t;
    } else {
      JoinConcat(t, extra);
      Associates(JoinLines(t) + CRLF, JoinLines(extra), BLANK_LINE);
    }
  }

  /** A message starts with the template exactly when its first six lines are the template's. */
  lemma StartsWithTemplateExactly(config: RequestConfig, lines: seq<bytes>, body: bytes)
    requires PlainConfig(config) && HeaderBlock(lines)
    ensures Template(config) <= JoinLines(lines) + BLANK_LINE + body <==> TemplateLines(config) <= lines
  {
    if Template(config) <= JoinLines(lines) + BLANK_LINE + body {
      StartIsLines(config, lines, body);
    }
    if TemplateLines(config) <= lines {
      LinesAreStart(config, lines, body);
      Associates(Template(config), AfterTemplate(lines[6..]), body);
    }
  }

  lemma SameHead(a: bytes, b: bytes, tail: bytes)
    ensures a + tail == b + tail <==> a == b
  {
    if a + tail == b + tail {
      assert |a| == |b|;
      assert a == (a + tail)[..|a|] && b == (b + tail)[..|b|];
    }
  }

  lemma SameLines(a: seq<bytes>, b: seq<bytes>)
    requires |a| > 0 && forall i | 0 <= i < |a| :: OneLine(a[i])
    requires |b| > 0 && forall i | 0 <= i < |b| :: OneLine(b[i])
    ensures JoinLines(a) == JoinLines(b) <==> a == b
  {
    SplitJoinLines(a);
    SplitJoinLines(b);
  }

  /** It is template, CR LF and body exactly when these are all its lines. */
  lemma IsTemplateExactly(config: RequestConfig, lines: seq<bytes>, body: bytes)
    requires PlainConfig(config) && HeaderBlock(lines)
    ensures JoinLines(lines) + BLANK_LINE + body == Template(config) + CRLF + body <==> lines == TemplateLines(config)
  {
    var t := TemplateLines(config);
    TemplateAsLines(config);
    TemplateLinesAreLines(config);
    SameHead(JoinLines(lines) + BLANK_LINE, JoinLines(t) + BLANK_LINE, body);
    SameHead(JoinLines(lines), JoinLines(t), BLANK_LINE);
    SameLines(lines, t);
  }

  // The circuit's body region.

  lemma LongEnoughExactly(config: RequestConfig, lines: seq<bytes>, body: bytes)
    requires |lines| > 0 && |body| == config.contentLength
    ensures |JoinLines(lines) + BLANK_LINE + body| >= BodyStart(config) + config.contentLength
       <==> |JoinLines(lines)| >= |JoinLines(TemplateLines(config))|
  {
    TemplateAsLines(config);
  }

  /** The body is `pattern` over and over, cut to the length of the body. */
  ghost predicate Repeats(body: bytes, pattern: bytes)
    requires pattern != []
  {
    forall i | 0 <= i < |body| :: body[i] == pattern[i % |pattern|]
  }

  lemma Distributes(n: nat, p: nat, d: nat)
    ensures n * (p + d) == n * p + n * d
  {
  }

  lemma AtLeastOnce(n: nat, d: nat)
    requires d >= 1
    ensures n * d >= n
  {
  }

  lemma NextMultiple(p: nat, q: nat, n: nat)
    requires p < q
    ensures n * q >= n * p + n
  {
    Distributes(n, p, q - p);
    AtLeastOnce(n, q - p);
  }

  lemma SameQuotient(p: nat, q: nat, r: nat, s: nat, n: nat)
    requires r < n && s < n && n * p + r == n * q + s
    ensures r == s
  {
    if p < q {
      NextMultiple(p, q, n);
    } else if q < p {
      NextMultiple(q, p, n);
    }
  }

  lemma SameRemainder(i: nat, n: nat)
    requires 0 < n <= i
    ensures (i - n) % n == i % n
  {
    var q, r := (i - n) / n, (i - n) % n;
    assert n * (q + 1) == n * q + n;
    SameQuotient(q + 1, i / n, r, i % n, n);
  }

  lemma SmallRemainder(i: nat, n: nat)
    requires i < n
    ensures i % n == i
  {
  }

  /** A body that equals the front of pattern and body repeats the pattern. */
  lemma {:induction false} RepeatsFrom(body: bytes, pattern: bytes, i: nat)
    requires pattern != [] && i < |body| && body == (pattern + body)[..|body|]
    ensures body[i] == pattern[i % |pattern|]
    decreases i
  {
    assert body[i] == (pattern + body)[i];
    if i < |pattern| {
      SmallRemainder(i, |pattern|);
    } else {
      RepeatsFrom(body, pattern, i - |pattern|);
      SameRemainder(i, |pattern|);
    }
  }

  lemma RepeatsBack(body: bytes, pattern: bytes, i: nat)
    requires pattern != [] && i < |body| && Repeats(body, pattern)
    ensures body[i] == (pattern + body)[i]
  {
    if i < |pattern| {
      SmallRemainder(i, |pattern|);
    } else {
      SameRemainder(i, |pattern|);
      assert body[i - |pattern|] == pattern[(i - |pattern|) % |pattern|];
    }
  }

  lemma RepeatsExactly(body: bytes, pattern: bytes)
    requires pattern != []
    ensures body == (pattern + body)[..|body|] <==> Repeats(body, pattern)
  {
    if body == (pattern + body)[..|body|] {
      forall i | 0 <= i < |body|
        ensures body[i] == pattern[i % |pattern|]
      {
        RepeatsFrom(body, pattern, i);
      }
    }
    if Repeats(body, pattern) {
      forall i | 0 <= i < |body|
        ensures body[i] == (pattern + body)[i]
      {
        RepeatsBack(body, pattern, i);
      }
    }
  }

  /** What stands between the region's start and the body, when there are further lines. */
  function Between(extra: seq<bytes>): (between: bytes)
    requires extra != []
    ensures between != []
  {
    (JoinLines(extra) + BLANK_LINE)[2..]
  }

  lemma RegionAfterTemplate(config: RequestConfig, lines: seq<bytes>, body: bytes, wire: bytes)
    requires TemplateLines(config) <= lines && |body| == config.contentLength
    requires wire == JoinLines(lines) + BLANK_LINE + body
    ensures lines[6..] == [] ==> BodyRegionFromWire(wire, config) == Success(body)
    ensures lines[6..] != [] ==>
              BodyRegionFromWire(wire, config) == Success((Between(lines[6..]) + body)[..|body|])
  {
    LinesAreStart(config, lines, body);
    RegionAfter(config, lines[6..], body, wire);
  }

  lemma RegionAfter(config: RequestConfig, extra: seq<bytes>, body: bytes, wire: bytes)
    requires |body| == config.contentLength && wire == Template(config) + AfterTemplate(extra) + body
    ensures extra == [] ==> BodyRegionFromWire(wire, config) == Success(body)
    ensures extra != [] ==> BodyRegionFromWire(wire, config) == Success((Between(extra) + body)[..|body|])
  {
    if extra == [] {
      RegionOfParts(config, Template(config), CRLF, CRLF, [], body, wire);
      assert ([] + body)[..|body|] == body;
    } else {
      var after := AfterTemplate(extra);
      assert after == after[..2] + after[2..];
      RegionOfParts(config, Template(config), after, after[..2], after[2..], body, wire);
    }
  }

  lemma RegionOfParts(config: RequestConfig, front: bytes, after: bytes, separator: bytes, between: bytes,
                      body: bytes, wire: bytes)
    requires |front| + 2 == BodyStart(config) && |separator| == 2 && |body| == config.contentLength
    requires wire == front + after + body && after == separator + between
    ensures BodyRegionFromWire(wire, config) == Success((between + body)[..|body|])
  {
    var start := BodyStart(config);
    assert wire[start..] == between + body;
    assert wire[start..start + |body|] == wire[start..][..|body|];
  }

  /** For a message that starts with the template, the circuit's region is the body exactly when there
      is no further line, or the body happens to repeat what stands between the region's start and it. */
  lemma RegionIsBodyExactly(config: RequestConfig, lines: seq<bytes>, body: bytes, wire: bytes)
    requires TemplateLines(config) <= lines && |body| == config.contentLength
    requires wire == JoinLines(lines) + BLANK_LINE + body
    ensures BodyRegionFromWire(wire, config) == Success(body)
       <==> lines[6..] == [] || Repeats(body, Between(lines[6..]))
    ensures lines[6..] == [] <==> lines == TemplateLines(config)
  {
    RegionAfterTemplate(config, lines, body, wire);
    assert lines == TemplateLines(config) + lines[6..];
    if lines[6..] != [] {
      RepeatsExactly(body, Between(lines[6..]));
    }
  }

  // Checked requests.

  /** The header lines of a message. */
  function LinesOf(wire: bytes): seq<bytes>
    requires SplitHttp(wire).Success?
  {
    SplitLines(SplitHttp(wire).value.0)
  }

  lemma CheckedShape(accepted: iset<bytes>, config: RequestConfig, data: bytes)
    requires CheckAndPad(accepted, config, data).Success?
    ensures var r := CheckAndPad(accepted, config, data).value;
            SplitHttp(r.request).Success? && HeaderBlock(LinesOf(r.request)) && PlainConfig(config)
            && r.request == JoinLines(LinesOf(r.request)) + BLANK_LINE + r.body && |r.body| == config.contentLength
  {
    var r := CheckAndPad(accepted, config, data).value;
    CheckAndPadSplits(accepted, config, data);
    SplitHttpGivesBlock(r.request);
    JoinSplitLines(SplitHttp(r.request).value.0);
    ConfigIsPlain(config, LinesOf(r.request));
  }

  /** The header lines that `check_and_pad` returns: the caller's, with the content length rewritten if
      the body is padded. */
  function CheckedLines(data: bytes, n: nat): seq<bytes>
    requires SplitHttp(data).Success?
  {
    var (headers, body) := SplitHttp(data).value;
    if |body| == n then SplitLines(headers) else RewriteLines(SplitLines(headers), n)
  }

  lemma LinesAreChecked(accepted: iset<bytes>, config: RequestConfig, data: bytes)
    requires CheckAndPad(accepted, config, data).Success?
    ensures var r := CheckAndPad(accepted, config, data).value;
            SplitHttp(data).Success? && SplitHttp(r.request).Success?
            && LinesOf(r.request) == CheckedLines(data, config.contentLength)
            && PadBody(SplitHttp(data).value.1, config.contentLength) == Success(r.body)
  {
    CheckAndPadSplits(accepted, config, data);
    var (headers, body) := SplitHttp(data).value;
    if |body| != config.contentLength {
      RebuildRoundTrip(data, PadBody(body, config.contentLength).value, config.contentLength);
    }
  }

  /** The returned request in terms of the caller's data. */
  lemma CheckedIs(accepted: iset<bytes>, config: RequestConfig, data: bytes)
    requires CheckAndPad(accepted, config, data).Success?
    ensures SplitHttp(data).Success? && PlainConfig(config)
    ensures var r, lines := CheckAndPad(accepted, config, data).value, CheckedLines(data, config.contentLength);
            HeaderBlock(lines) && r.request == JoinLines(lines) + BLANK_LINE + r.body && |r.body| == config.contentLength
  {
    CheckedShape(accepted, config, data);
    LinesAreChecked(accepted, config, data);
  }

  /** For all data that passes `check_and_pad`: when the returned request starts with the template,
      when it is template, CR LF and body, and when it is long enough for the circuit; each in terms of
      the lines that the caller sent. */
  lemma CheckedTemplateExactly(accepted: iset<bytes>, config: RequestConfig, data: bytes)
    requires CheckAndPad(accepted, config, data).Success?
    ensures SplitHttp(data).Success?
    ensures var r, lines := CheckAndPad(accepted, config, data).value, CheckedLines(data, config.contentLength);
            |lines| > 0
            && (Template(config) <= r.request <==> TemplateLines(config) <= lines)
            && (r.request == Template(config) + CRLF + r.body <==> lines == TemplateLines(config))
            && (|r.request| >= BodyStart(config) + config.contentLength
                <==> |JoinLines(lines)| >= |JoinLines(TemplateLines(config))|)
  {
    var r := CheckAndPad(accepted, config, data).value;
    CheckedIs(accepted, config, data);
    var lines := CheckedLines(data, config.contentLength);
    StartsWithTemplateExactly(config, lines, r.body);
    IsTemplateExactly(config, lines, r.body);
    LongEnoughExactly(config, lines, r.body);
  }

  /** When the lines start with the template's: when the circuit's body region is the padded body. */
  lemma CheckedRegionExactly(accepted: iset<bytes>, config: RequestConfig, data: bytes)
    requires CheckAndPad(accepted, config, data).Success?
    ensures SplitHttp(data).Success? && PadBody(SplitHttp(data).value.1, config.contentLength).Success?
    ensures var r, lines := CheckAndPad(accepted, config, data).value, CheckedLines(data, config.contentLength);
            var body := PadBody(SplitHttp(data).value.1, config.contentLength).value;
            r.body == body
            && (TemplateLines(config) <= lines ==>
                  (BodyRegionFromWire(r.request, config) == Success(body)
                   <==> lines[6..] == [] || Repeats(body, Between(lines[6..]))))
  {
    var r := CheckAndPad(accepted, config, data).value;
    CheckedIs(accepted, config, data);
    LinesAreChecked(accepted, config, data);
    var lines := CheckedLines(data, config.contentLength);
    if TemplateLines(config) <= lines {
      RegionIsBodyExactly(config, lines, r.body, r.request);
    }
  }
}
