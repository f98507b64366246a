/** A lexer for JSON text that keeps string literals whole, and the decoding of their escapes
    (sections 2 and 7 of RFC 8259). */
module Json {
  import opened Sequences
  import opened Bytes

  datatype LexState = Outside | InString | Escaped

  function Next(state: LexState, b: byte): LexState {
    match state
    case Outside => if b == QUOTE then InString else Outside
    case InString => if b == BACKSLASH then Escaped else if b == QUOTE then Outside else InString
    case Escaped => InString
  }

  function StateAfter(state: LexState, s: bytes): LexState
    decreases |s|
  {
    if s == [] then state else StateAfter(Next(state, s[0]), s[1..])
  }

  /** A string literal with its raw content, or one byte between literals. */
  datatype Token = Str(raw: bytes) | Other(b: byte)

  /** The number of bytes before the quotation mark that ends the literal. */
  function LiteralLength(state: LexState, s: bytes): (r: Option<nat>)
    ensures r.Some? ==> r.value < |s|
    decreases |s|
  {
    if s == [] then None
    else if state == InString && s[0] == QUOTE then Some(0)
    else
      match LiteralLength(Next(state, s[0]), s[1..])
      case None => None
      case Some(n) => Some(n + 1)
  }

  function Append(front: seq<Token>, rest: Option<seq<Token>>): Option<seq<Token>> {
    match rest
    case None => None
    case Some(tokens) => Some(front + tokens)
  }

  /** The tokens of a text, unless its last literal is not closed. */
  function Lex(s: bytes): Option<seq<Token>>
    decreases |s|
  {
    if s == [] then Some([])
    else if s[0] != QUOTE then Append([Other(s[0])], Lex(s[1..]))
    else
      match LiteralLength(InString, s[1..])
      case None => None
      case Some(n) => Append([Str(s[1..n + 1])], Lex(s[n + 2..]))
  }

  lemma {:induction false} StateAfterConcat(state: LexState, a: bytes, b: bytes)
    ensures StateAfter(state, a + b) == StateAfter(StateAfter(state, a), b)
    decreases |a|
  {
    if a == [] {
      assert a + b == b;
    } else {
      assert (a + b)[1..] == a[1..] + b;
      StateAfterConcat(Next(state, a[0]), a[1..], b);
    }
  }

  lemma {:induction false} LiteralInside(state: LexState, a: bytes, b: bytes, n: nat)
    requires state != Outside && LiteralLength(state, a) == Some(n)
    ensures n < |a| && LiteralLength(state, a + b) == Some(n)
    ensures StateAfter(state, a) == StateAfter(Outside, a[n + 1..])
    decreases |a|
  {
    TailConcat(a, b);
    if state != InString || a[0] != QUOTE {
      LiteralInside(Next(state, a[0]), a[1..], b, n - 1);
      DropTwice(a, 1, n);
    }
  }

  lemma {:induction false} ClosedSomewhere(state: LexState, a: bytes)
    requires state != Outside && StateAfter(state, a) == Outside
    ensures LiteralLength(state, a).Some?
    decreases |a|
  {
    if state != InString || a[0] != QUOTE {
      ClosedSomewhere(Next(state, a[0]), a[1..]);
    }
  }

  /** A literal that is closed within `a` has the same length whatever follows `a`. */
  lemma LiteralClosed(state: LexState, a: bytes, b: bytes)
    requires state != Outside && StateAfter(state, a) == Outside
    ensures var n := LiteralLength(state, a);
            n.Some? && LiteralLength(state, a + b) == n && StateAfter(Outside, a[n.value + 1..]) == Outside
  {
    ClosedSomewhere(state, a);
    LiteralInside(state, a, b, LiteralLength(state, a).value);
  }

  lemma AppendAssociates(a: seq<Token>, b: seq<Token>, rest: Option<seq<Token>>)
    ensures Append(a, Append(b, rest)) == Append(a + b, rest)
  {
    if rest.Some? {
      Associates(a, b, rest.value);
    }
  }

  lemma LiteralParted(a: bytes, b: bytes, n: nat)
    requires n + 2 <= |a|
    ensures (a + b)[n + 2..] == a[n + 2..] + b && (a + b)[1..n + 1] == a[1..n + 1]
  {
  }

  /** A text that ends outside literals can be lexed by itself. */
  lemma {:induction false} LexConcat(a: bytes, b: bytes)
    requires StateAfter(Outside, a) == Outside
    ensures Lex(a).Some? && Lex(a + b) == Append(Lex(a).value, Lex(b))
    decreases |a|
  {
    if a == [] {
      assert a + b == b;
      assert Lex(b).Some? ==> [] + Lex(b).value == Lex(b).value;
    } else if a[0] != QUOTE {
      TailConcat(a, b);
      LexConcat(a[1..], b);
      AppendAssociates([Other(a[0])], Lex(a[1..]).value, Lex(b));
    } else {
      LiteralClosed(InString, a[1..], b);
      var n := LiteralLength(InString, a[1..]).value;
      TailConcat(a, b);
      DropTwice(a, 1, n + 1);
      LiteralParted(a, b, n);
      LexConcat(a[n + 2..], b);
      AppendAssociates([Str(a[1..n + 1])], Lex(a[n + 2..]).value, Lex(b));
    }
  }

  // The text of tokens.

  function TokenText(t: Token): bytes {
    match t
    case Str(raw) => [QUOTE] + raw + [QUOTE]
    case Other(b) => [b]
  }

  function Unlex(tokens: seq<Token>): bytes {
    if tokens == [] then [] else TokenText(tokens[0]) + Unlex(tokens[1..])
  }

  lemma {:induction false} UnlexConcat(a: seq<Token>, b: seq<Token>)
    ensures Unlex(a + b) == Unlex(a) + Unlex(b)
  {
    if a == [] {
      assert a + b == b;
    } else {
      TailConcat(a, b);
      UnlexConcat(a[1..], b);
      Associates(TokenText(a[0]), Unlex(a[1..]), Unlex(b));
    }
  }

  lemma UnlexOne(t: Token)
    ensures Unlex([t]) == TokenText(t)
  {
    assert [t][1..] == [];
    assert TokenText(t) + [] == TokenText(t);
  }

  lemma UnlexCons(t: Token, rest: seq<Token>)
    ensures Unlex([t] + rest) == TokenText(t) + Unlex(rest)
  {
    assert ([t] + rest)[1..] == rest;
  }

  lemma LiteralText(s: bytes, n: nat)
    requires n + 1 < |s| && s[0] == QUOTE && s[n + 1] == QUOTE
    ensures TokenText(Str(s[1..n + 1])) + s[n + 2..] == s
  {
  }

  lemma {:induction false} LiteralEndsAtQuote(state: LexState, s: bytes)
    requires LiteralLength(state, s).Some?
    ensures s[LiteralLength(state, s).value] == QUOTE
    decreases |s|
  {
    if state != InString || s[0] != QUOTE {
      LiteralEndsAtQuote(Next(state, s[0]), s[1..]);
    }
  }

  /** Lexing loses nothing. */
  lemma {:induction false} LexUnlex(s: bytes)
    requires Lex(s).Some?
    ensures Unlex(Lex(s).value) == s
    decreases |s|
  {
    if s == [] {
    } else if s[0] != QUOTE {
      LexUnlex(s[1..]);
      UnlexCons(Other(s[0]), Lex(s[1..]).value);
      assert [s[0]] + s[1..] == s;
    } else {
      var n := LiteralLength(InString, s[1..]).value;
      LiteralEndsAtQuote(InString, s[1..]);
      LexUnlex(s[n + 2..]);
      UnlexCons(Str(s[1..n + 1]), Lex(s[n + 2..]).value);
      LiteralText(s, n);
    }
  }

  /** Only a backslash leaves the lexer in the middle of an escape. */
  lemma {:induction false} EscapedAfterBackslash(state: LexState, s: bytes)
    requires s != [] && StateAfter(state, s) == Escaped
    ensures s[|s| - 1] == BACKSLASH
    decreases |s|
  {
    if |s| > 1 {
      EscapedAfterBackslash(Next(state, s[0]), s[1..]);
    } else {
      assert StateAfter(Next(state, s[0]), s[1..]) == Next(state, s[0]);
    }
  }

  // What may follow a string.

  const COMMA: byte := 0x2C

  /** White space, comma, colon, closing bracket and closing brace: all that the grammar of section 2
      of RFC 8259 lets stand after a string. */
  predicate MayFollow(b: byte) {
    || b == 0x20 || b == 0x09 || b == 0x0A || b == 0x0D
    || b == COMMA || b == COLON || b == 0x5D || b == 0x7D
  }

  predicate StringsSeparated(tokens: seq<Token>) {
    forall i | 0 <= i < |tokens| - 1 && tokens[i].Str? :: tokens[i + 1].Other? && MayFollow(tokens[i + 1].b)
  }

  /** What every JSON text satisfies: its literals are closed, and none is followed by anything but
      what the grammar lets follow a string. */
  predicate JsonLike(s: bytes) {
    Lex(s).Some? && StringsSeparated(Lex(s).value)
  }

  lemma {:induction false} LiteralStillOpen(state: LexState, a: bytes)
    requires state != Outside && LiteralLength(state, a).None? && StateAfter(state, a) == InString
    ensures LiteralLength(state, a + [QUOTE]) == Some(|a|)
    decreases |a|
  {
    if a != [] {
      assert (a + [QUOTE])[1..] == a[1..] + [QUOTE];
      LiteralStillOpen(Next(state, a[0]), a[1..]);
    }
  }

  lemma LastOfAppend(front: seq<Token>, rest: Option<seq<Token>>)
    requires rest.Some? && rest.value != []
    ensures Append(front, rest).Some? && Append(front, rest).value != []
    ensures Last(Append(front, rest).value) == Last(rest.value)
  {
  }

  function Last(tokens: seq<Token>): Token
    requires tokens != []
  {
    tokens[|tokens| - 1]
  }

  /** In the middle of a string, a quotation mark ends a literal. */
  lemma {:induction false} QuoteEndsLiteral(a: bytes)
    requires StateAfter(Outside, a) == InString
    ensures Lex(a + [QUOTE]).Some? && Lex(a + [QUOTE]).value != [] && Last(Lex(a + [QUOTE]).value).Str?
    decreases |a|
  {
    var s := a + [QUOTE];
    assert s[1..] == a[1..] + [QUOTE];
    if a[0] != QUOTE {
      QuoteEndsLiteral(a[1..]);
      LastOfAppend([Other(a[0])], Lex(s[1..]));
    } else if LiteralLength(InString, a[1..]).Some? {
      var n := LiteralLength(InString, a[1..]).value;
      LiteralInside(InString, a[1..], [QUOTE], n);
      assert a[1..][n + 1..] == a[n + 2..] && s[n + 2..] == a[n + 2..] + [QUOTE];
      QuoteEndsLiteral(a[n + 2..]);
      LastOfAppend([Str(s[1..n + 1])], Lex(s[n + 2..]));
    } else {
      LiteralStillOpen(InString, a[1..]);
      assert s[|a| + 1..] == [];
      assert Lex(s) == Append([Str(s[1..|a|])], Some([]));
    }
  }

  lemma FirstOther(s: bytes)
    requires s != [] && s[0] != QUOTE && Lex(s).Some?
    ensures Lex(s).value != [] && Lex(s).value[0] == Other(s[0])
  {
  }

  /** In such a text, a quotation mark in the middle of a string is followed by what may follow. */
  lemma QuoteIsFollowed(s: bytes, i: nat)
    requires JsonLike(s) && i + 1 < |s| && s[i] == QUOTE && StateAfter(Outside, s[..i]) == InString
    ensures MayFollow(s[i + 1])
  {
    var a, rest := s[..i] + [QUOTE], s[i + 1..];
    assert s == a + rest;
    QuoteEndsLiteral(s[..i]);
    StateAfterConcat(Outside, s[..i], [QUOTE]);
    assert [QUOTE][1..] == [];
    assert StateAfter(InString, [QUOTE]) == Outside;
    LexConcat(a, rest);
    if rest[0] != QUOTE {
      FirstOther(rest);
    } else {
      FirstString(rest);
    }
    FollowsLast(Lex(a).value, Lex(rest).value, Lex(s).value);
  }

  lemma FirstString(s: bytes)
    requires s != [] && s[0] == QUOTE && Lex(s).Some?
    ensures Lex(s).value != [] && Lex(s).value[0].Str?
  {
  }

  lemma FollowsLast(front: seq<Token>, rest: seq<Token>, all: seq<Token>)
    requires all == front + rest && StringsSeparated(all)
    requires front != [] && Last(front).Str? && rest != []
    ensures rest[0].Other? && MayFollow(rest[0].b)
  {
    assert all[|front| - 1] == Last(front) && all[|front|] == rest[0];
  }

  lemma LexLiteral(raw: bytes, rest: bytes)
    requires LiteralLength(InString, raw + [QUOTE] + rest) == Some(|raw|)
    ensures Lex([QUOTE] + raw + [QUOTE] + rest) == Append([Str(raw)], Lex(rest))
  {
    var s := [QUOTE] + raw + [QUOTE] + rest;
    assert s[1..] == raw + [QUOTE] + rest;
    assert s[1..|raw| + 1] == raw && s[|raw| + 2..] == rest;
  }

  lemma {:induction false} PlainLiteral(raw: bytes, rest: bytes)
    requires QUOTE !in raw && BACKSLASH !in raw
    ensures LiteralLength(InString, raw + [QUOTE] + rest) == Some(|raw|)
    ensures StateAfter(InString, raw) == InString && StateAfter(Outside, raw) == Outside
    decreases |raw|
  {
    var s := raw + [QUOTE] + rest;
    if raw == [] {
      assert s[0] == QUOTE;
    } else {
      assert s[1..] == raw[1..] + [QUOTE] + rest;
      PlainLiteral(raw[1..], rest);
    }
  }

  // The value of a literal.

  /** A decoded character: an unescaped byte or simple escape, or the code unit of a \u escape. */
  datatype Unit = Char(b: byte) | CodeUnit(n: nat)

  function SimpleEscape(b: byte): Option<byte> {
    if b == QUOTE || b == BACKSLASH || b == 0x2F then Some(b)
    else if b == 0x62 then Some(0x08)
    else if b == 0x66 then Some(0x0C)
    else if b == 0x6E then Some(0x0A)
    else if b == 0x72 then Some(0x0D)
    else if b == 0x74 then Some(0x09)
    else None
  }

  function HexDigit(b: byte): Option<nat> {
    if 0x30 <= b <= 0x39 then Some((b - 0x30) as nat)
    else if 0x41 <= b <= 0x46 then Some((b - 0x37) as nat)
    else if 0x61 <= b <= 0x66 then Some((b - 0x57) as nat)
    else None
  }

  function HexQuad(s: bytes): Option<nat>
    requires |s| == 4
  {
    var a, b, c, d := HexDigit(s[0]), HexDigit(s[1]), HexDigit(s[2]), HexDigit(s[3]);
    if a.Some? && b.Some? && c.Some? && d.Some?
    then Some(a.value * 0x1000 + b.value * 0x100 + c.value * 0x10 + d.value) else None
  }

  function Prepend(u: Unit, rest: Option<seq<Unit>>): Option<seq<Unit>> {
    match rest
    case None => None
    case Some(units) => Some([u] + units)
  }

  /** The decoded value, unless an escape or a control character makes the literal invalid. */
  function Decode(raw: bytes): Option<seq<Unit>>
    decreases |raw|
  {
    if raw == [] then Some([])
    else if raw[0] != BACKSLASH then
      if raw[0] < 0x20 then None else Prepend(Char(raw[0]), Decode(raw[1..]))
    else if |raw| < 2 then None
    else if raw[1] == 0x75 then
      if |raw| < 6 || HexQuad(raw[2..6]).None? then None
      else Prepend(CodeUnit(HexQuad(raw[2..6]).value), Decode(raw[6..]))
    else if SimpleEscape(raw[1]).None? then None
    else Prepend(Char(SimpleEscape(raw[1]).value), Decode(raw[2..]))
  }

  function AppendSpaces(value: Option<seq<Unit>>, n: nat): Option<seq<Unit>> {
    match value
    case None => None
    case Some(units) => Some(units + Repeat(Char(SPACE), n))
  }

  lemma PrependSpaces(u: Unit, rest: Option<seq<Unit>>, n: nat)
    ensures Prepend(u, AppendSpaces(rest, n)) == AppendSpaces(Prepend(u, rest), n)
  {
    if rest.Some? {
      Associates([u], rest.value, Repeat(Char(SPACE), n));
    }
  }

  lemma {:induction false} DecodeOnlySpaces(n: nat)
    ensures Decode(Repeat(SPACE, n)) == Some(Repeat(Char(SPACE), n))
  {
    if n > 0 {
      DecodeOnlySpaces(n - 1);
      assert Repeat(SPACE, n)[1..] == Repeat(SPACE, n - 1);
      assert [Char(SPACE)] + Repeat(Char(SPACE), n - 1) == Repeat(Char(SPACE), n);
    }
  }

  /** Spaces never complete a \u escape that was too short. */
  lemma ShortHexStaysShort(raw: bytes, n: nat)
    requires 2 <= |raw| < 6 && raw[0] == BACKSLASH && raw[1] == 0x75
    ensures Decode(raw + Repeat(SPACE, n)) == None
  {
    var s := raw + Repeat(SPACE, n);
    if |s| >= 6 {
      assert s[2..6][|raw| - 2] == s[|raw|] == SPACE;
      assert HexDigit(SPACE).None?;
    }
  }

  /** Spaces at the end of a literal are spaces at the end of its value, and a literal that is
      invalid stays invalid. */
  lemma {:induction false} DecodeTrailingSpaces(raw: bytes, n: nat)
    ensures Decode(raw + Repeat(SPACE, n)) == AppendSpaces(Decode(raw), n)
    decreases |raw|
  {
    var s := raw + Repeat(SPACE, n);
    if raw == [] {
      assert s == Repeat(SPACE, n);
      DecodeOnlySpaces(n);
      assert [] + Repeat(Char(SPACE), n) == Repeat(Char(SPACE), n);
    } else if raw[0] != BACKSLASH {
      assert s[1..] == raw[1..] + Repeat(SPACE, n);
      DecodeTrailingSpaces(raw[1..], n);
      PrependSpaces(Char(raw[0]), Decode(raw[1..]), n);
    } else if |raw| < 2 {
      assert |s| >= 2 ==> s[1] == SPACE;
    } else if raw[1] == 0x75 {
      if |raw| < 6 {
        ShortHexStaysShort(raw, n);
      } else {
        assert s[2..6] == raw[2..6] && s[6..] == raw[6..] + Repeat(SPACE, n);
        DecodeTrailingSpaces(raw[6..], n);
        if HexQuad(raw[2..6]).Some? {
          PrependSpaces(CodeUnit(HexQuad(raw[2..6]).value), Decode(raw[6..]), n);
        }
      }
    } else {
      assert s[2..] == raw[2..] + Repeat(SPACE, n);
      DecodeTrailingSpaces(raw[2..], n);
      if SimpleEscape(raw[1]).Some? {
        PrependSpaces(Char(SimpleEscape(raw[1]).value), Decode(raw[2..]), n);
      }
    }
  }
}
