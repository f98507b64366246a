/** Padding: it composes, it can be taken back, and it changes the meaning of the JSON text only by
    trailing spaces in one string. */
module Padding {
  import opened Sequences
  import opened Bytes
  import opened WireSpec
  import opened Json

  lemma {:induction false} BackslashesLocal(s: bytes, t: bytes, from: nat, pos: nat)
    requires from <= pos <= |s| && pos <= |t| && s[..pos] == t[..pos]
    ensures Backslashes(s, from, pos) == Backslashes(t, from, pos)
    decreases pos
  {
    if pos > from {
      assert s[pos - 1] == s[..pos][pos - 1] == t[..pos][pos - 1];
      assert s[..pos - 1] == s[..pos][..pos - 1] && t[..pos - 1] == t[..pos][..pos - 1];
      BackslashesLocal(s, t, from, pos - 1);
    }
  }

  /** Inserted before the end of a literal, spaces move that end and open no other. */
  lemma InsertMovesEnd(body: bytes, from: nat, pos: nat, n: nat)
    requires from <= |body| && LiteralEnd(body, from, pos)
    ensures LiteralEnd(InsertSpaces(body, pos, n), from, pos + n)
  {
    var padded := InsertSpaces(body, pos, n);
    forall j | from <= j <= pos
      ensures Backslashes(padded, from, j) == Backslashes(body, from, j)
    {
      assert padded[..j] == body[..j];
      BackslashesLocal(padded, body, from, j);
    }
    forall j | from <= j < pos + n
      ensures !EndsLiteral(padded, from, j)
    {
      if j < pos {
        assert padded[j] == body[j];
        assert !EndsLiteral(body, from, j);
      } else {
        assert padded[j] == SPACE;
      }
    }
    assert padded[pos + n] == body[pos];
    if n > 0 {
      assert padded[pos + n - 1] == SPACE;
    }
  }

  lemma SliceOfFront(s: bytes, pos: nat, j: nat, end: nat)
    requires j <= end <= pos <= |s|
    ensures s[..pos][j..end] == s[j..end]
  {
    SliceTwice(s, 0, pos, j, end);
    assert s[0..pos] == s[..pos];
  }

  lemma SameFront(s: bytes, t: bytes, pos: nat, pattern: bytes, j: nat)
    requires pos <= |s| && pos <= |t| && s[..pos] == t[..pos] && j + |pattern| <= pos
    ensures OccursAt(s, pattern, j) == OccursAt(t, pattern, j)
  {
    SliceOfFront(s, pos, j, j + |pattern|);
    SliceOfFront(t, pos, j, j + |pattern|);
  }

  lemma InsertKeepsMarker(body: bytes, start: nat, pos: nat, n: nat)
    requires FirstAt(body, USER_CONTENT_MARKER, start)
    requires start + |USER_CONTENT_MARKER| <= pos <= |body|
    ensures FirstAt(InsertSpaces(body, pos, n), USER_CONTENT_MARKER, start)
  {
    var padded := InsertSpaces(body, pos, n);
    assert padded[..pos] == body[..pos];
    forall j | 0 <= j <= start
      ensures OccursAt(padded, USER_CONTENT_MARKER, j) == OccursAt(body, USER_CONTENT_MARKER, j)
    {
      SameFront(padded, body, pos, USER_CONTENT_MARKER, j);
    }
  }

  lemma LiteralEndUnique(s: bytes, from: nat, pos: nat)
    requires from <= |s| && LiteralEnd(s, from, pos)
    ensures FindLiteralEnd(s, from, from) == Some(pos)
  {
    LiteralEndFound(s, from, from);
    assert EndsLiteral(s, from, pos);
  }

  /** The first marker, and the end of the literal after it. */
  ghost predicate PadsAt(body: bytes, start: nat, from: nat, pos: nat) {
    && FirstAt(body, USER_CONTENT_MARKER, start) && from == start + |USER_CONTENT_MARKER| <= |body|
    && LiteralEnd(body, from, pos)
  }

  /** The place where a body is padded. */
  lemma PadPlace(body: bytes) returns (start: nat, from: nat, pos: nat)
    requires PadPosition(body).Success?
    ensures PadsAt(body, start, from, pos) && PadPosition(body) == Success(pos)
    ensures Find(body, USER_CONTENT_MARKER) == Some(start)
  {
    start := Find(body, USER_CONTENT_MARKER).value;
    from := start + |USER_CONTENT_MARKER|;
    pos := FindLiteralEnd(body, from, from).value;
    LiteralEndFound(body, from, from);
    FindFirst(body, USER_CONTENT_MARKER);
  }

  lemma PadPlaceUnique(body: bytes, start: nat, from: nat, pos: nat)
    requires PadsAt(body, start, from, pos)
    ensures PadPosition(body) == Success(pos)
  {
    FindUnique(body, USER_CONTENT_MARKER, start);
    LiteralEndUnique(body, from, pos);
  }

  lemma InsertKeepsPlace(body: bytes, start: nat, from: nat, pos: nat, n: nat)
    requires PadsAt(body, start, from, pos)
    ensures PadsAt(InsertSpaces(body, pos, n), start, from, pos + n)
  {
    InsertKeepsMarker(body, start, pos, n);
    InsertMovesEnd(body, from, pos, n);
  }

  /** The pad position moves by exactly the number of inserted spaces. */
  lemma PadPositionMoves(body: bytes, pos: nat, n: nat)
    requires PadPosition(body) == Success(pos)
    ensures pos <= |body| && PadPosition(InsertSpaces(body, pos, n)) == Success(pos + n)
  {
    var start, from, end := PadPlace(body);
    PlaceMoves(body, start, from, end, n);
  }

  lemma PlaceMoves(body: bytes, start: nat, from: nat, pos: nat, n: nat)
    requires PadsAt(body, start, from, pos)
    ensures PadPosition(InsertSpaces(body, pos, n)) == Success(pos + n)
  {
    InsertKeepsPlace(body, start, from, pos, n);
    PadPlaceUnique(InsertSpaces(body, pos, n), start, from, pos + n);
  }

  lemma InsertTwice(body: bytes, pos: nat, m: nat, n: nat, once: bytes, q: nat, total: nat)
    requires pos <= |body| && once == InsertSpaces(body, pos, m) && total == m + n && q == pos + m
    ensures q <= |once| == |body| + m
    ensures InsertSpaces(once, q, n) == InsertSpaces(body, pos, total)
  {
    assert once[..pos + m] == body[..pos] + Repeat(SPACE, m);
    assert once[pos + m..] == body[pos..];
    assert Repeat(SPACE, m) + Repeat(SPACE, n) == Repeat(SPACE, total);
  }

  lemma PadBodyAt(body: bytes, pos: nat, n: nat)
    requires |body| < n && PadPosition(body) == Success(pos)
    ensures pos <= |body| && PadBody(body, n) == Success(InsertSpaces(body, pos, n - |body|))
  {
    PadPositionInRange(body);
  }

  lemma PadBodyIs(body: bytes, pos: nat, n: nat, result: Result<bytes, Error>)
    requires |body| < n && PadPosition(body) == Success(pos) && pos <= |body|
    requires Success(InsertSpaces(body, pos, n - |body|)) == result
    ensures PadBody(body, n) == result
  {
  }

  lemma SecondPlace(body: bytes, pos: nat, once: bytes, k: nat)
    requires PadPosition(body) == Success(pos) && pos <= |body| && once == InsertSpaces(body, pos, k)
    ensures |once| == |body| + k && PadPosition(once) == Success(pos + k)
  {
    PadPositionMoves(body, pos, k);
  }

  lemma SecondResult(body: bytes, pos: nat, once: bytes, k: nat, m: nat)
    requires |body| + k < m && PadPosition(body) == Success(pos)
    requires pos <= |body| && once == InsertSpaces(body, pos, k)
    ensures |once| == |body| + k
    ensures Success(InsertSpaces(once, pos + k, m - |once|)) == PadBody(body, m)
  {
    InsertTwice(body, pos, k, m - |body| - k, once, pos + k, m - |body|);
    PadBodyAt(body, pos, m);
  }

  /** The place in the padded body, and what padding there again gives. */
  ghost predicate Again(body: bytes, once: bytes, q: nat, m: nat) {
    && |once| < m && q <= |once| && PadPosition(once) == Success(q)
    && Success(InsertSpaces(once, q, m - |once|)) == PadBody(body, m)
  }

  lemma PadAgain(body: bytes, pos: nat, once: bytes, k: nat, m: nat)
    requires |body| + k < m && PadPosition(body) == Success(pos)
    requires pos <= |body| && once == InsertSpaces(body, pos, k)
    ensures Again(body, once, pos + k, m)
  {
    SecondPlace(body, pos, once, k);
    SecondResult(body, pos, once, k, m);
  }

  lemma AgainIsOnce(body: bytes, once: bytes, q: nat, m: nat)
    requires Again(body, once, q, m)
    ensures PadBody(once, m) == PadBody(body, m)
  {
    PadBodyIs(once, q, m, PadBody(body, m));
  }

  lemma PadTwice(body: bytes, pos: nat, k: nat, m: nat)
    requires |body| + k < m && PadPosition(body) == Success(pos) && pos <= |body|
    ensures PadBody(InsertSpaces(body, pos, k), m) == PadBody(body, m)
  {
    PadAgain(body, pos, InsertSpaces(body, pos, k), k, m);
    AgainIsOnce(body, InsertSpaces(body, pos, k), pos + k, m);
  }

  /** Padding in two steps is padding in one, and both fail together. */
  lemma PadComposes(body: bytes, n: nat, m: nat)
    requires |body| <= n <= m
    ensures match PadBody(body, n)
            case Success(once) => PadBody(once, m) == PadBody(body, m)
            case Failure(e) => PadBody(body, m) == Failure(e)
  {
    if |body| < n < m && PadPosition(body).Success? {
      PadBodyAt(body, PadPosition(body).value, n);
      PadTwice(body, PadPosition(body).value, n - |body|, m);
    }
  }

  lemma NoPlace(body: bytes)
    ensures PadPosition(body).Success? <==> exists start, from, pos :: PadsAt(body, start, from, pos)
    ensures PadPosition(body).Failure? ==> PadPosition(body).error == UserContentNotFound
  {
    if PadPosition(body).Success? {
      var start, from, pos := PadPlace(body);
    }
    if start, from, pos :| PadsAt(body, start, from, pos) {
      PadPlaceUnique(body, start, from, pos);
    }
  }

  /** When padding succeeds, and the error if it does not. */
  lemma PadBodyExactly(body: bytes, n: nat)
    ensures PadBody(body, n) == Failure(BodyTooLong) <==> |body| > n
    ensures PadBody(body, n) == Failure(UserContentNotFound)
       <==> |body| < n && forall start, from, pos :: !PadsAt(body, start, from, pos)
    ensures PadBody(body, n).Success?
       <==> |body| == n || (|body| < n && exists start, from, pos :: PadsAt(body, start, from, pos))
  {
    NoPlace(body);
  }

  /** The padded body: spaces before the quotation mark that ends the user content. */
  lemma PaddedBodyIs(body: bytes, n: nat, start: nat, from: nat, pos: nat)
    requires |body| <= n && (|body| < n ==> PadsAt(body, start, from, pos))
    ensures PadBody(body, n) == Success(if |body| == n then body else body[..pos] + Repeat(0x20, n - |body|) + body[pos..])
  {
    if |body| < n {
      PadPlaceUnique(body, start, from, pos);
    }
  }

  function DeleteAt(s: bytes, pos: nat, n: nat): bytes
    requires pos + n <= |s|
  {
    s[..pos] + s[pos + n..]
  }

  /** Deleting the inserted bytes gives the body back, and they are all spaces. */
  lemma PaddingCanBeDeleted(body: bytes, n: nat)
    requires |body| < n && PadBody(body, n).Success?
    ensures var padded, pos := PadBody(body, n).value, PadPosition(body).value;
            pos + (n - |body|) <= |padded| == n
            && DeleteAt(padded, pos, n - |body|) == body
            && padded[pos..pos + (n - |body|)] == Repeat(SPACE, n - |body|)
  {
    PadPositionInRange(body);
  }

  // Padding and the tokens.

  function ScanState(odd: bool): LexState {
    if odd then Escaped else InString
  }

  /** The scan that counts backslashes and the lexer agree on where the literal ends. */
  lemma {:induction false} LexerFindsEnd(s: bytes, from: nat, j: nat, pos: nat)
    requires from <= j <= pos && from <= |s| && LiteralEnd(s, from, pos)
    ensures LiteralLength(ScanState(Backslashes(s, from, j) % 2 == 1), s[j..]) == Some(pos - j)
    decreases pos - j
  {
    if j < pos {
      assert !EndsLiteral(s, from, j);
      LexerFindsEnd(s, from, j + 1, pos);
      assert s[j..][1..] == s[j + 1..];
    }
  }

  /** "role" */
  const ROLE: bytes := [0x72, 0x6F, 0x6C, 0x65]
  /** "user" */
  const USER: bytes := [0x75, 0x73, 0x65, 0x72]
  /** "content" */
  const CONTENT: bytes := [0x63, 0x6F, 0x6E, 0x74, 0x65, 0x6E, 0x74]

  /** The marker up to the quotation mark that opens the content. */
  function MarkerFront(): bytes {
    ([QUOTE] + ROLE + [QUOTE]) + [COLON] + ([QUOTE] + USER + [QUOTE]) + [COMMA] + ([QUOTE] + CONTENT + [QUOTE]) + [COLON]
  }

  lemma MarkerParts()
    ensures USER_CONTENT_MARKER == MarkerFront() + [QUOTE]
  {
  }

  lemma StateAfterQuoted(state: LexState, raw: bytes)
    requires QUOTE !in raw && BACKSLASH !in raw
    ensures StateAfter(state, [QUOTE] + raw + [QUOTE]) == if state == InString then InString else Outside
  {
    var s := [QUOTE] + raw + [QUOTE];
    StateAfterConcat(state, [QUOTE], raw + [QUOTE]);
    assert s == [QUOTE] + (raw + [QUOTE]);
    StateAfterConcat(Next(state, QUOTE), raw, [QUOTE]);
    PlainLiteral(raw, []);
    OneByte(state, QUOTE);
    OneByte(StateAfter(Next(state, QUOTE), raw), QUOTE);
  }

  lemma OneByte(state: LexState, b: byte)
    ensures StateAfter(state, [b]) == Next(state, b)
  {
    assert [b][1..] == [];
  }

  lemma StateAfterMarkerFront(state: LexState)
    ensures StateAfter(state, MarkerFront()) == if state == InString then InString else Outside
  {
    var role, user, content := [QUOTE] + ROLE + [QUOTE], [QUOTE] + USER + [QUOTE], [QUOTE] + CONTENT + [QUOTE];
    var s1 := if state == InString then InString else Outside;
    StateAfterQuoted(state, ROLE);
    StateAfterQuoted(s1, USER);
    StateAfterQuoted(s1, CONTENT);
    OneByte(s1, COLON);
    OneByte(s1, COMMA);
    StateAfterConcat(state, role, [COLON]);
    StateAfterConcat(state, role + [COLON], user);
    StateAfterConcat(state, role + [COLON] + user, [COMMA]);
    StateAfterConcat(state, role + [COLON] + user + [COMMA], content);
    StateAfterConcat(state, role + [COLON] + user + [COMMA] + content, [COLON]);
  }

  /** The padded literal is the one the marker opens exactly when the lexer is not in the middle of a
      string at the marker. */
  lemma ContentIsLiteral(body: bytes, start: nat)
    requires OccursAt(body, USER_CONTENT_MARKER, start)
    ensures StateAfter(Outside, body[..start + |USER_CONTENT_MARKER|]) == InString
       <==> StateAfter(Outside, body[..start]) != InString
  {
    BeforeContent(body, start);
    var front := body[..start + |USER_CONTENT_MARKER| - 1];
    assert body[..start + |USER_CONTENT_MARKER|] == front + [QUOTE];
    StateAfterConcat(Outside, front, [QUOTE]);
    OneByte(StateAfter(Outside, front), QUOTE);
  }

  lemma BeforeContent(body: bytes, start: nat)
    requires OccursAt(body, USER_CONTENT_MARKER, start)
    ensures body[..start + |USER_CONTENT_MARKER| - 1] == body[..start] + MarkerFront()
    ensures body[start + |USER_CONTENT_MARKER| - 1] == QUOTE
    ensures StateAfter(Outside, body[..start + |USER_CONTENT_MARKER| - 1])
         == if StateAfter(Outside, body[..start]) == InString then InString else Outside
  {
    MarkerParts();
    var end := start + |USER_CONTENT_MARKER|;
    assert body[..end] == body[..start] + USER_CONTENT_MARKER;
    assert body[..end] == body[..start] + MarkerFront() + [QUOTE];
    assert body[..end - 1] == body[..end][..end - 1];
    StateAfterConcat(Outside, body[..start], MarkerFront());
    StateAfterMarkerFront(StateAfter(Outside, body[..start]));
  }

  lemma LexParts(s: bytes, front: bytes, raw: bytes, rest: bytes)
    requires s == front + ([QUOTE] + raw + [QUOTE] + rest)
    requires StateAfter(Outside, front) == Outside
    requires LiteralLength(InString, raw + [QUOTE] + rest) == Some(|raw|)
    ensures Lex(front).Some?
    ensures Lex(s) == Append(Lex(front).value, Append([Str(raw)], Lex(rest)))
  {
    LexLiteral(raw, rest);
    LexConcat(front, [QUOTE] + raw + [QUOTE] + rest);
  }

  lemma LiteralParts(s: bytes, from: nat, pos: nat)
    requires from <= |s| && LiteralEnd(s, from, pos)
    ensures s[from..] == s[from..pos] + [QUOTE] + s[pos + 1..]
    ensures LiteralLength(InString, s[from..pos] + [QUOTE] + s[pos + 1..]) == Some(pos - from)
  {
    LexerFindsEnd(s, from, from, pos);
  }

  lemma Regroup(s: bytes, front: bytes, raw: bytes, rest: bytes, from: nat)
    requires 0 < from <= |s| && front == s[..from - 1] && s[from - 1] == QUOTE
    requires s[from..] == raw + [QUOTE] + rest
    ensures s == front + ([QUOTE] + raw + [QUOTE] + rest)
  {
    assert s == s[..from - 1] + [s[from - 1]] + s[from..];
  }

  /** The tokens of a text around one of its literals. */
  lemma LexAround(s: bytes, from: nat, pos: nat, front: bytes, raw: bytes, rest: bytes)
    requires 0 < from <= |s| && LiteralEnd(s, from, pos) && s[from - 1] == QUOTE
    requires front == s[..from - 1] && raw == s[from..pos] && rest == s[pos + 1..]
    requires StateAfter(Outside, front) == Outside
    ensures Lex(front).Some?
    ensures Lex(s) == Append(Lex(front).value, Append([Str(raw)], Lex(rest)))
  {
    LiteralParts(s, from, pos);
    Regroup(s, front, raw, rest, from);
    LexParts(s, front, raw, rest);
  }

  function MarkerTokens(): (tokens: seq<Token>)
    ensures |tokens| == 6
  {
    [Str(ROLE), Other(COLON), Str(USER), Other(COMMA), Str(CONTENT), Other(COLON)]
  }

  lemma LexQuoted(raw: bytes)
    requires QUOTE !in raw && BACKSLASH !in raw
    ensures HasTokens([QUOTE] + raw + [QUOTE], [Str(raw)])
  {
    PlainLiteral(raw, []);
    assert raw + [QUOTE] + [] == raw + [QUOTE];
    assert [QUOTE] + raw + [QUOTE] + [] == [QUOTE] + raw + [QUOTE];
    LexLiteral(raw, []);
    assert [Str(raw)] + [] == [Str(raw)];
    StateAfterQuoted(Outside, raw);
  }

  lemma LexOther(b: byte)
    requires b != QUOTE
    ensures HasTokens([b], [Other(b)])
  {
    assert [b][1..] == [];
    assert [Other(b)] + [] == [Other(b)];
    OneByte(Outside, b);
  }

  ghost predicate HasTokens(s: bytes, tokens: seq<Token>) {
    Lex(s) == Some(tokens) && StateAfter(Outside, s) == Outside
  }

  lemma LexPair(a: bytes, x: seq<Token>, b: bytes, y: seq<Token>)
    requires HasTokens(a, x) && HasTokens(b, y)
    ensures HasTokens(a + b, x + y)
  {
    LexConcat(a, b);
    StateAfterConcat(Outside, a, b);
  }

  /** A name in quotation marks, then one byte. */
  lemma LexName(raw: bytes, b: byte, s: bytes)
    requires QUOTE !in raw && BACKSLASH !in raw && b != QUOTE && s == [QUOTE] + raw + [QUOTE] + [b]
    ensures HasTokens(s, [Str(raw), Other(b)])
  {
    LexQuoted(raw);
    LexOther(b);
    LexPair([QUOTE] + raw + [QUOTE], [Str(raw)], [b], [Other(b)]);
    assert [Str(raw)] + [Other(b)] == [Str(raw), Other(b)];
  }

  lemma LexThree(a: bytes, x: seq<Token>, b: bytes, y: seq<Token>, c: bytes, z: seq<Token>)
    requires HasTokens(a, x) && HasTokens(b, y) && HasTokens(c, z)
    ensures HasTokens(a + b + c, x + y + z)
  {
    LexPair(a, x, b, y);
    LexPair(a + b, x + y, c, z);
  }

  lemma MarkerGroups(a: bytes, b: bytes, c: bytes)
    requires a == [QUOTE] + ROLE + [QUOTE] + [COLON] && b == [QUOTE] + USER + [QUOTE] + [COMMA]
    requires c == [QUOTE] + CONTENT + [QUOTE] + [COLON]
    ensures a + b + c == MarkerFront()
    ensures [Str(ROLE), Other(COLON)] + [Str(USER), Other(COMMA)] + [Str(CONTENT), Other(COLON)] == MarkerTokens()
  {
  }

  /** Read outside strings, the marker is a "role" with the value "user", and the name "content". */
  lemma LexMarkerFront()
    ensures HasTokens(MarkerFront(), MarkerTokens())
  {
    var a := [QUOTE] + ROLE + [QUOTE] + [COLON];
    var b := [QUOTE] + USER + [QUOTE] + [COMMA];
    var c := [QUOTE] + CONTENT + [QUOTE] + [COLON];
    LexName(ROLE, COLON, a);
    LexName(USER, COMMA, b);
    LexName(CONTENT, COLON, c);
    LexThree(a, [Str(ROLE), Other(COLON)], b, [Str(USER), Other(COMMA)], c, [Str(CONTENT), Other(COLON)]);
    MarkerGroups(a, b, c);
  }

  /** The raw content of the literal that is padded. */
  function UserContent(body: bytes): bytes
    requires PadPosition(body).Success?
  {
    PadPositionInRange(body);
    PadPositionAfterMarker(body);
    body[Find(body, USER_CONTENT_MARKER).value + |USER_CONTENT_MARKER|..PadPosition(body).value]
  }

  lemma PadPositionAfterMarker(body: bytes)
    requires PadPosition(body).Success?
    ensures Find(body, USER_CONTENT_MARKER).Some?
    ensures Find(body, USER_CONTENT_MARKER).value + |USER_CONTENT_MARKER| <= PadPosition(body).value
  {
    var start, from, pos := PadPlace(body);
  }

  /** The number of tokens before the padded literal. */
  function TokensBefore(body: bytes): nat
    requires Find(body, USER_CONTENT_MARKER).Some?
  {
    match Lex(body[..Find(body, USER_CONTENT_MARKER).value + |USER_CONTENT_MARKER| - 1])
    case None => 0
    case Some(tokens) => |tokens|
  }

  /** Padding preserves the meaning of the JSON text. When the lexer is not in the middle of a string
      at the marker, the padded body has the same tokens, except that the user-content literal gains
      the inserted spaces at its end; and so does its decoded value. A body that is not a sequence of
      tokens stays one that is not. */
  lemma PaddingPreservesTokens(body: bytes, n: nat)
    requires |body| < n && PadBody(body, n).Success?
    requires StateAfter(Outside, body[..Find(body, USER_CONTENT_MARKER).value]) != InString
    ensures match Lex(body)
            case None => Lex(PadBody(body, n).value) == None
            case Some(tokens) =>
              TokensBefore(body) < |tokens| && tokens[TokensBefore(body)] == Str(UserContent(body))
              && Lex(PadBody(body, n).value)
              == Some(tokens[TokensBefore(body) := Str(UserContent(body) + Repeat(SPACE, n - |body|))])
    ensures Decode(UserContent(body) + Repeat(SPACE, n - |body|)) == AppendSpaces(Decode(UserContent(body)), n - |body|)
  {
    var start, from, pos := PadPlace(body);
    BeforeContent(body, start);
    DecodeTrailingSpaces(UserContent(body), n - |body|);
    InsertIntoLiteral(body, from, pos, n - |body|);
  }

  /** The padded literal is indeed the user content: outside strings, the six tokens before it are
      those of the marker. */
  lemma MarkerComesBefore(body: bytes)
    requires Find(body, USER_CONTENT_MARKER).Some?
    requires StateAfter(Outside, body[..Find(body, USER_CONTENT_MARKER).value]) == Outside
    ensures var start := Find(body, USER_CONTENT_MARKER).value;
            Lex(body[..start]).Some?
            && Lex(body[..start + |USER_CONTENT_MARKER| - 1]) == Some(Lex(body[..start]).value + MarkerTokens())
            && TokensBefore(body) == |Lex(body[..start]).value| + 6
  {
    var start := Find(body, USER_CONTENT_MARKER).value;
    FindFirst(body, USER_CONTENT_MARKER);
    BeforeContent(body, start);
    LexThenMarker(body[..start], body[..start + |USER_CONTENT_MARKER| - 1]);
  }

  lemma LexThenMarker(front: bytes, all: bytes)
    requires all == front + MarkerFront() && StateAfter(Outside, front) == Outside
    ensures Lex(front).Some? && Lex(all) == Some(Lex(front).value + MarkerTokens())
  {
    LexMarkerFront();
    LexConcat(front, MarkerFront());
  }

  // JSON texts.

  /** In a JSON text the marker never stands in the middle of a string: its first quotation mark would
      end that string, and an `r` cannot follow. */
  lemma MarkerOutsideStrings(body: bytes, start: nat)
    requires JsonLike(body) && OccursAt(body, USER_CONTENT_MARKER, start)
    ensures StateAfter(Outside, body[..start]) != InString
  {
    var end := start + |USER_CONTENT_MARKER|;
    assert body[start] == body[start..end][0] && body[start + 1] == body[start..end][1];
    if StateAfter(Outside, body[..start]) == InString {
      QuoteIsFollowed(body, start);
    }
  }

  /** Token `i` is a string literal to whose raw content and decoded value `k` spaces are appended, and
      all other tokens are the same. */
  ghost predicate GainsSpaces(body: bytes, padded: bytes, k: nat, i: nat) {
    && Lex(body).Some? && i < |Lex(body).value| && Lex(body).value[i].Str?
    && (var raw := Lex(body).value[i].raw;
        Lex(padded) == Some(Lex(body).value[i := Str(raw + Repeat(SPACE, k))])
        && Decode(raw + Repeat(SPACE, k)) == AppendSpaces(Decode(raw), k))
  }

  /** The name of the marker's first member: `role`, or a name that ends in an escaped quotation mark
      and `role`. */
  predicate NamesRole(raw: bytes) {
    raw == ROLE || (|raw| >= 6 && raw[|raw| - 6..] == [BACKSLASH, QUOTE] + ROLE)
  }

  /** The six tokens before token `i` are those of the marker. */
  predicate FollowsMarker(tokens: seq<Token>, i: nat) {
    && 6 <= i <= |tokens| && tokens[i - 6].Str? && NamesRole(tokens[i - 6].raw)
    && tokens[i - 5..i] == MarkerTokens()[1..]
  }

  /** The literal after the marker, the user content, gains `k` spaces at its end. */
  ghost predicate UserContentGains(body: bytes, padded: bytes, k: nat) {
    && PadPosition(body).Success? && Find(body, USER_CONTENT_MARKER).Some?
    && GainsSpaces(body, padded, k, TokensBefore(body))
    && Lex(body).value[TokensBefore(body)] == Str(UserContent(body))
    && FollowsMarker(Lex(body).value, TokensBefore(body))
  }

  /** The same JSON text, or one that differs by trailing spaces in the user content. */
  ghost predicate SameMeaning(body: bytes, padded: bytes) {
    padded == body || (|body| < |padded| && UserContentGains(body, padded, |padded| - |body|))
  }

  // The tokens before the user content.

  function QuotedRole(): bytes {
    [QUOTE] + ROLE + [QUOTE]
  }

  function MarkerTail(): bytes {
    [COLON] + ([QUOTE] + USER + [QUOTE] + [COMMA]) + ([QUOTE] + CONTENT + [QUOTE] + [COLON])
  }

  lemma MarkerIsRoleAndTail()
    ensures MarkerFront() == QuotedRole() + MarkerTail()
  {
    assert MarkerFront() == QuotedRole() + [COLON] + ([QUOTE] + USER + [QUOTE]) + [COMMA] + ([QUOTE] + CONTENT + [QUOTE]) + [COLON];
  }

  lemma LexMarkerTail()
    ensures HasTokens(MarkerTail(), MarkerTokens()[1..])
  {
    var b := [QUOTE] + USER + [QUOTE] + [COMMA];
    var c := [QUOTE] + CONTENT + [QUOTE] + [COLON];
    LexOther(COLON);
    LexName(USER, COMMA, b);
    LexName(CONTENT, COLON, c);
    LexThree([COLON], [Other(COLON)], b, [Str(USER), Other(COMMA)], c, [Str(CONTENT), Other(COLON)]);
    assert [Other(COLON)] + [Str(USER), Other(COMMA)] + [Str(CONTENT), Other(COLON)] == MarkerTokens()[1..];
  }

  /** Two ways to see a text that ends in `role` and a quotation mark. */
  lemma RoleSuffix(s: bytes, x: bytes, raw: bytes, a: bytes)
    requires s == x + ([QUOTE] + raw + [QUOTE]) && s == a + QuotedRole()
    requires a != [] && a[|a| - 1] == BACKSLASH
    ensures NamesRole(raw)
  {
    EndsInLiteral(s, x, raw);
    EndsInRole(s, a);
    SuffixNamesRole(s, raw);
  }

  /** The bytes of a literal at the end of a text. */
  predicate LiteralAtEnd(s: bytes, raw: bytes) {
    && |s| >= |raw| + 2 && s[|s| - 2 - |raw|] == QUOTE
    && forall k | 0 <= k < |raw| :: raw[k] == s[|s| - 1 - |raw| + k]
  }

  predicate RoleAtEnd(s: bytes) {
    var m := |s|;
    && m >= 7 && s[m - 7] == BACKSLASH && s[m - 6] == QUOTE
    && s[m - 5] == 0x72 && s[m - 4] == 0x6F && s[m - 3] == 0x6C && s[m - 2] == 0x65
  }

  lemma EndsInLiteral(s: bytes, x: bytes, raw: bytes)
    requires s == x + ([QUOTE] + raw + [QUOTE])
    ensures LiteralAtEnd(s, raw)
  {
  }

  lemma EndsInRole(s: bytes, a: bytes)
    requires s == a + QuotedRole() && a != [] && a[|a| - 1] == BACKSLASH
    ensures RoleAtEnd(s)
  {
  }

  lemma SuffixNamesRole(s: bytes, raw: bytes)
    requires LiteralAtEnd(s, raw) && RoleAtEnd(s)
    ensures NamesRole(raw)
  {
    if |raw| == 4 {
      assert raw == ROLE;
    } else if |raw| >= 6 {
      assert raw[|raw| - 6..] == [BACKSLASH, QUOTE] + ROLE;
    }
  }

  lemma AfterRole(front: bytes)
    requires StateAfter(Outside, front) != InString
    ensures StateAfter(Outside, front + QuotedRole()) == Outside
  {
    StateAfterConcat(Outside, front, QuotedRole());
    StateAfterQuoted(StateAfter(Outside, front), ROLE);
  }

  lemma OutsideRoleIsLast(front: bytes)
    requires StateAfter(Outside, front) == Outside
    ensures Lex(front + QuotedRole()).Some?
    ensures var tokens := Lex(front + QuotedRole()).value;
            tokens != [] && Last(tokens) == Str(ROLE)
  {
    LexQuoted(ROLE);
    LexConcat(front, QuotedRole());
  }

  lemma RoleIsLast(front: bytes)
    requires StateAfter(Outside, front) != InString
    ensures StateAfter(Outside, front + QuotedRole()) == Outside && Lex(front + QuotedRole()).Some?
    ensures var tokens := Lex(front + QuotedRole()).value;
            tokens != [] && Last(tokens).Str? && NamesRole(Last(tokens).raw)
  {
    AfterRole(front);
    if StateAfter(Outside, front) == Outside {
      OutsideRoleIsLast(front);
    } else {
      EscapedRoleIsLast(front);
    }
  }

  lemma EscapedRoleIsLast(front: bytes)
    requires StateAfter(Outside, front) == Escaped
    ensures Lex(front + QuotedRole()).Some?
    ensures var tokens := Lex(front + QuotedRole()).value;
            tokens != [] && Last(tokens).Str? && NamesRole(Last(tokens).raw)
  {
    var all := front + QuotedRole();
    EscapedAfterBackslash(Outside, front);
    InsideAfterRole(front);
    assert all == front + [QUOTE] + ROLE + [QUOTE];
    QuoteEndsLiteral(front + [QUOTE] + ROLE);
    var tokens := Lex(all).value;
    LexUnlex(all);
    var x := EndsInLast(tokens);
    RoleSuffix(all, x, Last(tokens).raw, front);
  }

  lemma InsideAfterRole(front: bytes)
    requires StateAfter(Outside, front) == Escaped
    ensures StateAfter(Outside, front + [QUOTE] + ROLE) == InString
  {
    StateAfterConcat(Outside, front, [QUOTE]);
    OneByte(Escaped, QUOTE);
    StateAfterConcat(Outside, front + [QUOTE], ROLE);
    PlainLiteral(ROLE, []);
  }

  lemma EndsInLast(tokens: seq<Token>) returns (x: bytes)
    requires tokens != [] && Last(tokens).Str?
    ensures Unlex(tokens) == x + ([QUOTE] + Last(tokens).raw + [QUOTE])
  {
    var before := tokens[..|tokens| - 1];
    x := Unlex(before);
    assert tokens == before + [Last(tokens)];
    UnlexConcat(before, [Last(tokens)]);
    UnlexOne(Last(tokens));
  }

  lemma TokensFollowMarker(tokens: seq<Token>, head: seq<Token>, rest: seq<Token>, i: nat)
    requires head != [] && Last(head).Str? && NamesRole(Last(head).raw)
    requires tokens == head + MarkerTokens()[1..] + rest && i == |head| + 5
    ensures FollowsMarker(tokens, i)
  {
    assert tokens[i - 6] == Last(head);
    assert tokens[i - 5..i] == MarkerTokens()[1..];
  }

  lemma RoleAndTail(front: bytes, all: bytes) returns (head: seq<Token>)
    requires all == front + MarkerFront() && StateAfter(Outside, front) != InString
    ensures head != [] && Last(head).Str? && NamesRole(Last(head).raw)
    ensures Lex(all) == Some(head + MarkerTokens()[1..])
  {
    MarkerIsRoleAndTail();
    Associates(front, QuotedRole(), MarkerTail());
    RoleIsLast(front);
    LexMarkerTail();
    head := Lex(front + QuotedRole()).value;
    LexConcat(front + QuotedRole(), MarkerTail());
  }

  lemma LexFromThere(all: bytes, front: bytes, rest: bytes)
    requires all == front + rest && StateAfter(Outside, front) == Outside
    ensures Lex(front).Some? && Lex(all) == Append(Lex(front).value, Lex(rest))
  {
    LexConcat(front, rest);
  }

  /** In a JSON text the tokens before the user content are those of the marker. */
  lemma MarkerPrecedes(body: bytes)
    requires JsonLike(body) && Find(body, USER_CONTENT_MARKER).Some?
    ensures FollowsMarker(Lex(body).value, TokensBefore(body))
  {
    var start := Find(body, USER_CONTENT_MARKER).value;
    var end := start + |USER_CONTENT_MARKER| - 1;
    FindFirst(body, USER_CONTENT_MARKER);
    MarkerOutsideStrings(body, start);
    BeforeContent(body, start);
    var head := RoleAndTail(body[..start], body[..end]);
    JoinParts(body, end);
    LexFromThere(body, body[..end], body[end..]);
    TokensFollowMarker(Lex(body).value, head, Lex(body[end..]).value, TokensBefore(body));
  }

  lemma JoinParts(body: bytes, end: nat)
    requires end <= |body|
    ensures body == body[..end] + body[end..]
  {
  }

  lemma StillSeparated(tokens: seq<Token>, i: nat, raw: bytes, replaced: seq<Token>)
    requires i < |tokens| && tokens[i].Str? && StringsSeparated(tokens) && replaced == tokens[i := Str(raw)]
    ensures StringsSeparated(replaced)
  {
  }

  /** Padding a JSON text appends spaces to the user content and changes nothing else; the result is
      again such a text. */
  lemma PaddingKeepsJson(body: bytes, n: nat)
    requires JsonLike(body) && |body| < n && PadBody(body, n).Success?
    ensures GainsSpaces(body, PadBody(body, n).value, n - |body|, TokensBefore(body))
    ensures Lex(body).value[TokensBefore(body)] == Str(UserContent(body))
    ensures JsonLike(PadBody(body, n).value)
  {
    var start, from, pos := PadPlace(body);
    MarkerOutsideStrings(body, start);
    PaddingPreservesTokens(body, n);
    TokensGain(body, PadBody(body, n).value, n - |body|, TokensBefore(body), UserContent(body));
  }

  lemma TokensGain(body: bytes, padded: bytes, k: nat, i: nat, raw: bytes)
    requires JsonLike(body) && i < |Lex(body).value| && Lex(body).value[i] == Str(raw)
    requires Lex(padded) == Some(Lex(body).value[i := Str(raw + Repeat(SPACE, k))])
    requires Decode(raw + Repeat(SPACE, k)) == AppendSpaces(Decode(raw), k)
    ensures GainsSpaces(body, padded, k, i) && JsonLike(padded)
  {
    StillSeparated(Lex(body).value, i, raw + Repeat(SPACE, k), Lex(padded).value);
  }

  lemma PadBodyKeepsMeaning(body: bytes, n: nat)
    requires JsonLike(body) && PadBody(body, n).Success?
    ensures SameMeaning(body, PadBody(body, n).value) && JsonLike(PadBody(body, n).value)
  {
    if |body| < n {
      PaddingKeepsJson(body, n);
      PadPositionAfterMarker(body);
      MarkerPrecedes(body);
    }
  }

  ghost predicate AcceptsJsonLike(accepted: iset<bytes>) {
    forall body | body in accepted :: JsonLike(body)
  }

  /** Whatever set of such texts is accepted: the body that `check_and_pad` returns means what the
      caller's body means, and is again such a text. */
  lemma CheckedBodyKeepsMeaning(accepted: iset<bytes>, config: RequestConfig, data: bytes)
    requires AcceptsJsonLike(accepted) && CheckAndPad(accepted, config, data).Success?
    ensures SplitHttp(data).Success?
    ensures SameMeaning(SplitHttp(data).value.1, CheckAndPad(accepted, config, data).value.body)
    ensures JsonLike(CheckAndPad(accepted, config, data).value.body)
  {
    PadBodyKeepsMeaning(SplitHttp(data).value.1, config.contentLength);
  }

  /** The same for any literal of any text. */
  lemma InsertIntoLiteral(s: bytes, from: nat, pos: nat, k: nat)
    requires 0 < from <= |s| && LiteralEnd(s, from, pos)
    requires s[from - 1] == QUOTE && StateAfter(Outside, s[..from - 1]) == Outside
    ensures Lex(s[..from - 1]).Some?
    ensures match Lex(s)
            case None => Lex(InsertSpaces(s, pos, k)) == None
            case Some(tokens) =>
              var i := |Lex(s[..from - 1]).value|;
              i < |tokens| && tokens[i] == Str(s[from..pos])
              && Lex(InsertSpaces(s, pos, k)) == Some(tokens[i := Str(s[from..pos] + Repeat(SPACE, k))])
  {
    var raw, rest := s[from..pos], s[pos + 1..];
    LexAround(s, from, pos, s[..from - 1], raw, rest);
    LexAroundPadded(s, from, pos, k);
    var front := Lex(s[..from - 1]).value;
    if Lex(rest).Some? {
      ReplaceToken(front, Str(raw), Str(raw + Repeat(SPACE, k)), Lex(rest).value);
    }
  }

  lemma LexAroundPadded(s: bytes, from: nat, pos: nat, k: nat)
    requires 0 < from <= |s| && LiteralEnd(s, from, pos)
    requires s[from - 1] == QUOTE && StateAfter(Outside, s[..from - 1]) == Outside
    ensures Lex(s[..from - 1]).Some?
    ensures Lex(InsertSpaces(s, pos, k))
         == Append(Lex(s[..from - 1]).value, Append([Str(s[from..pos] + Repeat(SPACE, k))], Lex(s[pos + 1..])))
  {
    var padded := InsertSpaces(s, pos, k);
    InsertMovesEnd(s, from, pos, k);
    PaddedParts(s, from, pos, k);
    LexAround(padded, from, pos + k, s[..from - 1], s[from..pos] + Repeat(SPACE, k), s[pos + 1..]);
  }

  lemma PaddedParts(s: bytes, from: nat, pos: nat, k: nat)
    requires 0 < from <= pos < |s|
    ensures var padded := InsertSpaces(s, pos, k);
            padded[..from - 1] == s[..from - 1] && padded[from - 1] == s[from - 1]
            && padded[from..pos + k] == s[from..pos] + Repeat(SPACE, k) && padded[pos + k + 1..] == s[pos + 1..]
  {
  }

  lemma ReplaceToken(front: seq<Token>, x: Token, y: Token, rest: seq<Token>)
    ensures (front + ([x] + rest))[|front| := y] == front + ([y] + rest)
    ensures (front + ([x] + rest))[|front|] == x
  {
  }
}
