/** The grammar of JSON texts (sections 2 to 7 of RFC 8259), as trees with their white space. A byte
    above 0x7F stands for itself: whether such bytes are well-formed UTF-8 is not asked. */
module JsonGrammar {
  import opened Sequences
  import opened Bytes
  import opened Json

  predicate IsBlank(b: byte) {
    b == 0x20 || b == 0x09 || b == 0x0A || b == 0x0D
  }

  /** `ws` */
  predicate Blank(s: bytes) {
    forall i | 0 <= i < |s| :: IsBlank(s[i])
  }

  /** A structural character with the white space around it. */
  datatype Sign = Sign(before: bytes, after: bytes) {
    predicate Valid() {
      Blank(before) && Blank(after)
    }

    function Text(b: byte): bytes {
      before + [b] + after
    }
  }

  // Numbers.

  predicate Digits(s: bytes) {
    s != [] && forall i | 0 <= i < |s| :: IsDigit(s[i])
  }

  datatype Exponent = Exponent(marker: byte, sign: bytes, digits: bytes) {
    predicate Valid() {
      && (marker == 0x65 || marker == 0x45) && (sign == [] || sign == [0x2B] || sign == [0x2D]) && Digits(digits)
    }

    function Text(): bytes {
      [marker] + sign + digits
    }
  }

  datatype Number = Number(minus: bool, integer: bytes, fraction: Option<bytes>, exponent: Option<Exponent>) {
    predicate Valid() {
      && Digits(integer) && (integer[0] == 0x30 ==> |integer| == 1)
      && (fraction.Some? ==> Digits(fraction.value))
      && (exponent.Some? ==> exponent.value.Valid())
    }

    function Text(): bytes {
      (if minus then [0x2D] else []) + integer
      + (if fraction.Some? then [0x2E] + fraction.value else [])
      + (if exponent.Some? then exponent.value.Text() else [])
    }
  }

  // Strings.

  /** The content of a string: unescaped characters and escapes. */
  predicate Chars(raw: bytes)
    decreases |raw|
  {
    if raw == [] then true
    else if raw[0] != BACKSLASH then raw[0] >= 0x20 && raw[0] != QUOTE && Chars(raw[1..])
    else if |raw| < 2 then false
    else if raw[1] == 0x75 then |raw| >= 6 && HexQuad(raw[2..6]).Some? && Chars(raw[6..])
    else SimpleEscape(raw[1]).Some? && Chars(raw[2..])
  }

  // Values.

  /** "false", "null" and "true". */
  predicate IsWord(s: bytes) {
    || s == [0x66, 0x61, 0x6C, 0x73, 0x65]
    || s == [0x6E, 0x75, 0x6C, 0x6C]
    || s == [0x74, 0x72, 0x75, 0x65]
  }

  const OPEN_ARRAY: byte := 0x5B
  const CLOSE_ARRAY: byte := 0x5D
  const OPEN_OBJECT: byte := 0x7B
  const CLOSE_OBJECT: byte := 0x7D

  datatype Value =
    | Word(text: bytes)
    | Numeral(number: Number)
    | String(raw: bytes)
    | Array(open: Sign, items: Items, close: Sign)
    | Object(open: Sign, members: Members, close: Sign)
  {
    predicate Valid() {
      match this
      case Word(text) => IsWord(text)
      case Numeral(number) => number.Valid()
      case String(raw) => Chars(raw)
      case Array(open, items, close) => open.Valid() && items.Valid() && close.Valid()
      case Object(open, members, close) => open.Valid() && members.Valid() && close.Valid()
    }

    function Text(): bytes {
      match this
      case Word(text) => text
      case Numeral(number) => number.Text()
      case String(raw) => Quoted(raw)
      case Array(open, items, close) => open.Text(OPEN_ARRAY) + items.Text() + close.Text(CLOSE_ARRAY)
      case Object(open, members, close) => open.Text(OPEN_OBJECT) + members.Text() + close.Text(CLOSE_OBJECT)
    }
  }

  datatype Items = NoItems | Item(value: Value) | MoreItems(value: Value, comma: Sign, rest: Items) {
    predicate Valid() {
      match this
      case NoItems => true
      case Item(value) => value.Valid()
      case MoreItems(value, comma, rest) => value.Valid() && comma.Valid() && rest != NoItems && rest.Valid()
    }

    function Text(): bytes {
      match this
      case NoItems => []
      case Item(value) => value.Text()
      case MoreItems(value, comma, rest) => value.Text() + comma.Text(COMMA) + rest.Text()
    }
  }

  datatype Member = Member(name: bytes, colon: Sign, value: Value) {
    predicate Valid() {
      Chars(name) && colon.Valid() && value.Valid()
    }

    function Text(): bytes {
      Quoted(name) + colon.Text(COLON) + value.Text()
    }
  }

  datatype Members = NoMembers | OneMember(member: Member) | MoreMembers(member: Member, comma: Sign, rest: Members) {
    predicate Valid() {
      match this
      case NoMembers => true
      case OneMember(member) => member.Valid()
      case MoreMembers(member, comma, rest) => member.Valid() && comma.Valid() && rest != NoMembers && rest.Valid()
    }

    function Text(): bytes {
      match this
      case NoMembers => []
      case OneMember(member) => member.Text()
      case MoreMembers(member, comma, rest) => member.Text() + comma.Text(COMMA) + rest.Text()
    }
  }

  function Quoted(raw: bytes): bytes {
    [QUOTE] + raw + [QUOTE]
  }

  datatype JsonText = JsonText(before: bytes, value: Value, after: bytes) {
    predicate Valid() {
      Blank(before) && value.Valid() && Blank(after)
    }

    function Text(): bytes {
      before + value.Text() + after
    }
  }

  ghost predicate IsJson(s: bytes) {
    exists t: JsonText :: t.Valid() && t.Text() == s
  }

  // The tokens of texts that end outside strings.

  predicate Closed(s: bytes) {
    StateAfter(Outside, s) == Outside && Lex(s).Some?
  }

  function TokensOf(s: bytes): seq<Token>
    requires Closed(s)
  {
    Lex(s).value
  }

  lemma ClosedConcat(a: bytes, b: bytes)
    requires Closed(a) && Closed(b)
    ensures Closed(a + b) && TokensOf(a + b) == TokensOf(a) + TokensOf(b)
  {
    LexConcat(a, b);
    StateAfterConcat(Outside, a, b);
  }

  /** A text without strings. */
  ghost predicate Stringless(s: bytes) {
    Closed(s) && forall i | 0 <= i < |TokensOf(s)| :: TokensOf(s)[i].Other?
  }

  lemma {:induction false} NoQuoteNoString(s: bytes)
    requires QUOTE !in s
    ensures Stringless(s) && |TokensOf(s)| == |s|
  {
    if s != [] {
      NoQuoteNoString(s[1..]);
      assert Lex(s) == Some([Other(s[0])] + Lex(s[1..]).value);
    }
  }

  lemma SignHasNoString(sign: Sign, b: byte)
    requires sign.Valid() && b != QUOTE
    ensures Stringless(sign.Text(b)) && TokensOf(sign.Text(b)) != []
  {
    NoQuoteNoString(sign.Text(b));
  }

  lemma SignStart(sign: Sign, b: byte)
    requires sign.Valid() && MayFollow(b)
    ensures sign.Text(b) != [] && MayFollow(sign.Text(b)[0])
  {
  }

  lemma HexHasNoQuote(s: bytes)
    requires |s| == 4 && HexQuad(s).Some?
    ensures forall i | 0 <= i < 4 :: s[i] != QUOTE && s[i] != BACKSLASH
  {
    assert HexDigit(QUOTE).None? && HexDigit(BACKSLASH).None?;
  }

  lemma PlainByte(b: byte, rest: bytes, n: nat)
    requires b != QUOTE && b != BACKSLASH && LiteralLength(InString, rest) == Some(n)
    ensures LiteralLength(InString, [b] + rest) == Some(n + 1)
    ensures StateAfter(InString, [b] + rest) == StateAfter(InString, rest)
  {
    assert ([b] + rest)[1..] == rest;
  }

  lemma EscapedByte(b: byte, rest: bytes, n: nat)
    requires LiteralLength(InString, rest) == Some(n)
    ensures LiteralLength(InString, [BACKSLASH, b] + rest) == Some(n + 2)
    ensures StateAfter(InString, [BACKSLASH, b] + rest) == StateAfter(InString, rest)
  {
    assert ([BACKSLASH, b] + rest)[1..] == [b] + rest;
    assert ([b] + rest)[1..] == rest;
  }

  lemma FourPlain(s: bytes, rest: bytes, n: nat)
    requires |s| == 4 && forall i | 0 <= i < 4 :: s[i] != QUOTE && s[i] != BACKSLASH
    requires LiteralLength(InString, rest) == Some(n)
    ensures LiteralLength(InString, s + rest) == Some(n + 4)
    ensures StateAfter(InString, s + rest) == StateAfter(InString, rest)
  {
    var r3 := [s[3]] + rest;
    var r2 := [s[2]] + r3;
    var r1 := [s[1]] + r2;
    PlainByte(s[3], rest, n);
    PlainByte(s[2], r3, n + 1);
    PlainByte(s[1], r2, n + 2);
    PlainByte(s[0], r1, n + 3);
    assert s + rest == [s[0]] + r1;
  }

  /** A string ends where its content ends, and nowhere before. */
  lemma {:induction false} CharsEnd(raw: bytes)
    requires Chars(raw)
    ensures LiteralLength(InString, raw + [QUOTE]) == Some(|raw|)
    ensures StateAfter(InString, raw + [QUOTE]) == Outside
    decreases |raw|
  {
    var s := raw + [QUOTE];
    if raw == [] {
      assert s[1..] == [];
    } else if raw[0] != BACKSLASH {
      CharsEnd(raw[1..]);
      PlainByte(raw[0], raw[1..] + [QUOTE], |raw| - 1);
      assert s == [raw[0]] + (raw[1..] + [QUOTE]);
    } else if raw[1] == 0x75 {
      CharsEnd(raw[6..]);
      HexHasNoQuote(raw[2..6]);
      FourPlain(raw[2..6], raw[6..] + [QUOTE], |raw| - 6);
      EscapedByte(raw[1], raw[2..6] + (raw[6..] + [QUOTE]), |raw| - 2);
      assert s == [BACKSLASH, raw[1]] + (raw[2..6] + (raw[6..] + [QUOTE]));
    } else {
      CharsEnd(raw[2..]);
      EscapedByte(raw[1], raw[2..] + [QUOTE], |raw| - 2);
      assert s == [BACKSLASH, raw[1]] + (raw[2..] + [QUOTE]);
    }
  }

  lemma StringTokens(raw: bytes)
    requires Chars(raw)
    ensures Closed(Quoted(raw)) && TokensOf(Quoted(raw)) == [Str(raw)]
  {
    CharsEnd(raw);
    assert raw + [QUOTE] + [] == raw + [QUOTE];
    assert Quoted(raw) + [] == Quoted(raw);
    LexLiteral(raw, []);
    assert [Str(raw)] + [] == [Str(raw)];
    assert Quoted(raw)[1..] == raw + [QUOTE];
  }

  lemma NumberHasNoString(number: Number)
    requires number.Valid()
    ensures Stringless(number.Text())
  {
    assert QUOTE !in number.integer;
    assert number.fraction.Some? ==> QUOTE !in number.fraction.value;
    assert number.exponent.Some? ==> QUOTE !in number.exponent.value.Text();
    NoQuoteNoString(number.Text());
  }

  // Separated strings.

  ghost predicate Good(s: bytes) {
    Closed(s) && StringsSeparated(TokensOf(s))
  }

  ghost predicate EndsWithoutString(s: bytes) {
    Closed(s) && (TokensOf(s) != [] ==> Last(TokensOf(s)).Other?)
  }

  lemma StringlessIsGood(s: bytes)
    requires Stringless(s)
    ensures Good(s) && EndsWithoutString(s)
  {
  }

  lemma SeparatedConcat(a: seq<Token>, b: seq<Token>)
    requires StringsSeparated(a) && StringsSeparated(b)
    requires a == [] || b == [] || Last(a).Other? || (b[0].Other? && MayFollow(b[0].b))
    ensures StringsSeparated(a + b)
  {
  }

  /** After a text that does not end in a string anything may follow. */
  lemma GoodAfter(a: bytes, b: bytes)
    requires Good(a) && EndsWithoutString(a) && Good(b)
    ensures Good(a + b)
  {
    ClosedConcat(a, b);
    SeparatedConcat(TokensOf(a), TokensOf(b));
  }

  /** Structural characters that may follow a string. */
  lemma GoodBefore(a: bytes, b: bytes)
    requires Good(a) && Stringless(b) && (b == [] || MayFollow(b[0]))
    ensures Good(a + b)
  {
    ClosedConcat(a, b);
    if b != [] {
      FirstOther(b);
    }
    SeparatedConcat(TokensOf(a), TokensOf(b));
  }

  lemma EndsLikeLast(a: bytes, b: bytes)
    requires Closed(a) && Stringless(b) && b != [] && MayFollow(b[0])
    ensures EndsWithoutString(a + b)
  {
    ClosedConcat(a, b);
    FirstOther(b);
    LastOfConcat(TokensOf(a), TokensOf(b));
  }

  lemma LastOfConcat(a: seq<Token>, b: seq<Token>)
    requires b != []
    ensures Last(a + b) == Last(b)
  {
  }

  lemma GoodBetween(open: bytes, inside: bytes, close: bytes)
    requires Stringless(open) && Good(inside) && Stringless(close) && close != [] && MayFollow(close[0])
    ensures Good(open + inside + close)
  {
    StringlessIsGood(open);
    GoodAfter(open, inside);
    GoodBefore(open + inside, close);
  }

  lemma GoodList(first: bytes, comma: bytes, rest: bytes)
    requires Good(first) && Stringless(comma) && comma != [] && MayFollow(comma[0]) && Good(rest)
    ensures Good(first + comma + rest)
  {
    GoodBefore(first, comma);
    EndsLikeLast(first, comma);
    GoodAfter(first + comma, rest);
  }

  lemma EmptyIsGood()
    ensures Good([])
  {
  }

  lemma {:induction false} ValueIsGood(v: Value)
    requires v.Valid()
    ensures Good(v.Text())
    decreases v
  {
    match v
    case Word(text) =>
      NoQuoteNoString(text);
      StringlessIsGood(text);
    case Numeral(number) =>
      NumberHasNoString(number);
      StringlessIsGood(number.Text());
    case String(raw) =>
      StringTokens(raw);
    case Array(open, items, close) =>
      SignHasNoString(open, OPEN_ARRAY);
      SignHasNoString(close, CLOSE_ARRAY);
      SignStart(close, CLOSE_ARRAY);
      ItemsAreGood(items);
      GoodBetween(open.Text(OPEN_ARRAY), items.Text(), close.Text(CLOSE_ARRAY));
    case Object(open, members, close) =>
      SignHasNoString(open, OPEN_OBJECT);
      SignHasNoString(close, CLOSE_OBJECT);
      SignStart(close, CLOSE_OBJECT);
      MembersAreGood(members);
      GoodBetween(open.Text(OPEN_OBJECT), members.Text(), close.Text(CLOSE_OBJECT));
  }

  lemma {:induction false} ItemsAreGood(items: Items)
    requires items.Valid()
    ensures Good(items.Text())
    decreases items
  {
    match items
    case NoItems => EmptyIsGood();
    case Item(value) => ValueIsGood(value);
    case MoreItems(value, comma, rest) =>
      ValueIsGood(value);
      ItemsAreGood(rest);
      SignHasNoString(comma, COMMA);
      SignStart(comma, COMMA);
      GoodList(value.Text(), comma.Text(COMMA), rest.Text());
  }

  lemma {:induction false} MemberIsGood(member: Member)
    requires member.Valid()
    ensures Good(member.Text())
    decreases member
  {
    StringTokens(member.name);
    ValueIsGood(member.value);
    SignHasNoString(member.colon, COLON);
    SignStart(member.colon, COLON);
    GoodList(Quoted(member.name), member.colon.Text(COLON), member.value.Text());
  }

  lemma {:induction false} MembersAreGood(members: Members)
    requires members.Valid()
    ensures Good(members.Text())
    decreases members
  {
    match members
    case NoMembers => EmptyIsGood();
    case OneMember(member) => MemberIsGood(member);
    case MoreMembers(member, comma, rest) =>
      MemberIsGood(member);
      MembersAreGood(rest);
      SignHasNoString(comma, COMMA);
      SignStart(comma, COMMA);
      GoodList(member.Text(), comma.Text(COMMA), rest.Text());
  }

  lemma BlankHasNoString(s: bytes)
    requires Blank(s)
    ensures Stringless(s) && (s != [] ==> MayFollow(s[0]))
  {
    NoQuoteNoString(s);
  }

  lemma TextIsGood(t: JsonText)
    requires t.Valid()
    ensures Good(t.Text())
  {
    BlankHasNoString(t.before);
    BlankHasNoString(t.after);
    ValueIsGood(t.value);
    StringlessIsGood(t.before);
    GoodAfter(t.before, t.value.Text());
    GoodBefore(t.before + t.value.Text(), t.after);
  }

  /** In every JSON text the strings are closed, and followed only by white space, a comma, a colon or a
      closing bracket or brace. */
  lemma JsonIsJsonLike(s: bytes)
    requires IsJson(s)
    ensures JsonLike(s)
  {
    var t: JsonText :| t.Valid() && t.Text() == s;
    TextIsGood(t);
  }
}
