/** Text, white space, trimming and splitting in terms of code points: the UTF-8 encoding (section 3 of
    RFC 3629) and the Unicode property White_Space. */
module Unicode {
  import opened Bytes
  import opened Sequences
  import opened Text

  /** The Unicode scalar values. */
  predicate IsScalar(c: bv32) {
    c <= 0x10FFFF && !(0xD800 <= c <= 0xDFFF)
  }

  /** Six bits of a character in a continuation byte. */
  function TailBits(c: bv32): byte {
    ((c & 0x3F) | 0x80) as bv8
  }

  function Lead2(c: bv32): byte {
    (((c >> 6) & 0x1F) | 0xC0) as bv8
  }

  function Lead3(c: bv32): byte {
    (((c >> 12) & 0x0F) | 0xE0) as bv8
  }

  function Lead4(c: bv32): byte {
    (((c >> 18) & 0x07) | 0xF0) as bv8
  }

  function Utf8(c: bv32): (s: bytes)
    requires IsScalar(c)
    ensures s != []
  {
    if c < 0x80 then [(c & 0x7F) as bv8]
    else if c < 0x800 then [Lead2(c), TailBits(c)]
    else if c < 0x1_0000 then [Lead3(c), TailBits(c >> 6), TailBits(c)]
    else [Lead4(c), TailBits(c >> 12), TailBits(c >> 6), TailBits(c)]
  }

  type Scalar = c: bv32 | IsScalar(c) witness 0

  function Encoded(characters: seq<Scalar>): bytes {
    if characters == [] then [] else Utf8(characters[0]) + Encoded(characters[1..])
  }

  // Taking a character apart and putting it together, on the bits alone.

  function Bits(b: byte): bv32 {
    b as bv32
  }

  function Code2(x: byte, y: byte): bv32 {
    ((Bits(x) & 0x1F) << 6) | (Bits(y) & 0x3F)
  }

  function Code3(x: byte, y: byte, z: byte): bv32 {
    ((Bits(x) & 0x0F) << 12) | ((Bits(y) & 0x3F) << 6) | (Bits(z) & 0x3F)
  }

  function Code4(x: byte, y: byte, z: byte, u: byte): bv32 {
    ((Bits(x) & 0x07) << 18) | ((Bits(y) & 0x3F) << 12) | ((Bits(z) & 0x3F) << 6) | (Bits(u) & 0x3F)
  }

  lemma TwoApart(x: byte, y: byte)
    requires 0xC2 <= x <= 0xDF && Tail(y)
    ensures 0x80 <= Code2(x, y) < 0x800 && Lead2(Code2(x, y)) == x && TailBits(Code2(x, y)) == y
  {
  }

  lemma ThreeApart(x: byte, y: byte, z: byte)
    requires 0xE0 <= x <= 0xEF && Tail(y) && Tail(z)
    ensures Lead3(Code3(x, y, z)) == x && TailBits(Code3(x, y, z) >> 6) == y && TailBits(Code3(x, y, z)) == z
  {
  }

  lemma ThreeInRange(x: byte, y: byte, z: byte)
    requires 0xE0 <= x <= 0xEF && Tail(y) && Tail(z) && (x == 0xE0 ==> y >= 0xA0) && (x == 0xED ==> y <= 0x9F)
    ensures 0x800 <= Code3(x, y, z) < 0x1_0000 && IsScalar(Code3(x, y, z))
  {
  }

  lemma FourApart(x: byte, y: byte, z: byte, u: byte)
    requires 0xF0 <= x <= 0xF4 && Tail(y) && Tail(z) && Tail(u)
    ensures Lead4(Code4(x, y, z, u)) == x && TailBits(Code4(x, y, z, u) >> 12) == y
    ensures TailBits(Code4(x, y, z, u) >> 6) == z && TailBits(Code4(x, y, z, u)) == u
  {
  }

  lemma FourInRange(x: byte, y: byte, z: byte, u: byte)
    requires 0xF0 <= x <= 0xF4 && Tail(y) && Tail(z) && Tail(u) && (x == 0xF0 ==> y >= 0x90) && (x == 0xF4 ==> y <= 0x8F)
    ensures 0x1_0000 <= Code4(x, y, z, u) <= 0x10FFFF
  {
  }

  lemma TailOfAny(c: bv32)
    ensures Tail(TailBits(c))
  {
  }

  lemma LeadOfTwo(c: bv32)
    requires 0x80 <= c < 0x800
    ensures 0xC2 <= Lead2(c) <= 0xDF
  {
  }

  lemma LeadOfThree(c: bv32)
    requires 0x800 <= c < 0x1_0000
    ensures 0xE0 <= Lead3(c) <= 0xEF && (Lead3(c) == 0xE0 ==> TailBits(c >> 6) >= 0xA0)
    ensures !(0xD800 <= c <= 0xDFFF) && Lead3(c) == 0xED ==> TailBits(c >> 6) <= 0x9F
  {
  }

  lemma LeadOfFour(c: bv32)
    requires 0x1_0000 <= c <= 0x10FFFF
    ensures 0xF0 <= Lead4(c) <= 0xF4
    ensures Lead4(c) == 0xF0 ==> TailBits(c >> 12) >= 0x90
    ensures Lead4(c) == 0xF4 ==> TailBits(c >> 12) <= 0x8F
  {
  }

  lemma TwoCode(x: byte, y: byte) returns (c: bv32)
    requires 0xC2 <= x <= 0xDF && Tail(y)
    ensures 0x80 <= c < 0x800 && Lead2(c) == x && TailBits(c) == y
  {
    c := Code2(x, y);
    TwoApart(x, y);
  }

  lemma ThreeCode(x: byte, y: byte, z: byte) returns (c: bv32)
    requires 0xE0 <= x <= 0xEF && Tail(y) && Tail(z) && (x == 0xE0 ==> y >= 0xA0) && (x == 0xED ==> y <= 0x9F)
    ensures 0x800 <= c < 0x1_0000 && IsScalar(c) && Lead3(c) == x && TailBits(c >> 6) == y && TailBits(c) == z
  {
    c := Code3(x, y, z);
    ThreeApart(x, y, z);
    ThreeInRange(x, y, z);
  }

  lemma FourCode(x: byte, y: byte, z: byte, u: byte) returns (c: bv32)
    requires 0xF0 <= x <= 0xF4 && Tail(y) && Tail(z) && Tail(u) && (x == 0xF0 ==> y >= 0x90) && (x == 0xF4 ==> y <= 0x8F)
    ensures 0x1_0000 <= c <= 0x10FFFF && Lead4(c) == x
    ensures TailBits(c >> 12) == y && TailBits(c >> 6) == z && TailBits(c) == u
  {
    c := Code4(x, y, z, u);
    FourApart(x, y, z, u);
    FourInRange(x, y, z, u);
  }

  lemma CharOfTwo(s: bytes) returns (c: Scalar)
    requires TwoBytes(s)
    ensures Utf8(c) == s[..2]
  {
    c := TwoCode(s[0], s[1]);
    assert s[..2] == [s[0], s[1]];
  }

  lemma CharOfThree(s: bytes) returns (c: Scalar)
    requires ThreeBytes(s)
    ensures Utf8(c) == s[..3]
  {
    c := ThreeCode(s[0], s[1], s[2]);
    assert s[..3] == [s[0], s[1], s[2]];
  }

  lemma CharOfFour(s: bytes) returns (c: Scalar)
    requires FourBytes(s)
    ensures Utf8(c) == s[..4]
  {
    c := FourCode(s[0], s[1], s[2], s[3]);
    assert s[..4] == [s[0], s[1], s[2], s[3]];
  }

  /** The character at the start of `s`. */
  lemma CharAtStart(s: bytes) returns (c: Scalar)
    requires CharWidth(s) > 0
    ensures Utf8(c) == s[..CharWidth(s)]
  {
    if s[0] < 0x80 {
      c := s[0] as bv32;
      assert (c & 0x7F) as bv8 == s[0];
    } else if TwoBytes(s) {
      c := CharOfTwo(s);
    } else if ThreeBytes(s) {
      c := CharOfThree(s);
    } else {
      c := CharOfFour(s);
    }
  }

  lemma TwoIsChar(c: Scalar)
    requires 0x80 <= c < 0x800
    ensures TwoBytes(Utf8(c))
  {
    LeadOfTwo(c);
    TailOfAny(c);
  }

  lemma ThreeIsChar(c: Scalar)
    requires 0x800 <= c < 0x1_0000
    ensures ThreeBytes(Utf8(c)) && !TwoBytes(Utf8(c)) && Utf8(c)[0] >= 0x80
  {
    assert IsScalar(c);
    LeadOfThree(c);
    TailOfAny(c);
    TailOfAny(c >> 6);
  }

  lemma FourIsChar(c: Scalar)
    requires 0x1_0000 <= c
    ensures FourBytes(Utf8(c)) && !ThreeBytes(Utf8(c)) && !TwoBytes(Utf8(c)) && Utf8(c)[0] >= 0x80
  {
    assert IsScalar(c);
    LeadOfFour(c);
    TailOfAny(c);
    TailOfAny(c >> 6);
    TailOfAny(c >> 12);
  }

  lemma EncodedIsChar(c: Scalar)
    ensures CharWidth(Utf8(c)) == |Utf8(c)|
  {
    if c < 0x80 {
      assert (c & 0x7F) as bv8 < 0x80;
    } else if c < 0x800 {
      TwoIsChar(c);
    } else if c < 0x1_0000 {
      ThreeIsChar(c);
    } else {
      FourIsChar(c);
    }
  }

  /** There is a character at the start of `s` exactly when `s` starts with an encoded one, and it is as
      wide as that. */
  lemma CharWidthExactly(s: bytes, n: nat)
    requires n > 0
    ensures CharWidth(s) == n <==> exists c: Scalar :: |Utf8(c)| == n && Utf8(c) <= s
  {
    if CharWidth(s) == n {
      var c := CharAtStart(s);
      assert |Utf8(c)| == n && Utf8(c) <= s;
    }
    if c: Scalar :| |Utf8(c)| == n && Utf8(c) <= s {
      EncodedIsChar(c);
      PrefixAndRest(Utf8(c), s);
      CharWidthMore(Utf8(c), s[|Utf8(c)|..]);
    }
  }

  lemma EncodedParts(s: bytes, n: nat, c: Scalar, rest: seq<Scalar>)
    requires n <= |s| && Utf8(c) == s[..n] && Encoded(rest) == s[n..]
    ensures Encoded([c] + rest) == s
  {
    assert ([c] + rest)[1..] == rest;
    assert s == s[..n] + s[n..];
  }

  lemma {:induction false} CharactersOf(s: bytes) returns (characters: seq<Scalar>)
    requires IsText(s)
    ensures Encoded(characters) == s
    decreases |s|
  {
    if s == [] {
      characters := [];
    } else {
      var c := CharAtStart(s);
      var rest := CharactersOf(s[CharWidth(s)..]);
      characters := [c] + rest;
      EncodedParts(s, CharWidth(s), c, rest);
    }
  }

  lemma {:induction false} EncodedIsText(characters: seq<Scalar>)
    ensures IsText(Encoded(characters))
  {
    if characters != [] {
      var first, rest := Utf8(characters[0]), Encoded(characters[1..]);
      EncodedIsChar(characters[0]);
      CharWidthMore(first, rest);
      EncodedIsText(characters[1..]);
      assert first[|first|..] + rest == rest;
    }
  }

  /** The texts are the encodings of sequences of scalar values. */
  lemma TextExactly(s: bytes)
    ensures IsText(s) <==> exists characters: seq<Scalar> :: Encoded(characters) == s
  {
    if IsText(s) {
      var characters := CharactersOf(s);
    }
    if characters: seq<Scalar> :| Encoded(characters) == s {
      EncodedIsText(characters);
    }
  }

  // White space.

  /** The code points with the Unicode property White_Space. */
  predicate WhiteSpace(c: Scalar) {
    || 0x09 <= c <= 0x0D || c == 0x20 || c == 0x85 || c == 0xA0 || c == 0x1680 || 0x2000 <= c <= 0x200A
    || c == 0x2028 || c == 0x2029 || c == 0x202F || c == 0x205F || c == 0x3000
  }

  lemma SpaceOfTwo(c: Scalar)
    requires 0x80 <= c < 0x800
    ensures WhiteSpace(c) <==> IsSpace2(Lead2(c), TailBits(c))
  {
  }

  lemma SpaceOfThree(c: Scalar)
    requires 0x800 <= c < 0x1_0000
    ensures WhiteSpace(c) <==> IsSpace3(Lead3(c), TailBits(c >> 6), TailBits(c))
  {
  }

  lemma NoSpaceOfFour(c: Scalar)
    requires 0x1_0000 <= c
    ensures !WhiteSpace(c) && Lead4(c) >= 0xF0
  {
  }

  lemma EncodedSpace(c: Scalar)
    ensures SpaceWidth(Utf8(c)) == if WhiteSpace(c) then |Utf8(c)| else 0
  {
    if c < 0x80 {
      assert ((c & 0x7F) as bv8) as bv32 == c;
    } else if c < 0x800 {
      TwoIsChar(c);
      SpaceOfTwo(c);
    } else if c < 0x1_0000 {
      ThreeIsChar(c);
      SpaceOfThree(c);
    } else {
      FourIsChar(c);
      NoSpaceOfFour(c);
    }
  }

  /** There is white space at the start of `s` exactly when `s` starts with an encoded white-space
      character, and it is as wide as that. */
  lemma SpaceWidthExactly(s: bytes, n: nat)
    requires n > 0
    ensures SpaceWidth(s) == n <==> exists c: Scalar :: WhiteSpace(c) && |Utf8(c)| == n && Utf8(c) <= s
  {
    if SpaceWidth(s) == n {
      SpaceIsChar(s);
      var c := CharAtStart(s);
      FrontSpace(s);
      EncodedSpace(c);
      assert WhiteSpace(c) && |Utf8(c)| == n && Utf8(c) <= s;
    }
    if c: Scalar :| WhiteSpace(c) && |Utf8(c)| == n && Utf8(c) <= s {
      EncodedSpace(c);
      MoreSpace(Utf8(c), s);
    }
  }

  lemma FrontSpace(s: bytes)
    ensures SpaceWidth(s[..SpaceWidth(s)]) == SpaceWidth(s)
  {
  }

  lemma MoreSpace(front: bytes, s: bytes)
    requires front <= s && SpaceWidth(front) > 0
    ensures SpaceWidth(s) == SpaceWidth(front)
  {
  }

  // Trimming.

  /** A string of white-space characters only. */
  predicate AllSpace(s: bytes)
    decreases |s|
  {
    s == [] || (SpaceWidth(s) > 0 && AllSpace(s[SpaceWidth(s)..]))
  }

  lemma {:induction false} AllSpaceConcat(a: bytes, b: bytes)
    requires AllSpace(a)
    ensures AllSpace(a + b) <==> AllSpace(b)
    decreases |a|
  {
    if a == [] {
      assert a + b == b;
    } else {
      SpaceFirst(a, b);
      AllSpaceConcat(a[SpaceWidth(a)..], b);
    }
  }

  lemma SpaceFirst(a: bytes, b: bytes)
    requires SpaceWidth(a) > 0
    ensures SpaceWidth(a + b) == SpaceWidth(a) && (a + b)[SpaceWidth(a)..] == a[SpaceWidth(a)..] + b
  {
  }

  lemma LastIsSpace(s: bytes)
    requires LastSpaceWidth(s) > 0
    ensures AllSpace(s[|s| - LastSpaceWidth(s)..])
  {
    var last := s[|s| - LastSpaceWidth(s)..];
    assert SpaceWidth(last) == |last|;
    assert last[|last|..] == [];
  }

  lemma FirstIsSpace(s: bytes)
    requires SpaceWidth(s) > 0
    ensures AllSpace(s[..SpaceWidth(s)])
  {
    FrontSpace(s);
    var first := s[..SpaceWidth(s)];
    assert first[|first|..] == [];
  }

  lemma CutAndAppend(s: bytes, n: nat, x: bytes, y: bytes)
    requires n <= |s| && s[n..] == x + y
    ensures s == (s[..n] + x) + y
  {
  }

  lemma CutAndPrepend(s: bytes, n: nat, x: bytes, y: bytes)
    requires n <= |s| && s[..n] == x + y
    ensures s == x + (y + s[n..])
  {
  }

  /** `t` stands between white space, and has none at its ends. */
  ghost predicate Trimmed(s: bytes, before: bytes, t: bytes, after: bytes) {
    s == before + t + after && AllSpace(before) && AllSpace(after) && SpaceWidth(t) == 0 && LastSpaceWidth(t) == 0
  }

  lemma {:induction false} TrimStartParts(s: bytes) returns (before: bytes)
    ensures s == before + TrimStart(s) && AllSpace(before) && SpaceWidth(TrimStart(s)) == 0
    decreases |s|
  {
    var n := SpaceWidth(s);
    if n > 0 {
      var more := TrimStartParts(s[n..]);
      before := s[..n] + more;
      FirstIsSpace(s);
      AllSpaceConcat(s[..n], more);
      CutAndAppend(s, n, more, TrimStart(s));
    } else {
      before := [];
    }
  }

  lemma {:induction false} TrimEndParts(s: bytes) returns (after: bytes)
    ensures s == TrimEnd(s) + after && AllSpace(after) && LastSpaceWidth(TrimEnd(s)) == 0
    decreases |s|
  {
    var n := LastSpaceWidth(s);
    if n > 0 {
      var cut := |s| - n;
      var more := TrimEndParts(s[..cut]);
      after := more + s[cut..];
      LastIsSpace(s);
      AllSpaceConcat(more, s[cut..]);
      CutAndPrepend(s, cut, TrimEnd(s), more);
    } else {
      after := [];
    }
  }

  lemma NoSpaceFirst(t: bytes, after: bytes)
    requires SpaceWidth(t + after) == 0
    ensures SpaceWidth(t) == 0
  {
    if SpaceWidth(t) > 0 {
      SpaceFirst(t, after);
    }
  }

  lemma TrimParts(s: bytes) returns (before: bytes, after: bytes)
    ensures Trimmed(s, before, Trim(s), after)
  {
    before := TrimStartParts(s);
    after := TrimEndParts(TrimStart(s));
    TwoTrims(s, before, TrimStart(s), Trim(s), after);
  }

  lemma TwoTrims(s: bytes, before: bytes, middle: bytes, t: bytes, after: bytes)
    requires s == before + middle && middle == t + after && AllSpace(before) && AllSpace(after)
    requires SpaceWidth(middle) == 0 && LastSpaceWidth(t) == 0
    ensures Trimmed(s, before, t, after)
  {
    NoSpaceFirst(t, after);
    Associates(before, t, after);
  }

  lemma {:induction false} TrimStartSkips(before: bytes, s: bytes)
    requires AllSpace(before)
    ensures TrimStart(before + s) == TrimStart(s)
    decreases |before|
  {
    if before == [] {
      assert before + s == s;
    } else {
      SpaceFirst(before, s);
      TrimStartSkips(before[SpaceWidth(before)..], s);
    }
  }

  /** No white space begins in the middle of a character that is followed by one. */
  lemma NoSpaceAcross(a: bytes, b: bytes)
    requires a != [] && SpaceWidth(a) == 0 && AllSpace(b)
    ensures SpaceWidth(a + b) == 0
  {
    assert b != [] ==> !Tail(b[0]);
  }

  lemma {:induction false} TrimEndSkips(s: bytes, after: bytes)
    requires AllSpace(after)
    ensures TrimEnd(s + after) == TrimEnd(s)
    decreases |after|
  {
    if after == [] {
      assert s + after == s;
    } else {
      var n := SpaceWidth(after);
      var first, rest := after[..n], after[n..];
      assert s + after == (s + first) + rest;
      TrimEndSkips(s + first, rest);
      FrontSpace(after);
      OneSpaceAtEnd(s, first);
    }
  }

  lemma OneSpaceAtEnd(s: bytes, space: bytes)
    requires space != [] && SpaceWidth(space) == |space|
    ensures TrimEnd(s + space) == TrimEnd(s)
  {
    var t := s + space;
    assert LastSpaceWidth(t) == |space|;
    assert t[..|t| - |space|] == s;
  }

  /** `t` is what trimming leaves exactly when `s` is `t` between white space and `t` has none at its
      ends. */
  lemma TrimExactly(s: bytes, t: bytes)
    ensures Trim(s) == t <==> exists before, after :: Trimmed(s, before, t, after)
  {
    if Trim(s) == t {
      var before, after := TrimParts(s);
    }
    if before, after :| Trimmed(s, before, t, after) {
      TrimOfParts(s, before, t, after);
    }
  }

  lemma TrimOfParts(s: bytes, before: bytes, t: bytes, after: bytes)
    requires Trimmed(s, before, t, after)
    ensures Trim(s) == t
  {
    Associates(before, t, after);
    TrimStartSkips(before, t + after);
    TrimmedAtEnd(t, after);
  }

  lemma TrimmedAtEnd(t: bytes, after: bytes)
    requires AllSpace(after) && SpaceWidth(t) == 0 && LastSpaceWidth(t) == 0
    ensures Trim(t + after) == t
  {
    if t == [] {
      assert t + after == after + [];
      TrimStartSkips(after, []);
    } else {
      NoSpaceAcross(t, after);
      TrimEndSkips(t, after);
    }
  }

  // Parts.

  /** White space, then a part that is not empty, has no white space in it and ends at white space or with
      `s`, then the rest. */
  predicate FirstPart(s: bytes, before: bytes, part: bytes, rest: bytes) {
    && s == before + part + rest && AllSpace(before) && part != [] && NoSpace(part)
    && (rest == [] || SpaceWidth(rest) > 0)
  }

  /** The parts of `s` between white space. */
  ghost predicate IsSplit(s: bytes, parts: seq<bytes>)
    decreases |parts|
  {
    if parts == [] then AllSpace(s)
    else exists before, rest :: FirstPart(s, before, parts[0], rest) && IsSplit(rest, parts[1..])
  }

  lemma {:induction false} TokensSkip(before: bytes, s: bytes)
    requires AllSpace(before)
    ensures Tokens(before + s) == Tokens(s)
    decreases |before|
  {
    if before == [] {
      assert before + s == s;
    } else {
      SpaceFirst(before, s);
      TokensSkip(before[SpaceWidth(before)..], s);
    }
  }

  lemma NoSpaceBefore(a: bytes, b: bytes)
    requires a != [] && SpaceWidth(a) == 0 && (b == [] || SpaceWidth(b) > 0)
    ensures SpaceWidth(a + b) == 0
  {
    assert b != [] ==> !Tail(b[0]);
  }

  lemma {:induction false} TokenEnds(token: bytes, rest: bytes)
    requires NoSpace(token) && (rest == [] || SpaceWidth(rest) > 0)
    ensures TokenLength(token + rest) == |token|
    decreases |token|
  {
    if token == [] {
      assert token + rest == rest;
    } else {
      NoSpaceAtEnd(token);
      NoSpaceBefore(token, rest);
      assert (token + rest)[1..] == token[1..] + rest;
      NoSpaceTail(token);
      TokenEnds(token[1..], rest);
    }
  }

  lemma {:induction false} SplitIsTokens(s: bytes, parts: seq<bytes>)
    requires IsSplit(s, parts)
    ensures Tokens(s) == parts
    decreases |parts|
  {
    if parts == [] {
      TokensSkip(s, []);
      assert s + [] == s;
    } else {
      var before, rest :| FirstPart(s, before, parts[0], rest) && IsSplit(rest, parts[1..]);
      SplitIsTokens(rest, parts[1..]);
      NextToken(s, before, parts[0], rest);
    }
  }

  lemma NextToken(s: bytes, before: bytes, token: bytes, rest: bytes)
    requires FirstPart(s, before, token, rest)
    ensures Tokens(s) == [token] + Tokens(rest)
  {
    Associates(before, token, rest);
    TokensSkip(before, token + rest);
    PartThenRest(token, rest);
  }

  lemma PartThenRest(token: bytes, rest: bytes)
    requires token != [] && NoSpace(token) && (rest == [] || SpaceWidth(rest) > 0)
    ensures Tokens(token + rest) == [token] + Tokens(rest)
  {
    TokenEnds(token, rest);
    NoSpaceAtEnd(token);
    NoSpaceBefore(token, rest);
    assert (token + rest)[..|token|] == token && (token + rest)[|token|..] == rest;
  }

  lemma {:induction false} TokensAreSplit(s: bytes)
    ensures IsSplit(s, Tokens(s))
    decreases |s|
  {
    if s != [] {
      var before := TrimStartParts(s);
      var t := TrimStart(s);
      TokensSkip(before, t);
      if t == [] {
        assert before == s;
      } else {
        var rest := t[TokenLength(t)..];
        TokensAreSplit(rest);
        FirstIsPart(s, before, t);
        OnePartMore(s, before, t[..TokenLength(t)], rest, Tokens(rest));
      }
    }
  }

  lemma FirstIsPart(s: bytes, before: bytes, t: bytes)
    requires s == before + t && AllSpace(before) && t != [] && SpaceWidth(t) == 0
    ensures FirstPart(s, before, t[..TokenLength(t)], t[TokenLength(t)..])
  {
    TokenNoSpace(t);
    TwoParts(s, before, t, TokenLength(t));
  }

  lemma TwoParts(s: bytes, before: bytes, t: bytes, n: nat)
    requires s == before + t && n <= |t|
    ensures s == before + t[..n] + t[n..]
  {
  }

  lemma OnePartMore(s: bytes, before: bytes, part: bytes, rest: bytes, parts: seq<bytes>)
    requires FirstPart(s, before, part, rest) && IsSplit(rest, parts)
    ensures IsSplit(s, [part] + parts)
  {
    var all := [part] + parts;
    assert all[1..] == parts && all[0] == part;
    assert FirstPart(s, before, all[0], rest) && IsSplit(rest, all[1..]);
  }

  /** The parts that `split_whitespace` gives are the parts between white space. */
  lemma TokensExactly(s: bytes, parts: seq<bytes>)
    ensures Tokens(s) == parts <==> IsSplit(s, parts)
  {
    TokensAreSplit(s);
    if IsSplit(s, parts) {
      SplitIsTokens(s, parts);
    }
  }
}
