/** UTF-8 text: which byte strings are text, and the operations of the Rust standard library that
    look for white space in it. */
module Text {
  import opened Bytes
  import opened Sequences

  // Well-formed UTF-8 (section 4 of RFC 3629).

  predicate Tail(b: byte) {
    0x80 <= b <= 0xBF
  }

  predicate TwoBytes(s: bytes) {
    |s| >= 2 && 0xC2 <= s[0] <= 0xDF && Tail(s[1])
  }

  predicate ThreeBytes(s: bytes) {
    && |s| >= 3 && 0xE0 <= s[0] <= 0xEF && Tail(s[1]) && Tail(s[2])
    && (s[0] == 0xE0 ==> s[1] >= 0xA0) && (s[0] == 0xED ==> s[1] <= 0x9F)
  }

  predicate FourBytes(s: bytes) {
    && |s| >= 4 && 0xF0 <= s[0] <= 0xF4 && Tail(s[1]) && Tail(s[2]) && Tail(s[3])
    && (s[0] == 0xF0 ==> s[1] >= 0x90) && (s[0] == 0xF4 ==> s[1] <= 0x8F)
  }

  /** The number of bytes of the character at the start of `s`, or 0 if there is none. */
  function CharWidth(s: bytes): (n: nat)
    ensures n <= |s|
  {
    if s == [] then 0
    else if s[0] < 0x80 then 1
    else if TwoBytes(s) then 2
    else if ThreeBytes(s) then 3
    else if FourBytes(s) then 4
    else 0
  }

  /** `str::from_utf8` succeeds. */
  predicate IsText(s: bytes)
    decreases |s|
  {
    s == [] || (CharWidth(s) > 0 && IsText(s[CharWidth(s)..]))
  }

  lemma CharWidthMore(a: bytes, b: bytes)
    requires CharWidth(a) > 0
    ensures CharWidth(a + b) == CharWidth(a)
    ensures (a + b)[CharWidth(a)..] == a[CharWidth(a)..] + b
  {
  }

  lemma {:induction false} TextConcat(a: bytes, b: bytes)
    requires IsText(a)
    ensures IsText(a + b) <==> IsText(b)
    decreases |a|
  {
    if a == [] {
      assert a + b == b;
    } else {
      CharWidthMore(a, b);
      TextConcat(a[CharWidth(a)..], b);
    }
  }

  /** No character reaches over an ASCII byte. */
  lemma CharBeforeAscii(a: bytes, b: bytes)
    requires a != [] && (b == [] || b[0] < 0x80)
    ensures CharWidth(a + b) == CharWidth(a)
  {
    assert forall i | 0 <= i < |a| :: (a + b)[i] == a[i];
    assert b != [] ==> (a + b)[|a|] == b[0];
  }

  lemma {:induction false} TextBeforeAscii(a: bytes, b: bytes)
    requires b == [] || b[0] < 0x80
    requires IsText(a + b)
    ensures IsText(a) && IsText(b)
    decreases |a|
  {
    if a == [] {
      assert a + b == b;
    } else {
      CharBeforeAscii(a, b);
      var n := CharWidth(a);
      assert (a + b)[n..] == a[n..] + b;
      TextBeforeAscii(a[n..], b);
    }
  }

  predicate IsAscii(s: bytes) {
    forall i | 0 <= i < |s| :: s[i] < 0x80
  }

  lemma {:induction false} AsciiIsText(s: bytes)
    requires IsAscii(s)
    ensures IsText(s)
    decreases |s|
  {
    if s != [] {
      AsciiIsText(s[1..]);
    }
  }

  // White space: the characters with the Unicode property White_Space.

  predicate IsSpace(b: byte) {
    0x09 <= b <= 0x0D || b == SPACE
  }

  /** U+0085 and U+00A0. */
  predicate IsSpace2(a: byte, b: byte) {
    a == 0xC2 && (b == 0x85 || b == 0xA0)
  }

  /** U+1680, U+2000 to U+200A, U+2028, U+2029, U+202F, U+205F and U+3000. */
  predicate IsSpace3(a: byte, b: byte, c: byte) {
    || (a == 0xE1 && b == 0x9A && c == 0x80)
    || (a == 0xE2 && b == 0x80 && (0x80 <= c <= 0x8A || c == 0xA8 || c == 0xA9 || c == 0xAF))
    || (a == 0xE2 && b == 0x81 && c == 0x9F)
    || (a == 0xE3 && b == 0x80 && c == 0x80)
  }

  /** The number of bytes of the white-space character at the start of `s`, or 0. */
  function SpaceWidth(s: bytes): (n: nat)
    ensures n <= |s|
  {
    if |s| >= 1 && IsSpace(s[0]) then 1
    else if |s| >= 2 && IsSpace2(s[0], s[1]) then 2
    else if |s| >= 3 && IsSpace3(s[0], s[1], s[2]) then 3
    else 0
  }

  /** The same at the end of `s`. */
  function LastSpaceWidth(s: bytes): (n: nat)
    ensures n <= |s|
  {
    if |s| >= 1 && IsSpace(s[|s| - 1]) then 1
    else if |s| >= 2 && IsSpace2(s[|s| - 2], s[|s| - 1]) then 2
    else if |s| >= 3 && IsSpace3(s[|s| - 3], s[|s| - 2], s[|s| - 1]) then 3
    else 0
  }

  /** White space is a character. */
  lemma SpaceIsChar(s: bytes)
    requires SpaceWidth(s) > 0
    ensures CharWidth(s) == SpaceWidth(s)
  {
  }

  predicate NoSpace(s: bytes) {
    forall i | 0 <= i < |s| :: SpaceWidth(s[i..]) == 0
  }

  lemma SpaceBeforeAscii(a: bytes, b: bytes)
    requires a != [] && (b == [] || b[0] < 0x80)
    ensures SpaceWidth(a + b) == SpaceWidth(a)
  {
    assert forall i | 0 <= i < |a| :: (a + b)[i] == a[i];
    assert b != [] ==> (a + b)[|a|] == b[0];
  }

  lemma AsciiNoSpace(s: bytes)
    requires forall i | 0 <= i < |s| :: s[i] < 0x80 && !IsSpace(s[i])
    ensures NoSpace(s)
  {
    forall i | 0 <= i < |s|
      ensures SpaceWidth(s[i..]) == 0
    {
      assert s[i..][0] == s[i];
    }
  }

  /** Text without white space has no ASCII white space, in particular no line end. */
  lemma NoSpaceByte(s: bytes, b: byte)
    requires NoSpace(s) && IsSpace(b)
    ensures b !in s
  {
    forall i | 0 <= i < |s|
      ensures s[i] != b
    {
      assert SpaceWidth(s[i..]) == 0;
      assert s[i..][0] == s[i];
    }
  }

  /** `trim_start` */
  function TrimStart(s: bytes): bytes
    decreases |s|
  {
    if SpaceWidth(s) > 0 then TrimStart(s[SpaceWidth(s)..]) else s
  }

  /** `trim_end` */
  function TrimEnd(s: bytes): bytes
    decreases |s|
  {
    if LastSpaceWidth(s) > 0 then TrimEnd(s[..|s| - LastSpaceWidth(s)]) else s
  }

  function Trim(s: bytes): bytes {
    TrimEnd(TrimStart(s))
  }

  lemma NoSpaceAtEnd(s: bytes)
    requires NoSpace(s)
    ensures SpaceWidth(s) == 0 && LastSpaceWidth(s) == 0
  {
    if s != [] {
      assert s[0..] == s;
      assert SpaceWidth(s[0..]) == 0 && SpaceWidth(s[|s| - 1..]) == 0;
      assert |s| >= 2 ==> SpaceWidth(s[|s| - 2..]) == 0;
      assert |s| >= 3 ==> SpaceWidth(s[|s| - 3..]) == 0;
    }
  }

  lemma TrimNothing(s: bytes)
    requires NoSpace(s)
    ensures Trim(s) == s
  {
    NoSpaceAtEnd(s);
  }

  lemma TrimLeadingSpace(s: bytes)
    ensures Trim([SPACE] + s) == Trim(s)
  {
    assert ([SPACE] + s)[1..] == s;
  }

  ghost predicate SliceOf(v: bytes, s: bytes) {
    exists i, j :: 0 <= i <= j <= |s| && v == s[i..j]
  }

  lemma SliceOfSlice(u: bytes, v: bytes, s: bytes)
    requires SliceOf(u, v) && SliceOf(v, s)
    ensures SliceOf(u, s)
  {
    var i, j :| 0 <= i <= j <= |s| && v == s[i..j];
    var k, l :| 0 <= k <= l <= |v| && u == v[k..l];
    SliceTwice(s, i, j, k, l);
    var a, b := i + k, i + l;
    assert 0 <= a <= b <= |s| && u == s[a..b];
  }

  lemma SliceIs(s: bytes, i: nat, j: nat)
    requires i <= j <= |s|
    ensures SliceOf(s[i..j], s)
  {
  }

  lemma {:induction false} TrimStartIsSlice(s: bytes)
    ensures SliceOf(TrimStart(s), s)
    decreases |s|
  {
    if SpaceWidth(s) > 0 {
      TrimStartIsSlice(s[SpaceWidth(s)..]);
      SliceIs(s, SpaceWidth(s), |s|);
      SliceOfSlice(TrimStart(s), s[SpaceWidth(s)..], s);
    } else {
      assert s == s[0..|s|];
    }
  }

  lemma {:induction false} TrimEndIsSlice(s: bytes)
    ensures SliceOf(TrimEnd(s), s)
    decreases |s|
  {
    if LastSpaceWidth(s) > 0 {
      var front := s[..|s| - LastSpaceWidth(s)];
      TrimEndIsSlice(front);
      SliceIs(s, 0, |front|);
      assert front == s[0..|front|];
      SliceOfSlice(TrimEnd(s), front, s);
    } else {
      assert s == s[0..|s|];
    }
  }

  /** Trimming only takes away at both ends. */
  lemma TrimIsSlice(s: bytes)
    ensures SliceOf(Trim(s), s)
  {
    TrimStartIsSlice(s);
    TrimEndIsSlice(TrimStart(s));
    SliceOfSlice(Trim(s), TrimStart(s), s);
  }

  // The white-space separated parts of a line.

  function TokenLength(s: bytes): (n: nat)
    ensures n <= |s| && (n < |s| ==> SpaceWidth(s[n..]) > 0)
    decreases |s|
  {
    if s == [] || SpaceWidth(s) > 0 then 0 else
      var n := TokenLength(s[1..]);
      assert s[1..][n..] == s[n + 1..];
      n + 1
  }

  /** `split_whitespace` */
  function Tokens(s: bytes): seq<bytes>
    decreases |s|
  {
    if s == [] then []
    else if SpaceWidth(s) > 0 then Tokens(s[SpaceWidth(s)..])
    else [s[..TokenLength(s)]] + Tokens(s[TokenLength(s)..])
  }

  lemma {:induction false} TokenLengthIs(token: bytes, rest: bytes)
    requires NoSpace(token) && (rest == [] || IsSpace(rest[0]))
    ensures TokenLength(token + rest) == |token|
    decreases |token|
  {
    if token == [] {
      assert token + rest == rest;
    } else {
      assert token[0..] == token;
      assert SpaceWidth(token[0..]) == 0;
      SpaceBeforeAscii(token, rest);
      assert (token + rest)[1..] == token[1..] + rest;
      NoSpaceTail(token);
      TokenLengthIs(token[1..], rest);
    }
  }

  lemma NoSpaceTail(s: bytes)
    requires NoSpace(s) && s != []
    ensures NoSpace(s[1..])
  {
    forall i | 0 <= i < |s[1..]|
      ensures SpaceWidth(s[1..][i..]) == 0
    {
      assert s[1..][i..] == s[i + 1..];
    }
  }

  lemma FirstToken(token: bytes, rest: bytes)
    requires token != [] && NoSpace(token) && (rest == [] || IsSpace(rest[0]))
    ensures Tokens(token + rest) == [token] + Tokens(rest)
  {
    TokenLengthIs(token, rest);
    NoSpaceAtEnd(token);
    SpaceBeforeAscii(token, rest);
    assert (token + rest)[..|token|] == token && (token + rest)[|token|..] == rest;
  }

  lemma TokensAfterSpace(s: bytes)
    ensures Tokens([SPACE] + s) == Tokens(s)
  {
    assert ([SPACE] + s)[1..] == s;
  }

  /** A token has no white space in it. */
  lemma {:induction false} TokenHasNoSpace(s: bytes, i: nat)
    requires i < TokenLength(s)
    ensures SpaceWidth(s[i..]) == 0
    decreases |s|
  {
    if i == 0 {
      assert s[0..] == s;
    } else {
      TokenHasNoSpace(s[1..], i - 1);
      assert s[1..][i - 1..] == s[i..];
    }
  }

  lemma SpaceWidthMore(a: bytes, b: bytes)
    requires SpaceWidth(a) > 0
    ensures SpaceWidth(a + b) > 0
  {
  }

  lemma CutSlice(s: bytes, i: nat, n: nat)
    requires i <= n <= |s|
    ensures s[..n][i..] + s[n..] == s[i..]
  {
  }

  lemma TokenNoSpace(s: bytes)
    ensures NoSpace(s[..TokenLength(s)])
  {
    var n := TokenLength(s);
    forall i | 0 <= i < n
      ensures SpaceWidth(s[..n][i..]) == 0
    {
      TokenHasNoSpace(s, i);
      CutSlice(s, i, n);
      if SpaceWidth(s[..n][i..]) > 0 {
        SpaceWidthMore(s[..n][i..], s[n..]);
      }
    }
  }

  lemma {:induction false} TokensHaveNoSpace(s: bytes)
    ensures forall i | 0 <= i < |Tokens(s)| :: Tokens(s)[i] != [] && NoSpace(Tokens(s)[i])
    decreases |s|
  {
    if s != [] {
      if SpaceWidth(s) > 0 {
        TokensHaveNoSpace(s[SpaceWidth(s)..]);
      } else {
        TokensHaveNoSpace(s[TokenLength(s)..]);
        TokenNoSpace(s);
      }
    }
  }
}
