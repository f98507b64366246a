/** ChaCha20 as sections 2.1 to 2.4 of RFC 8439 define it, on 32-bit words. */
module ChaCha20Spec {
  import opened Bytes

  type word = bv32
  /** The sixteen words of section 2.2. */
  type State = s: seq<word> | |s| == 16 witness seq(16, _ => 0)
  type Constants = s: seq<word> | |s| == 4 witness seq(4, _ => 0)
  type Key = s: seq<word> | |s| == 8 witness seq(8, _ => 0)
  type Nonce = s: seq<word> | |s| == 3 witness seq(3, _ => 0)

  // Section 2.1: the quarter round.

  function Add(x: word, y: word): word { x + y }

  function Sub(x: word, y: word): word { x - y }

  function Xor(x: word, y: word): word { x ^ y }

  /** The four rotation amounts of section 2.1. */
  type Amount = n: nat | n == 16 || n == 12 || n == 8 || n == 7 witness 16

  function Rotl(x: word, n: Amount): word
  {
    if n == 16 then (x << 16) | (x >> 16)
    else if n == 12 then (x << 12) | (x >> 20)
    else if n == 8 then (x << 8) | (x >> 24)
    else (x << 7) | (x >> 25)
  }

  function Rotr(x: word, n: Amount): word
  {
    if n == 16 then (x >> 16) | (x << 16)
    else if n == 12 then (x >> 12) | (x << 20)
    else if n == 8 then (x >> 8) | (x << 24)
    else (x >> 7) | (x << 25)
  }

  /** One line of section 2.1: `a += b; d ^= a; d <<<= n`. */
  function Mix(a: word, b: word, d: word, n: Amount): (word, word)
  {
    (Add(a, b), Rotl(Xor(d, Add(a, b)), n))
  }

  function Unmix(a: word, b: word, d: word, n: Amount): (word, word)
  {
    (Sub(a, b), Xor(Rotr(d, n), a))
  }

  /** Two lines of the quarter round, on `a += b` and then on `c += d`. */
  function HalfRound(a: word, b: word, c: word, d: word, m: Amount, n: Amount): (word, word, word, word)
  {
    var (a1, d1) := Mix(a, b, d, m);
    var (c1, b1) := Mix(c, d1, b, n);
    (a1, b1, c1, d1)
  }

  function QuarterRound(a: word, b: word, c: word, d: word): (word, word, word, word) {
    var (a1, b1, c1, d1) := HalfRound(a, b, c, d, 16, 12);
    HalfRound(a1, b1, c1, d1, 8, 7)
  }

  function UndoHalfRound(a: word, b: word, c: word, d: word, m: Amount, n: Amount): (word, word, word, word)
  {
    var (c0, b0) := Unmix(c, d, b, n);
    var (a0, d0) := Unmix(a, b0, d, m);
    (a0, b0, c0, d0)
  }

  function UndoQuarterRound(a: word, b: word, c: word, d: word): (word, word, word, word) {
    var (a1, b1, c1, d1) := UndoHalfRound(a, b, c, d, 8, 7);
    UndoHalfRound(a1, b1, c1, d1, 16, 12)
  }

  // The word operations invert. Each fact is asserted on an explicit term, which the solver
  // simplifies at once; it does not see through two additions by itself.

  lemma AddSub(a: word, b: word)
    ensures Sub(Add(a, b), b) == a
  {
    assert Sub(a + b, b) == a;
  }

  lemma SubAdd(a: word, b: word)
    ensures Add(Sub(a, b), b) == a
  {
    assert Add(a - b, b) == a;
  }

  lemma XorTwice(a: word, b: word)
    ensures Xor(Xor(a, b), b) == a
  {
    assert Xor(a ^ b, b) == a;
  }

  lemma Rotation16Inverts(x: word)
    ensures Rotr(Rotl(x, 16), 16) == x && Rotl(Rotr(x, 16), 16) == x
  {
  }

  lemma Rotation12Inverts(x: word)
    ensures Rotr(Rotl(x, 12), 12) == x && Rotl(Rotr(x, 12), 12) == x
  {
  }

  lemma Rotation8Inverts(x: word)
    ensures Rotr(Rotl(x, 8), 8) == x && Rotl(Rotr(x, 8), 8) == x
  {
  }

  lemma Rotation7Inverts(x: word)
    ensures Rotr(Rotl(x, 7), 7) == x && Rotl(Rotr(x, 7), 7) == x
  {
  }

  lemma RotationInverts(x: word, n: Amount)
    ensures Rotr(Rotl(x, n), n) == x && Rotl(Rotr(x, n), n) == x
  {
    if n == 16 {
      Rotation16Inverts(x);
    } else if n == 12 {
      Rotation12Inverts(x);
    } else if n == 8 {
      Rotation8Inverts(x);
    } else {
      Rotation7Inverts(x);
    }
  }

  lemma MixInverts(a: word, b: word, d: word, n: Amount)
    ensures Unmix(Mix(a, b, d, n).0, b, Mix(a, b, d, n).1, n) == (a, d)
  {
    AddSub(a, b);
    RotationInverts(Xor(d, Add(a, b)), n);
    XorTwice(d, Add(a, b));
  }

  lemma UnmixInverts(a: word, b: word, d: word, n: Amount)
    ensures Mix(Unmix(a, b, d, n).0, b, Unmix(a, b, d, n).1, n) == (a, d)
  {
    SubAdd(a, b);
    RotationInverts(d, n);
    XorTwice(Rotr(d, n), a);
  }

  lemma HalfRoundInverts(a: word, b: word, c: word, d: word, m: Amount, n: Amount)
    ensures var v := HalfRound(a, b, c, d, m, n); UndoHalfRound(v.0, v.1, v.2, v.3, m, n) == (a, b, c, d)
    ensures var v := UndoHalfRound(a, b, c, d, m, n); HalfRound(v.0, v.1, v.2, v.3, m, n) == (a, b, c, d)
  {
    var (a1, d1) := Mix(a, b, d, m);
    MixInverts(a, b, d, m);
    MixInverts(c, d1, b, n);
    var (c0, b0) := Unmix(c, d, b, n);
    UnmixInverts(c, d, b, n);
    UnmixInverts(a, b0, d, m);
  }

  /** The quarter round has an explicit inverse, on both sides. */
  lemma QuarterRoundInverts(a: word, b: word, c: word, d: word)
    ensures var v := QuarterRound(a, b, c, d); UndoQuarterRound(v.0, v.1, v.2, v.3) == (a, b, c, d)
    ensures var v := UndoQuarterRound(a, b, c, d); QuarterRound(v.0, v.1, v.2, v.3) == (a, b, c, d)
  {
    var (a1, b1, c1, d1) := HalfRound(a, b, c, d, 16, 12);
    HalfRoundInverts(a, b, c, d, 16, 12);
    HalfRoundInverts(a1, b1, c1, d1, 8, 7);
    var (a2, b2, c2, d2) := UndoHalfRound(a, b, c, d, 8, 7);
    HalfRoundInverts(a, b, c, d, 8, 7);
    HalfRoundInverts(a2, b2, c2, d2, 16, 12);
  }

  // Section 2.2: a quarter round on four of the sixteen words.

  datatype Indices = Indices(a: nat, b: nat, c: nat, d: nat) {
    predicate Valid() {
      a < 16 && b < 16 && c < 16 && d < 16 && a != b && a != c && a != d && b != c && b != d && c != d
    }

    predicate Disjoint(other: Indices) {
      {a, b, c, d} !! {other.a, other.b, other.c, other.d}
    }
  }

  /** Four different words. */
  type Quad = q: Indices | q.Valid() witness Indices(0, 1, 2, 3)

  function Put(s: State, q: Quad, v: (word, word, word, word)): State
  {
    s[q.a := v.0][q.b := v.1][q.c := v.2][q.d := v.3]
  }

  function RoundAt(s: State, q: Quad): State
  {
    Put(s, q, QuarterRound(s[q.a], s[q.b], s[q.c], s[q.d]))
  }

  function UndoRoundAt(s: State, q: Quad): State
  {
    Put(s, q, UndoQuarterRound(s[q.a], s[q.b], s[q.c], s[q.d]))
  }

  lemma RoundAtUndone(s: State, q: Quad)
    ensures UndoRoundAt(RoundAt(s, q), q) == s
  {
    QuarterRoundInverts(s[q.a], s[q.b], s[q.c], s[q.d]);
    PutBack(s, q, QuarterRound(s[q.a], s[q.b], s[q.c], s[q.d]));
  }

  lemma UndoneRoundAt(s: State, q: Quad)
    ensures RoundAt(UndoRoundAt(s, q), q) == s
  {
    QuarterRoundInverts(s[q.a], s[q.b], s[q.c], s[q.d]);
    PutBack(s, q, UndoQuarterRound(s[q.a], s[q.b], s[q.c], s[q.d]));
  }

  lemma RoundAtInverts(s: State, q: Quad)
    ensures UndoRoundAt(RoundAt(s, q), q) == s
    ensures RoundAt(UndoRoundAt(s, q), q) == s
  {
    RoundAtUndone(s, q);
    UndoneRoundAt(s, q);
  }

  lemma PutBack(s: State, q: Quad, v: (word, word, word, word))
    ensures var t := Put(s, q, v);
            (t[q.a], t[q.b], t[q.c], t[q.d]) == v && Put(t, q, (s[q.a], s[q.b], s[q.c], s[q.d])) == s
  {
  }

  lemma PutsCommute(s: State, q: Quad, r: Quad, v: (word, word, word, word), w: (word, word, word, word))
    requires q.Disjoint(r)
    ensures Put(Put(s, q, v), r, w) == Put(Put(s, r, w), q, v)
  {
  }

  lemma PutKeepsOthers(s: State, q: Quad, r: Quad, v: (word, word, word, word))
    requires q.Disjoint(r)
    ensures var t := Put(s, q, v); (t[r.a], t[r.b], t[r.c], t[r.d]) == (s[r.a], s[r.b], s[r.c], s[r.d])
  {
  }

  /** Quarter rounds on disjoint words commute: the four column rounds may run in any order. */
  lemma DisjointRoundsCommute(s: State, q: Quad, r: Quad)
    requires q.Disjoint(r)
    ensures RoundAt(RoundAt(s, q), r) == RoundAt(RoundAt(s, r), q)
  {
    var v := QuarterRound(s[q.a], s[q.b], s[q.c], s[q.d]);
    var w := QuarterRound(s[r.a], s[r.b], s[r.c], s[r.d]);
    PutKeepsOthers(s, q, r, v);
    PutKeepsOthers(s, r, q, w);
    PutsCommute(s, q, r, v, w);
  }

  // Section 2.3: the block function.

  /** A column round followed by a diagonal round. */
  const SCHEDULE: seq<Quad> := [
    Indices(0, 4, 8, 12), Indices(1, 5, 9, 13), Indices(2, 6, 10, 14), Indices(3, 7, 11, 15),
    Indices(0, 5, 10, 15), Indices(1, 6, 11, 12), Indices(2, 7, 8, 13), Indices(3, 4, 9, 14)]

  function RunRounds(s: State, quads: seq<Quad>): State
    decreases |s|, |quads|
  {
    if quads == [] then s else RunRounds(RoundAt(s, quads[0]), quads[1..])
  }

  lemma {:induction false} RunRoundsSplits(s: State, quads: seq<Quad>, i: nat)
    requires i <= |quads|
    ensures RunRounds(s, quads) == RunRounds(RunRounds(s, quads[..i]), quads[i..])
    decreases i
  {
    if i > 0 {
      RunRoundsSplits(RoundAt(s, quads[0]), quads[1..], i - 1);
      assert quads[..i][1..] == quads[1..][..i - 1] && quads[1..][i - 1..] == quads[i..];
    } else {
      assert quads[0..] == quads;
    }
  }

  lemma TwoRounds(s: State, q0: Quad, q1: Quad)
    ensures RunRounds(s, [q0, q1]) == RoundAt(RoundAt(s, q0), q1)
  {
    assert [q0, q1][1..] == [q1] && [q1][1..] == [];
    assert RunRounds(RoundAt(s, q0), [q1]) == RoundAt(RoundAt(s, q0), q1);
  }

  lemma FourRounds(s: State, q0: Quad, q1: Quad, q2: Quad, q3: Quad)
    ensures RunRounds(s, [q0, q1, q2, q3]) == RoundAt(RoundAt(RoundAt(RoundAt(s, q0), q1), q2), q3)
  {
    RunRoundsSplits(s, [q0, q1, q2, q3], 2);
    assert [q0, q1, q2, q3][..2] == [q0, q1] && [q0, q1, q2, q3][2..] == [q2, q3];
    TwoRounds(s, q0, q1);
    TwoRounds(RoundAt(RoundAt(s, q0), q1), q2, q3);
  }

  function UndoRounds(s: State, quads: seq<Quad>): State
    decreases |s|, |quads|
  {
    if quads == [] then s else UndoRoundAt(UndoRounds(s, quads[1..]), quads[0])
  }

  lemma {:induction false} RunRoundsInverts(s: State, quads: seq<Quad>)
    ensures UndoRounds(RunRounds(s, quads), quads) == s
    ensures RunRounds(UndoRounds(s, quads), quads) == s
    decreases |s|, |quads|
  {
    if quads != [] {
      RoundAtInverts(s, quads[0]);
      RunRoundsInverts(RoundAt(s, quads[0]), quads[1..]);
      RunRoundsInverts(s, quads[1..]);
      RoundAtInverts(UndoRounds(s, quads[1..]), quads[0]);
    }
  }

  function DoubleRounds(s: State, quads: seq<Quad>, n: nat): State
    decreases |s|, n
  {
    if n == 0 then s else RunRounds(DoubleRounds(s, quads, n - 1), quads)
  }

  function UndoDoubleRounds(s: State, quads: seq<Quad>, n: nat): State
    decreases |s|, n
  {
    if n == 0 then s else UndoDoubleRounds(UndoRounds(s, quads), quads, n - 1)
  }

  lemma {:induction false} UndoAfterRounds(s: State, quads: seq<Quad>, n: nat)
    ensures UndoDoubleRounds(DoubleRounds(s, quads, n), quads, n) == s
    decreases n
  {
    if n > 0 {
      var t := DoubleRounds(s, quads, n - 1);
      RunRoundsInverts(t, quads);
      UndoAfterRounds(s, quads, n - 1);
    }
  }

  lemma {:induction false} RoundsAfterUndo(s: State, quads: seq<Quad>, n: nat)
    ensures DoubleRounds(UndoDoubleRounds(s, quads, n), quads, n) == s
    decreases n
  {
    if n > 0 {
      RunRoundsInverts(s, quads);
      RoundsAfterUndo(UndoRounds(s, quads), quads, n - 1);
    }
  }

  /** The 20-round core is a permutation of the 16-word states: undoing the ten double rounds in
      reverse order recovers every start state, and every state is the image of one. */
  lemma CoreIsPermutation(s: State)
    ensures UndoDoubleRounds(DoubleRounds(s, SCHEDULE, 10), SCHEDULE, 10) == s
    ensures DoubleRounds(UndoDoubleRounds(s, SCHEDULE, 10), SCHEDULE, 10) == s
  {
    UndoAfterRounds(s, SCHEDULE, 10);
    RoundsAfterUndo(s, SCHEDULE, 10);
  }

  function ToBytesLe(w: word): (b: seq<byte>)
    ensures |b| == 4
  {
    [(w & 0xFF) as bv8, ((w >> 8) & 0xFF) as bv8, ((w >> 16) & 0xFF) as bv8, ((w >> 24) & 0xFF) as bv8]
  }

  /** `u32::from_le_bytes` */
  function FromBytesLe(b: seq<byte>): word
    requires |b| == 4
  {
    b[0] as bv32 | (b[1] as bv32 << 8) | (b[2] as bv32 << 16) | (b[3] as bv32 << 24)
  }

  lemma FromToBytesLe(w: word)
    ensures FromBytesLe(ToBytesLe(w)) == w
  {
  }

  lemma ToFromBytesLe(b: seq<byte>)
    requires |b| == 4
    ensures ToBytesLe(FromBytesLe(b)) == b
  {
  }

  /** "expand 32-byte k", read as four little-endian words. */
  const CONSTANTS: Constants := [0x61707865, 0x3320646e, 0x79622d32, 0x6b206574]

  lemma SerializeSnoc(words: seq<word>, w: word)
    ensures Serialize(words + [w]) == Serialize(words) + ToBytesLe(w)
  {
    assert (words + [w])[..|words|] == words;
  }

  function InitialState(constants: Constants, key: Key, counter: word, nonce: Nonce): State
  {
    constants + key + [counter] + nonce
  }

  function AddWords(s: State, t: State): State {
    seq(16, i requires 0 <= i < 16 => Add(s[i], t[i]))
  }

  /** The words serialised one after the other. */
  function Serialize(words: seq<word>): (b: seq<byte>)
    ensures |b| == 4 * |words|
  {
    if words == [] then [] else Serialize(words[..|words| - 1]) + ToBytesLe(words[|words| - 1])
  }

  function Block(s: State): (b: seq<byte>)
    ensures |b| == 64
  {
    Serialize(AddWords(s, DoubleRounds(s, SCHEDULE, 10)))
  }

  function SubWords(s: State, t: State): State {
    seq(16, i requires 0 <= i < 16 => Sub(s[i], t[i]))
  }

  lemma SumMinusFirst(a: word, b: word)
    ensures Sub(Add(a, b), a) == b
  {
    assert Sub(a + b, a) == b;
  }

  lemma WordsMinusFirst(s: State, t: State)
    ensures SubWords(AddWords(s, t), s) == t
  {
    forall i | 0 <= i < 16
      ensures SubWords(AddWords(s, t), s)[i] == t[i]
    {
      SumMinusFirst(s[i], t[i]);
    }
  }

  /** A block is sixteen words in little-endian order; what they are above the start state is ten double
      rounds away from it. */
  lemma BlockIsTenDoubleRounds(s: State) returns (words: State)
    ensures Block(s) == Serialize(words)
    ensures UndoDoubleRounds(SubWords(words, s), SCHEDULE, 10) == s
  {
    words := AddWords(s, DoubleRounds(s, SCHEDULE, 10));
    WordsMinusFirst(s, DoubleRounds(s, SCHEDULE, 10));
    CoreIsPermutation(s);
  }

  // Section 2.4: encryption.

  /** The block counter after `i` blocks; addition of words wraps at 2^32. */
  function CounterAt(counter: word, i: nat): word {
    if i == 0 then counter else Add(CounterAt(counter, i - 1), 1)
  }

  /** Everything the block function depends on, except the block counter. */
  datatype Cipher = Cipher(constants: Constants, key: Key, nonce: Nonce) {
    function BlockAt(counter: word): (b: seq<byte>)
      ensures |b| == 64
    {
      Block(InitialState(constants, key, counter, nonce))
    }
  }

  function BlockByte(cipher: Cipher, counter: word, k: nat): byte
    requires k < 64
  {
    cipher.BlockAt(counter)[k]
  }

  /** Byte `j` of the key stream is byte `j % 64` of the block with counter `counter + j / 64`. */
  function StreamByte(cipher: Cipher, counter: word, j: nat): byte
  {
    BlockByte(cipher, CounterAt(counter, j / 64), j % 64)
  }

  function KeyStream(cipher: Cipher, counter: word, n: nat): (stream: seq<byte>)
    ensures |stream| == n
  {
    seq(n, j requires 0 <= j < n => StreamByte(cipher, counter, j))
  }

  function XorBytes(a: seq<byte>, b: seq<byte>): (c: seq<byte>)
    requires |a| == |b|
    ensures |c| == |a|
  {
    seq(|a|, j requires 0 <= j < |a| => a[j] ^ b[j])
  }

  function Encrypt(cipher: Cipher, counter: word, input: seq<byte>): (output: seq<byte>)
    ensures |output| == |input|
  {
    XorBytes(KeyStream(cipher, counter, |input|), input)
  }
}
