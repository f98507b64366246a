/** The test vector of section 2.3.2 of RFC 8439: the first block under one key, nonce and counter, with
    the states before and after each of its twenty rounds. */
module ChaCha20Vector {
  import opened Bytes
  import opened Sequences
  import opened ChaCha20Spec
  import opened ChaCha20Theorems
  import opened CircuitSpec

  // The rounds as equations between states.

  /** From `s` to `t` by the four column rounds. */
  predicate Columns(s: State, t: State) {
    && (t[0], t[4], t[8], t[12]) == QuarterRound(s[0], s[4], s[8], s[12])
    && (t[1], t[5], t[9], t[13]) == QuarterRound(s[1], s[5], s[9], s[13])
    && (t[2], t[6], t[10], t[14]) == QuarterRound(s[2], s[6], s[10], s[14])
    && (t[3], t[7], t[11], t[15]) == QuarterRound(s[3], s[7], s[11], s[15])
  }

  /** From `s` to `t` by the four diagonal rounds. */
  predicate Diagonals(s: State, t: State) {
    && (t[0], t[5], t[10], t[15]) == QuarterRound(s[0], s[5], s[10], s[15])
    && (t[1], t[6], t[11], t[12]) == QuarterRound(s[1], s[6], s[11], s[12])
    && (t[2], t[7], t[8], t[13]) == QuarterRound(s[2], s[7], s[8], s[13])
    && (t[3], t[4], t[9], t[14]) == QuarterRound(s[3], s[4], s[9], s[14])
  }

  predicate AgreeAt(s: State, t: State, q: Quad) {
    s[q.a] == t[q.a] && s[q.b] == t[q.b] && s[q.c] == t[q.c] && s[q.d] == t[q.d]
  }

  /** A quarter round that takes its four words from those of `s` to those of `t`. */
  lemma OneRound(s: State, t: State, u: State, q: Quad)
    requires (t[q.a], t[q.b], t[q.c], t[q.d]) == QuarterRound(s[q.a], s[q.b], s[q.c], s[q.d]) && AgreeAt(s, u, q)
    ensures AgreeAt(RoundAt(u, q), t, q)
    ensures forall r: Quad | q.Disjoint(r) :: AgreeAt(RoundAt(u, q), u, r)
  {
    forall r: Quad | q.Disjoint(r)
      ensures AgreeAt(RoundAt(u, q), u, r)
    {
      PutKeepsOthers(u, q, r, QuarterRound(u[q.a], u[q.b], u[q.c], u[q.d]));
    }
    PutBack(u, q, QuarterRound(u[q.a], u[q.b], u[q.c], u[q.d]));
  }

  /** Four quarter rounds on disjoint words. */
  lemma FourOneRounds(s: State, t: State, q0: Quad, q1: Quad, q2: Quad, q3: Quad)
    requires q0.Disjoint(q1) && q0.Disjoint(q2) && q0.Disjoint(q3)
    requires q1.Disjoint(q2) && q1.Disjoint(q3) && q2.Disjoint(q3)
    requires (t[q0.a], t[q0.b], t[q0.c], t[q0.d]) == QuarterRound(s[q0.a], s[q0.b], s[q0.c], s[q0.d])
    requires (t[q1.a], t[q1.b], t[q1.c], t[q1.d]) == QuarterRound(s[q1.a], s[q1.b], s[q1.c], s[q1.d])
    requires (t[q2.a], t[q2.b], t[q2.c], t[q2.d]) == QuarterRound(s[q2.a], s[q2.b], s[q2.c], s[q2.d])
    requires (t[q3.a], t[q3.b], t[q3.c], t[q3.d]) == QuarterRound(s[q3.a], s[q3.b], s[q3.c], s[q3.d])
    ensures var u := RunRounds(s, [q0, q1, q2, q3]);
            AgreeAt(u, t, q0) && AgreeAt(u, t, q1) && AgreeAt(u, t, q2) && AgreeAt(u, t, q3)
  {
    var u1 := RoundAt(s, q0);
    var u2 := RoundAt(u1, q1);
    var u3 := RoundAt(u2, q2);
    OneRound(s, t, s, q0);
    OneRound(s, t, u1, q1);
    OneRound(s, t, u2, q2);
    OneRound(s, t, u3, q3);
    assert q1.Disjoint(q0) && q2.Disjoint(q0) && q3.Disjoint(q0) && q2.Disjoint(q1) && q3.Disjoint(q1) && q3.Disjoint(q2);
    FourRounds(s, q0, q1, q2, q3);
  }

  const C0: Quad := Indices(0, 4, 8, 12)
  const C1: Quad := Indices(1, 5, 9, 13)
  const C2: Quad := Indices(2, 6, 10, 14)
  const C3: Quad := Indices(3, 7, 11, 15)
  const D0: Quad := Indices(0, 5, 10, 15)
  const D1: Quad := Indices(1, 6, 11, 12)
  const D2: Quad := Indices(2, 7, 8, 13)
  const D3: Quad := Indices(3, 4, 9, 14)

  lemma ColumnsDisjoint()
    ensures C0.Disjoint(C1) && C0.Disjoint(C2) && C0.Disjoint(C3)
    ensures C1.Disjoint(C2) && C1.Disjoint(C3) && C2.Disjoint(C3)
  {
  }

  lemma DiagonalsDisjoint()
    ensures D0.Disjoint(D1) && D0.Disjoint(D2) && D0.Disjoint(D3)
    ensures D1.Disjoint(D2) && D1.Disjoint(D3) && D2.Disjoint(D3)
  {
  }

  lemma ColumnsAreAll(s: State, t: State)
    requires AgreeAt(s, t, C0) && AgreeAt(s, t, C1) && AgreeAt(s, t, C2) && AgreeAt(s, t, C3)
    ensures s == t
  {
  }

  lemma DiagonalsAreAll(s: State, t: State)
    requires AgreeAt(s, t, D0) && AgreeAt(s, t, D1) && AgreeAt(s, t, D2) && AgreeAt(s, t, D3)
    ensures s == t
  {
  }

  lemma ColumnsRun(s: State, t: State)
    requires Columns(s, t)
    ensures RunRounds(s, [C0, C1, C2, C3]) == t
  {
    ColumnsDisjoint();
    FourOneRounds(s, t, C0, C1, C2, C3);
    ColumnsAreAll(RunRounds(s, [C0, C1, C2, C3]), t);
  }

  lemma DiagonalsRun(s: State, t: State)
    requires Diagonals(s, t)
    ensures RunRounds(s, [D0, D1, D2, D3]) == t
  {
    DiagonalsDisjoint();
    FourOneRounds(s, t, D0, D1, D2, D3);
    DiagonalsAreAll(RunRounds(s, [D0, D1, D2, D3]), t);
  }

  /** A double round is eight quarter rounds: on the columns, then on the diagonals. */
  lemma DoubleRoundIs(s: State, m: State, t: State)
    requires Columns(s, m) && Diagonals(m, t)
    ensures RunRounds(s, SCHEDULE) == t
  {
    RunRoundsSplits(s, SCHEDULE, 4);
    assert SCHEDULE[..4] == [C0, C1, C2, C3] && SCHEDULE[4..] == [D0, D1, D2, D3];
    ColumnsRun(s, m);
    DiagonalsRun(m, t);
  }

  lemma NextDoubleRound(n: nat, s: State, m: State, t: State)
    requires DoubleRounds(START, SCHEDULE, n) == s && Columns(s, m) && Diagonals(m, t)
    ensures DoubleRounds(START, SCHEDULE, n + 1) == t
  {
    DoubleRoundIs(s, m, t);
  }

  // The vector.

  const KEY_LOW: bytes :=
    [0x00, 0x01, 0x02, 0x03, 0x04, 0x05, 0x06, 0x07, 0x08, 0x09, 0x0A, 0x0B, 0x0C, 0x0D, 0x0E, 0x0F]
  const KEY_HIGH: bytes :=
    [0x10, 0x11, 0x12, 0x13, 0x14, 0x15, 0x16, 0x17, 0x18, 0x19, 0x1A, 0x1B, 0x1C, 0x1D, 0x1E, 0x1F]
  const KEY: KeyBytes := KEY_LOW + KEY_HIGH

  const NONCE: NonceBytes :=
    [0x00, 0x00, 0x00, 0x09, 0x00, 0x00, 0x00, 0x4A, 0x00, 0x00, 0x00, 0x00]

  const START: State :=
    [0x61707865, 0x3320646e, 0x79622d32, 0x6b206574, 0x03020100, 0x07060504, 0x0b0a0908, 0x0f0e0d0c,
     0x13121110, 0x17161514, 0x1b1a1918, 0x1f1e1d1c, 0x00000001, 0x09000000, 0x4a000000, 0x00000000]
  const MIDDLE_1: State :=
    [0xabbaa25c, 0x1efa51ea, 0x7354fbdf, 0x83d2dc69, 0x3a465196, 0x1c7e64f6, 0xb12fb628, 0xf05b6976,
     0x6b3ca454, 0x08eb14b1, 0xbf8a9ac9, 0xe444df3b, 0xdec62ed2, 0x8862cc77, 0x6e35b345, 0x52a647f1]
  const STATE_1: State :=
    [0xcd52e917, 0x85ab03b4, 0xb3457395, 0xf96de7dd, 0xc4b7cd22, 0x5c2e187a, 0xc95eb461, 0x316c801a,
     0x7bf7d740, 0x7eddd644, 0xf1a1bdf5, 0x761246ca, 0x6b0d58a3, 0x6798471a, 0xd737f167, 0xf173888d]
  const MIDDLE_2: State :=
    [0xe3e1111b, 0xa6291491, 0x5a82b80c, 0x4500fd45, 0xd65b5b5b, 0xf56af099, 0x4ccc8103, 0xc94d29e2,
     0xe67aec54, 0xf7a52d82, 0xdb470914, 0xdfb40f1d, 0x7be81c0d, 0x1d92d0fd, 0x13139f8c, 0x7a26ecaa]
  const STATE_2: State :=
    [0xcf1a7584, 0x048927ec, 0x54051fda, 0xc244ff28, 0x901d2f40, 0x7974b81c, 0x378dcfb4, 0xcd47fd0e,
     0x2dafb216, 0x27c89cd6, 0xcd3c9aa0, 0x79fc89c7, 0x10aef18d, 0x16218765, 0x68f76705, 0x04d6ee22]
  const MIDDLE_3: State :=
    [0xa22695f2, 0xa908cf6c, 0xe6ae05b2, 0xfe0ff04b, 0x1ece4458, 0xe82b726f, 0x5a21ab90, 0x87698c64,
     0xf2d36da6, 0xf4dab980, 0x7baf5573, 0xa78c270d, 0x6fda6bf7, 0x65a4b0ce, 0x25e6d76e, 0x1b7b11ec]
  const STATE_3: State :=
    [0x03a14032, 0x66b15927, 0x9d6b6b42, 0xb84c4109, 0xa7143ae0, 0xa09b33dd, 0xa5daaf88, 0x2fd91a73,
     0xc90c6b18, 0x5a202413, 0xc20e01b6, 0x72cd6b74, 0xba35d777, 0xb360f1bf, 0x8178315b, 0x2cd11b1a]
  const MIDDLE_4: State :=
    [0xfecd0838, 0x160ab468, 0x9a0ddf4e, 0xbac7154a, 0xcedf6624, 0xb11de6c4, 0xbd7810ef, 0xd22b5643,
     0x1d8a33ea, 0x87dc1ca9, 0x89bd34a5, 0x5505ef62, 0xa818b852, 0xb100446a, 0x9c1d70b1, 0xa1d1befa]
  const STATE_4: State :=
    [0x9a2d3589, 0x0b23fc4e, 0x40af3b6b, 0xceea8144, 0x0a1bffc6, 0x5e5993f7, 0x9904c2e7, 0x0d334718,
     0xe46c6354, 0xc9503229, 0x04fef5aa, 0xf8933f72, 0x2687d476, 0x54e65231, 0x3594ffc5, 0x2b3bb2ca]
  const MIDDLE_5: State :=
    [0x85e7824a, 0x4940cd9e, 0xfbe7684b, 0x7335d03d, 0x1c133ea1, 0xbba40b0f, 0x9413992a, 0xa4ab2040,
     0xa3a66a86, 0xc0b4754f, 0x771b4ecb, 0x165151a1, 0xde008464, 0x34f0058b, 0x70846cfa, 0xa3271b09]
  const STATE_5: State :=
    [0xc53318c5, 0xca325d96, 0x7e7d11cb, 0x3404e2ca, 0x26d7cf73, 0x6088d379, 0xc0f0e9bd, 0xe310cdb9,
     0xae2ca8db, 0x42f67c72, 0x71669aca, 0x975c171d, 0x9e5ec228, 0x7d85a9f3, 0x201d0756, 0x63fa6953]
  const MIDDLE_6: State :=
    [0x9950b826, 0xcac7ccc6, 0x84a67673, 0xdb3109a6, 0x2121065a, 0xc12bdadb, 0xcae3acd1, 0x594616cb,
     0x19078de2, 0x178ecc02, 0xe6adbdb2, 0x52a9d50e, 0x40ca72b3, 0x3b9bf852, 0x78690378, 0xe17d4902]
  const STATE_6: State :=
    [0x04a3131a, 0x66176309, 0x0415bab1, 0x61b880a2, 0x36cc86c7, 0xbf8a4465, 0xf77dd720, 0xfc0bdc90,
     0x07d13aca, 0xeb0be9af, 0x61599491, 0x918512dc, 0x33b6686d, 0x795cc671, 0xc0049972, 0xa0a81bde]
  const MIDDLE_7: State :=
    [0x57c5e6da, 0x35ce46a8, 0x0c041bb9, 0xfa91df79, 0x8e85d82f, 0xb4819d06, 0xb63be200, 0xacd221e4,
     0x434b4749, 0x1d459c00, 0x111cfe2c, 0x55942604, 0x49ee03a6, 0xd11a5554, 0xa7202e04, 0x7d2215bc]
  const STATE_7: State :=
    [0x9b70f51f, 0x7ea8ac11, 0x21e54da9, 0xca393b2f, 0x93b08686, 0x6a4c50ae, 0x19212a5a, 0x9b032958,
     0xd839165e, 0x4c06e28a, 0xd3fde99e, 0x26acc13d, 0xa609f555, 0x2c246549, 0x95151853, 0x2c847a0d]
  const MIDDLE_8: State :=
    [0xc0b18aee, 0x087445ba, 0x36e52ad9, 0xa777426a, 0xdeb54e9c, 0x802c883b, 0x06e86889, 0x3c002680,
     0xa82d65d4, 0x687f11eb, 0xe9d36207, 0x4242ddae, 0x4103c64e, 0x82816a91, 0xb584ca56, 0xfd0bd2b9]
  const STATE_8: State :=
    [0xca5c85dd, 0x93a4f90e, 0xd9f0df58, 0x26dd82dd, 0x982563f8, 0x712aa9ff, 0x279a61e8, 0x970f72bd,
     0x1c25931a, 0x5180bb10, 0x779c27e7, 0x54077e08, 0xa9b751fb, 0x382f3ce2, 0x8db1757d, 0xcc38080b]
  const MIDDLE_9: State :=
    [0x765c6e9c, 0x5ab09b11, 0x3ee7da04, 0x37c31203, 0x9046ecaa, 0x7b88d882, 0xb9b577dd, 0x156de7ed,
     0x46fa091e, 0x5117e9b5, 0x862ff22b, 0xa3fcc7a6, 0x72a5aace, 0x5fa7f1c5, 0xda563e0a, 0x5263d7ca]
  const STATE_9: State :=
    [0xb6b87de6, 0x9a016148, 0x93859815, 0x4915e6cc, 0xdc33c122, 0x98e18fa3, 0x5ffbe8fc, 0xf7154b8b,
     0x28c1fcb3, 0xc4b38f9d, 0x83e2f5d7, 0x7d24b98b, 0x21078b22, 0xb193e7a3, 0xb2f49389, 0x6cde6026]
  const MIDDLE_10: State :=
    [0x8a07ff15, 0x0cadc51c, 0x017c8da9, 0x4afbe5df, 0x913768fe, 0x442a0c0c, 0x598fe3bb, 0x47d18828,
     0x0a39aedc, 0xc1428029, 0x7b48135f, 0x5a5f1098, 0x2d4cfe3e, 0xe5466d1b, 0xe4ccdc13, 0x8ac92a18]
  const STATE_10: State :=
    [0x837778ab, 0xe238d763, 0xa67ae21e, 0x5950bb2f, 0xc4f2d0c7, 0xfc62bb2f, 0x8fa018fc, 0x3f5ec7b7,
     0x335271c2, 0xf29489f3, 0xeabda8fc, 0x82e46ebd, 0xd19c12b4, 0xb04e16de, 0x9e83d0cb, 0x4e3c50a2]

  const SUM: State :=
    ([0xe4e7f110, 0x15593bd1, 0x1fdd0f50, 0xc47120a3] + [0xc7f4d1c7, 0x0368c033, 0x9aaa2204, 0x4e6cd4c3])
    + ([0x466482d2, 0x09aa9f07, 0x05d7c214, 0xa2028bd9] + [0xd19c12b5, 0xb94e16de, 0xe883d0cb, 0x4e3c50a2])

  const STREAM_1: bytes :=
    [0x10, 0xF1, 0xE7, 0xE4, 0xD1, 0x3B, 0x59, 0x15, 0x50, 0x0F, 0xDD, 0x1F, 0xA3, 0x20, 0x71, 0xC4]
  const STREAM_2: bytes :=
    [0xC7, 0xD1, 0xF4, 0xC7, 0x33, 0xC0, 0x68, 0x03, 0x04, 0x22, 0xAA, 0x9A, 0xC3, 0xD4, 0x6C, 0x4E]
  const STREAM_3: bytes :=
    [0xD2, 0x82, 0x64, 0x46, 0x07, 0x9F, 0xAA, 0x09, 0x14, 0xC2, 0xD7, 0x05, 0xD9, 0x8B, 0x02, 0xA2]
  const STREAM_4: bytes :=
    [0xB5, 0x12, 0x9C, 0xD1, 0xDE, 0x16, 0x4E, 0xB9, 0xCB, 0xD0, 0x83, 0xE8, 0xA2, 0x50, 0x3C, 0x4E]
  /** The first 64 bytes of the key stream. */
  const STREAM: bytes := (STREAM_1 + STREAM_2) + (STREAM_3 + STREAM_4)

  lemma Columns1()
    ensures Columns(START, MIDDLE_1)
  {
    assert QuarterRound(0x61707865, 0x03020100, 0x13121110, 0x00000001) == (0xabbaa25c, 0x3a465196, 0x6b3ca454, 0xdec62ed2);
    assert QuarterRound(0x3320646e, 0x07060504, 0x17161514, 0x09000000) == (0x1efa51ea, 0x1c7e64f6, 0x08eb14b1, 0x8862cc77);
    assert QuarterRound(0x79622d32, 0x0b0a0908, 0x1b1a1918, 0x4a000000) == (0x7354fbdf, 0xb12fb628, 0xbf8a9ac9, 0x6e35b345);
    assert QuarterRound(0x6b206574, 0x0f0e0d0c, 0x1f1e1d1c, 0x00000000) == (0x83d2dc69, 0xf05b6976, 0xe444df3b, 0x52a647f1);
  }

  lemma Diagonals1()
    ensures Diagonals(MIDDLE_1, STATE_1)
  {
    assert QuarterRound(0xabbaa25c, 0x1c7e64f6, 0xbf8a9ac9, 0x52a647f1) == (0xcd52e917, 0x5c2e187a, 0xf1a1bdf5, 0xf173888d);
    assert QuarterRound(0x1efa51ea, 0xb12fb628, 0xe444df3b, 0xdec62ed2) == (0x85ab03b4, 0xc95eb461, 0x761246ca, 0x6b0d58a3);
    assert QuarterRound(0x7354fbdf, 0xf05b6976, 0x6b3ca454, 0x8862cc77) == (0xb3457395, 0x316c801a, 0x7bf7d740, 0x6798471a);
    assert QuarterRound(0x83d2dc69, 0x3a465196, 0x08eb14b1, 0x6e35b345) == (0xf96de7dd, 0xc4b7cd22, 0x7eddd644, 0xd737f167);
  }

  lemma Rounds1()
    ensures DoubleRounds(START, SCHEDULE, 1) == STATE_1
  {
    Columns1();
    Diagonals1();
    NextDoubleRound(0, START, MIDDLE_1, STATE_1);
  }

  lemma Columns2()
    ensures Columns(STATE_1, MIDDLE_2)
  {
    assert QuarterRound(0xcd52e917, 0xc4b7cd22, 0x7bf7d740, 0x6b0d58a3) == (0xe3e1111b, 0xd65b5b5b, 0xe67aec54, 0x7be81c0d);
    assert QuarterRound(0x85ab03b4, 0x5c2e187a, 0x7eddd644, 0x6798471a) == (0xa6291491, 0xf56af099, 0xf7a52d82, 0x1d92d0fd);
    assert QuarterRound(0xb3457395, 0xc95eb461, 0xf1a1bdf5, 0xd737f167) == (0x5a82b80c, 0x4ccc8103, 0xdb470914, 0x13139f8c);
    assert QuarterRound(0xf96de7dd, 0x316c801a, 0x761246ca, 0xf173888d) == (0x4500fd45, 0xc94d29e2, 0xdfb40f1d, 0x7a26ecaa);
  }

  lemma Diagonals2()
    ensures Diagonals(MIDDLE_2, STATE_2)
  {
    assert QuarterRound(0xe3e1111b, 0xf56af099, 0xdb470914, 0x7a26ecaa) == (0xcf1a7584, 0x7974b81c, 0xcd3c9aa0, 0x04d6ee22);
    assert QuarterRound(0xa6291491, 0x4ccc8103, 0xdfb40f1d, 0x7be81c0d) == (0x048927ec, 0x378dcfb4, 0x79fc89c7, 0x10aef18d);
    assert QuarterRound(0x5a82b80c, 0xc94d29e2, 0xe67aec54, 0x1d92d0fd) == (0x54051fda, 0xcd47fd0e, 0x2dafb216, 0x16218765);
    assert QuarterRound(0x4500fd45, 0xd65b5b5b, 0xf7a52d82, 0x13139f8c) == (0xc244ff28, 0x901d2f40, 0x27c89cd6, 0x68f76705);
  }

  lemma Rounds2()
    ensures DoubleRounds(START, SCHEDULE, 2) == STATE_2
  {
    Rounds1();
    Columns2();
    Diagonals2();
    NextDoubleRound(1, STATE_1, MIDDLE_2, STATE_2);
  }

  lemma Columns3()
    ensures Columns(STATE_2, MIDDLE_3)
  {
    assert QuarterRound(0xcf1a7584, 0x901d2f40, 0x2dafb216, 0x10aef18d) == (0xa22695f2, 0x1ece4458, 0xf2d36da6, 0x6fda6bf7);
    assert QuarterRound(0x048927ec, 0x7974b81c, 0x27c89cd6, 0x16218765) == (0xa908cf6c, 0xe82b726f, 0xf4dab980, 0x65a4b0ce);
    assert QuarterRound(0x54051fda, 0x378dcfb4, 0xcd3c9aa0, 0x68f76705) == (0xe6ae05b2, 0x5a21ab90, 0x7baf5573, 0x25e6d76e);
    assert QuarterRound(0xc244ff28, 0xcd47fd0e, 0x79fc89c7, 0x04d6ee22) == (0xfe0ff04b, 0x87698c64, 0xa78c270d, 0x1b7b11ec);
  }

  lemma Diagonals3()
    ensures Diagonals(MIDDLE_3, STATE_3)
  {
    assert QuarterRound(0xa22695f2, 0xe82b726f, 0x7baf5573, 0x1b7b11ec) == (0x03a14032, 0xa09b33dd, 0xc20e01b6, 0x2cd11b1a);
    assert QuarterRound(0xa908cf6c, 0x5a21ab90, 0xa78c270d, 0x6fda6bf7) == (0x66b15927, 0xa5daaf88, 0x72cd6b74, 0xba35d777);
    assert QuarterRound(0xe6ae05b2, 0x87698c64, 0xf2d36da6, 0x65a4b0ce) == (0x9d6b6b42, 0x2fd91a73, 0xc90c6b18, 0xb360f1bf);
    assert QuarterRound(0xfe0ff04b, 0x1ece4458, 0xf4dab980, 0x25e6d76e) == (0xb84c4109, 0xa7143ae0, 0x5a202413, 0x8178315b);
  }

  lemma Rounds3()
    ensures DoubleRounds(START, SCHEDULE, 3) == STATE_3
  {
    Rounds2();
    Columns3();
    Diagonals3();
    NextDoubleRound(2, STATE_2, MIDDLE_3, STATE_3);
  }

  lemma Columns4()
    ensures Columns(STATE_3, MIDDLE_4)
  {
    assert QuarterRound(0x03a14032, 0xa7143ae0, 0xc90c6b18, 0xba35d777) == (0xfecd0838, 0xcedf6624, 0x1d8a33ea, 0xa818b852);
    assert QuarterRound(0x66b15927, 0xa09b33dd, 0x5a202413, 0xb360f1bf) == (0x160ab468, 0xb11de6c4, 0x87dc1ca9, 0xb100446a);
    assert QuarterRound(0x9d6b6b42, 0xa5daaf88, 0xc20e01b6, 0x8178315b) == (0x9a0ddf4e, 0xbd7810ef, 0x89bd34a5, 0x9c1d70b1);
    assert QuarterRound(0xb84c4109, 0x2fd91a73, 0x72cd6b74, 0x2cd11b1a) == (0xbac7154a, 0xd22b5643, 0x5505ef62, 0xa1d1befa);
  }

  lemma Diagonals4()
    ensures Diagonals(MIDDLE_4, STATE_4)
  {
    assert QuarterRound(0xfecd0838, 0xb11de6c4, 0x89bd34a5, 0xa1d1befa) == (0x9a2d3589, 0x5e5993f7, 0x04fef5aa, 0x2b3bb2ca);
    assert QuarterRound(0x160ab468, 0xbd7810ef, 0x5505ef62, 0xa818b852) == (0x0b23fc4e, 0x9904c2e7, 0xf8933f72, 0x2687d476);
    assert QuarterRound(0x9a0ddf4e, 0xd22b5643, 0x1d8a33ea, 0xb100446a) == (0x40af3b6b, 0x0d334718, 0xe46c6354, 0x54e65231);
    assert QuarterRound(0xbac7154a, 0xcedf6624, 0x87dc1ca9, 0x9c1d70b1) == (0xceea8144, 0x0a1bffc6, 0xc9503229, 0x3594ffc5);
  }

  lemma Rounds4()
    ensures DoubleRounds(START, SCHEDULE, 4) == STATE_4
  {
    Rounds3();
    Columns4();
    Diagonals4();
    NextDoubleRound(3, STATE_3, MIDDLE_4, STATE_4);
  }

  lemma Columns5()
    ensures Columns(STATE_4, MIDDLE_5)
  {
    assert QuarterRound(0x9a2d3589, 0x0a1bffc6, 0xe46c6354, 0x2687d476) == (0x85e7824a, 0x1c133ea1, 0xa3a66a86, 0xde008464);
    assert QuarterRound(0x0b23fc4e, 0x5e5993f7, 0xc9503229, 0x54e65231) == (0x4940cd9e, 0xbba40b0f, 0xc0b4754f, 0x34f0058b);
    assert QuarterRound(0x40af3b6b, 0x9904c2e7, 0x04fef5aa, 0x3594ffc5) == (0xfbe7684b, 0x9413992a, 0x771b4ecb, 0x70846cfa);
    assert QuarterRound(0xceea8144, 0x0d334718, 0xf8933f72, 0x2b3bb2ca) == (0x7335d03d, 0xa4ab2040, 0x165151a1, 0xa3271b09);
  }

  lemma Diagonals5()
    ensures Diagonals(MIDDLE_5, STATE_5)
  {
    assert QuarterRound(0x85e7824a, 0xbba40b0f, 0x771b4ecb, 0xa3271b09) == (0xc53318c5, 0x6088d379, 0x71669aca, 0x63fa6953);
    assert QuarterRound(0x4940cd9e, 0x9413992a, 0x165151a1, 0xde008464) == (0xca325d96, 0xc0f0e9bd, 0x975c171d, 0x9e5ec228);
    assert QuarterRound(0xfbe7684b, 0xa4ab2040, 0xa3a66a86, 0x34f0058b) == (0x7e7d11cb, 0xe310cdb9, 0xae2ca8db, 0x7d85a9f3);
    assert QuarterRound(0x7335d03d, 0x1c133ea1, 0xc0b4754f, 0x70846cfa) == (0x3404e2ca, 0x26d7cf73, 0x42f67c72, 0x201d0756);
  }

  lemma Rounds5()
    ensures DoubleRounds(START, SCHEDULE, 5) == STATE_5
  {
    Rounds4();
    Columns5();
    Diagonals5();
    NextDoubleRound(4, STATE_4, MIDDLE_5, STATE_5);
  }

  lemma Columns6()
    ensures Columns(STATE_5, MIDDLE_6)
  {
    assert QuarterRound(0xc53318c5, 0x26d7cf73, 0xae2ca8db, 0x9e5ec228) == (0x9950b826, 0x2121065a, 0x19078de2, 0x40ca72b3);
    assert QuarterRound(0xca325d96, 0x6088d379, 0x42f67c72, 0x7d85a9f3) == (0xcac7ccc6, 0xc12bdadb, 0x178ecc02, 0x3b9bf852);
    assert QuarterRound(0x7e7d11cb, 0xc0f0e9bd, 0x71669aca, 0x201d0756) == (0x84a67673, 0xcae3acd1, 0xe6adbdb2, 0x78690378);
    assert QuarterRound(0x3404e2ca, 0xe310cdb9, 0x975c171d, 0x63fa6953) == (0xdb3109a6, 0x594616cb, 0x52a9d50e, 0xe17d4902);
  }

  lemma Diagonals6()
    ensures Diagonals(MIDDLE_6, STATE_6)
  {
    assert QuarterRound(0x9950b826, 0xc12bdadb, 0xe6adbdb2, 0xe17d4902) == (0x04a3131a, 0xbf8a4465, 0x61599491, 0xa0a81bde);
    assert QuarterRound(0xcac7ccc6, 0xcae3acd1, 0x52a9d50e, 0x40ca72b3) == (0x66176309, 0xf77dd720, 0x918512dc, 0x33b6686d);
    assert QuarterRound(0x84a67673, 0x594616cb, 0x19078de2, 0x3b9bf852) == (0x0415bab1, 0xfc0bdc90, 0x07d13aca, 0x795cc671);
    assert QuarterRound(0xdb3109a6, 0x2121065a, 0x178ecc02, 0x78690378) == (0x61b880a2, 0x36cc86c7, 0xeb0be9af, 0xc0049972);
  }

  lemma Rounds6()
    ensures DoubleRounds(START, SCHEDULE, 6) == STATE_6
  {
    Rounds5();
    Columns6();
    Diagonals6();
    NextDoubleRound(5, STATE_5, MIDDLE_6, STATE_6);
  }

  lemma Columns7()
    ensures Columns(STATE_6, MIDDLE_7)
  {
    assert QuarterRound(0x04a3131a, 0x36cc86c7, 0x07d13aca, 0x33b6686d) == (0x57c5e6da, 0x8e85d82f, 0x434b4749, 0x49ee03a6);
    assert QuarterRound(0x66176309, 0xbf8a4465, 0xeb0be9af, 0x795cc671) == (0x35ce46a8, 0xb4819d06, 0x1d459c00, 0xd11a5554);
    assert QuarterRound(0x0415bab1, 0xf77dd720, 0x61599491, 0xc0049972) == (0x0c041bb9, 0xb63be200, 0x111cfe2c, 0xa7202e04);
    assert QuarterRound(0x61b880a2, 0xfc0bdc90, 0x918512dc, 0xa0a81bde) == (0xfa91df79, 0xacd221e4, 0x55942604, 0x7d2215bc);
  }

  lemma Diagonals7()
    ensures Diagonals(MIDDLE_7, STATE_7)
  {
    assert QuarterRound(0x57c5e6da, 0xb4819d06, 0x111cfe2c, 0x7d2215bc) == (0x9b70f51f, 0x6a4c50ae, 0xd3fde99e, 0x2c847a0d);
    assert QuarterRound(0x35ce46a8, 0xb63be200, 0x55942604, 0x49ee03a6) == (0x7ea8ac11, 0x19212a5a, 0x26acc13d, 0xa609f555);
    assert QuarterRound(0x0c041bb9, 0xacd221e4, 0x434b4749, 0xd11a5554) == (0x21e54da9, 0x9b032958, 0xd839165e, 0x2c246549);
    assert QuarterRound(0xfa91df79, 0x8e85d82f, 0x1d459c00, 0xa7202e04) == (0xca393b2f, 0x93b08686, 0x4c06e28a, 0x95151853);
  }

  lemma Rounds7()
    ensures DoubleRounds(START, SCHEDULE, 7) == STATE_7
  {
    Rounds6();
    Columns7();
    Diagonals7();
    NextDoubleRound(6, STATE_6, MIDDLE_7, STATE_7);
  }

  lemma Columns8()
    ensures Columns(STATE_7, MIDDLE_8)
  {
    assert QuarterRound(0x9b70f51f, 0x93b08686, 0xd839165e, 0xa609f555) == (0xc0b18aee, 0xdeb54e9c, 0xa82d65d4, 0x4103c64e);
    assert QuarterRound(0x7ea8ac11, 0x6a4c50ae, 0x4c06e28a, 0x2c246549) == (0x087445ba, 0x802c883b, 0x687f11eb, 0x82816a91);
    assert QuarterRound(0x21e54da9, 0x19212a5a, 0xd3fde99e, 0x95151853) == (0x36e52ad9, 0x06e86889, 0xe9d36207, 0xb584ca56);
    assert QuarterRound(0xca393b2f, 0x9b032958, 0x26acc13d, 0x2c847a0d) == (0xa777426a, 0x3c002680, 0x4242ddae, 0xfd0bd2b9);
  }

  lemma Diagonals8()
    ensures Diagonals(MIDDLE_8, STATE_8)
  {
    assert QuarterRound(0xc0b18aee, 0x802c883b, 0xe9d36207, 0xfd0bd2b9) == (0xca5c85dd, 0x712aa9ff, 0x779c27e7, 0xcc38080b);
    assert QuarterRound(0x087445ba, 0x06e86889, 0x4242ddae, 0x4103c64e) == (0x93a4f90e, 0x279a61e8, 0x54077e08, 0xa9b751fb);
    assert QuarterRound(0x36e52ad9, 0x3c002680, 0xa82d65d4, 0x82816a91) == (0xd9f0df58, 0x970f72bd, 0x1c25931a, 0x382f3ce2);
    assert QuarterRound(0xa777426a, 0xdeb54e9c, 0x687f11eb, 0xb584ca56) == (0x26dd82dd, 0x982563f8, 0x5180bb10, 0x8db1757d);
  }

  lemma Rounds8()
    ensures DoubleRounds(START, SCHEDULE, 8) == STATE_8
  {
    Rounds7();
    Columns8();
    Diagonals8();
    NextDoubleRound(7, STATE_7, MIDDLE_8, STATE_8);
  }

  lemma Columns9()
    ensures Columns(STATE_8, MIDDLE_9)
  {
    assert QuarterRound(0xca5c85dd, 0x982563f8, 0x1c25931a, 0xa9b751fb) == (0x765c6e9c, 0x9046ecaa, 0x46fa091e, 0x72a5aace);
    assert QuarterRound(0x93a4f90e, 0x712aa9ff, 0x5180bb10, 0x382f3ce2) == (0x5ab09b11, 0x7b88d882, 0x5117e9b5, 0x5fa7f1c5);
    assert QuarterRound(0xd9f0df58, 0x279a61e8, 0x779c27e7, 0x8db1757d) == (0x3ee7da04, 0xb9b577dd, 0x862ff22b, 0xda563e0a);
    assert QuarterRound(0x26dd82dd, 0x970f72bd, 0x54077e08, 0xcc38080b) == (0x37c31203, 0x156de7ed, 0xa3fcc7a6, 0x5263d7ca);
  }

  lemma Diagonals9()
    ensures Diagonals(MIDDLE_9, STATE_9)
  {
    assert QuarterRound(0x765c6e9c, 0x7b88d882, 0x862ff22b, 0x5263d7ca) == (0xb6b87de6, 0x98e18fa3, 0x83e2f5d7, 0x6cde6026);
    assert QuarterRound(0x5ab09b11, 0xb9b577dd, 0xa3fcc7a6, 0x72a5aace) == (0x9a016148, 0x5ffbe8fc, 0x7d24b98b, 0x21078b22);
    assert QuarterRound(0x3ee7da04, 0x156de7ed, 0x46fa091e, 0x5fa7f1c5) == (0x93859815, 0xf7154b8b, 0x28c1fcb3, 0xb193e7a3);
    assert QuarterRound(0x37c31203, 0x9046ecaa, 0x5117e9b5, 0xda563e0a) == (0x4915e6cc, 0xdc33c122, 0xc4b38f9d, 0xb2f49389);
  }

  lemma Rounds9()
    ensures DoubleRounds(START, SCHEDULE, 9) == STATE_9
  {
    Rounds8();
    Columns9();
    Diagonals9();
    NextDoubleRound(8, STATE_8, MIDDLE_9, STATE_9);
  }

  lemma Columns10()
    ensures Columns(STATE_9, MIDDLE_10)
  {
    assert QuarterRound(0xb6b87de6, 0xdc33c122, 0x28c1fcb3, 0x21078b22) == (0x8a07ff15, 0x913768fe, 0x0a39aedc, 0x2d4cfe3e);
    assert QuarterRound(0x9a016148, 0x98e18fa3, 0xc4b38f9d, 0xb193e7a3) == (0x0cadc51c, 0x442a0c0c, 0xc1428029, 0xe5466d1b);
    assert QuarterRound(0x93859815, 0x5ffbe8fc, 0x83e2f5d7, 0xb2f49389) == (0x017c8da9, 0x598fe3bb, 0x7b48135f, 0xe4ccdc13);
    assert QuarterRound(0x4915e6cc, 0xf7154b8b, 0x7d24b98b, 0x6cde6026) == (0x4afbe5df, 0x47d18828, 0x5a5f1098, 0x8ac92a18);
  }

  lemma Diagonals10()
    ensures Diagonals(MIDDLE_10, STATE_10)
  {
    assert QuarterRound(0x8a07ff15, 0x442a0c0c, 0x7b48135f, 0x8ac92a18) == (0x837778ab, 0xfc62bb2f, 0xeabda8fc, 0x4e3c50a2);
    assert QuarterRound(0x0cadc51c, 0x598fe3bb, 0x5a5f1098, 0x2d4cfe3e) == (0xe238d763, 0x8fa018fc, 0x82e46ebd, 0xd19c12b4);
    assert QuarterRound(0x017c8da9, 0x47d18828, 0x0a39aedc, 0xe5466d1b) == (0xa67ae21e, 0x3f5ec7b7, 0x335271c2, 0xb04e16de);
    assert QuarterRound(0x4afbe5df, 0x913768fe, 0xc1428029, 0xe4ccdc13) == (0x5950bb2f, 0xc4f2d0c7, 0xf29489f3, 0x9e83d0cb);
  }

  lemma Rounds10()
    ensures DoubleRounds(START, SCHEDULE, 10) == STATE_10
  {
    Rounds9();
    Columns10();
    Diagonals10();
    NextDoubleRound(9, STATE_9, MIDDLE_10, STATE_10);
  }

  lemma Sums0()
    ensures forall i | 0 <= i < 4 :: Add(START[i], STATE_10[i]) == SUM[i]
  {
    assert Add(START[0], STATE_10[0]) == SUM[0];
    assert Add(START[1], STATE_10[1]) == SUM[1];
    assert Add(START[2], STATE_10[2]) == SUM[2];
    assert Add(START[3], STATE_10[3]) == SUM[3];
  }

  lemma Sums1()
    ensures forall i | 4 <= i < 8 :: Add(START[i], STATE_10[i]) == SUM[i]
  {
    assert Add(START[4], STATE_10[4]) == SUM[4];
    assert Add(START[5], STATE_10[5]) == SUM[5];
    assert Add(START[6], STATE_10[6]) == SUM[6];
    assert Add(START[7], STATE_10[7]) == SUM[7];
  }

  lemma Sums2()
    ensures forall i | 8 <= i < 12 :: Add(START[i], STATE_10[i]) == SUM[i]
  {
    assert Add(START[8], STATE_10[8]) == SUM[8];
    assert Add(START[9], STATE_10[9]) == SUM[9];
    assert Add(START[10], STATE_10[10]) == SUM[10];
    assert Add(START[11], STATE_10[11]) == SUM[11];
  }

  lemma Sums3()
    ensures forall i | 12 <= i < 16 :: Add(START[i], STATE_10[i]) == SUM[i]
  {
    assert Add(START[12], STATE_10[12]) == SUM[12];
    assert Add(START[13], STATE_10[13]) == SUM[13];
    assert Add(START[14], STATE_10[14]) == SUM[14];
    assert Add(START[15], STATE_10[15]) == SUM[15];
  }

  lemma SumOfVector()
    ensures AddWords(START, STATE_10) == SUM
  {
    Sums0();
    Sums1();
    Sums2();
    Sums3();
  }

  /** The word at index `i` of a byte string. */
  function WordAt(b: bytes, i: nat): word
    requires 4 * i + 4 <= |b|
  {
    Word(b[4 * i], b[4 * i + 1], b[4 * i + 2], b[4 * i + 3])
  }

  function Word(x: byte, y: byte, z: byte, u: byte): word {
    x as bv32 | (y as bv32 << 8) | (z as bv32 << 16) | (u as bv32 << 24)
  }

  lemma FourWords(x: seq<byte>, v: seq<word>)
    requires |x| == 16 && |v| == 4
    requires Word(x[0], x[1], x[2], x[3]) == v[0] && Word(x[4], x[5], x[6], x[7]) == v[1]
    requires Word(x[8], x[9], x[10], x[11]) == v[2] && Word(x[12], x[13], x[14], x[15]) == v[3]
    ensures WordsLe(x) == v
  {
    assert WordAt(x, 0) == v[0] && WordAt(x, 1) == v[1] && WordAt(x, 2) == v[2] && WordAt(x, 3) == v[3];
    WordsAre(x, v);
  }

  lemma SliceWord(b: bytes, i: nat, slice: bytes)
    requires 4 * i + 4 <= |b| && slice == b[4 * i..4 * i + 4]
    ensures FromBytesLe(slice) == WordAt(b, i)
  {
    assert slice[0] == b[4 * i] && slice[1] == b[4 * i + 1] && slice[2] == b[4 * i + 2] && slice[3] == b[4 * i + 3];
  }

  predicate HasWords(b: bytes, words: seq<word>) {
    |b| == 4 * |words| && forall i | 0 <= i < |words| :: WordAt(b, i) == words[i]
  }

  lemma WordsAre(b: bytes, words: seq<word>)
    requires |b| % 4 == 0 && HasWords(b, words)
    ensures WordsLe(b) == words
  {
    forall i | 0 <= i < |words|
      ensures WordsLe(b)[i] == words[i]
    {
      SliceWord(b, i, b[4 * i..4 * i + 4]);
    }
  }

  lemma StreamWords1()
    ensures WordsLe(STREAM_1) == [0xe4e7f110, 0x15593bd1, 0x1fdd0f50, 0xc47120a3]
  {
    assert Word(0x10, 0xF1, 0xE7, 0xE4) == 0xe4e7f110;
    assert Word(0xD1, 0x3B, 0x59, 0x15) == 0x15593bd1;
    assert Word(0x50, 0x0F, 0xDD, 0x1F) == 0x1fdd0f50;
    assert Word(0xA3, 0x20, 0x71, 0xC4) == 0xc47120a3;
    FourWords(STREAM_1, [0xe4e7f110, 0x15593bd1, 0x1fdd0f50, 0xc47120a3]);
  }

  lemma StreamWords2()
    ensures WordsLe(STREAM_2) == [0xc7f4d1c7, 0x0368c033, 0x9aaa2204, 0x4e6cd4c3]
  {
    assert Word(0xC7, 0xD1, 0xF4, 0xC7) == 0xc7f4d1c7;
    assert Word(0x33, 0xC0, 0x68, 0x03) == 0x0368c033;
    assert Word(0x04, 0x22, 0xAA, 0x9A) == 0x9aaa2204;
    assert Word(0xC3, 0xD4, 0x6C, 0x4E) == 0x4e6cd4c3;
    FourWords(STREAM_2, [0xc7f4d1c7, 0x0368c033, 0x9aaa2204, 0x4e6cd4c3]);
  }

  lemma StreamWords3()
    ensures WordsLe(STREAM_3) == [0x466482d2, 0x09aa9f07, 0x05d7c214, 0xa2028bd9]
  {
    assert Word(0xD2, 0x82, 0x64, 0x46) == 0x466482d2;
    assert Word(0x07, 0x9F, 0xAA, 0x09) == 0x09aa9f07;
    assert Word(0x14, 0xC2, 0xD7, 0x05) == 0x05d7c214;
    assert Word(0xD9, 0x8B, 0x02, 0xA2) == 0xa2028bd9;
    FourWords(STREAM_3, [0x466482d2, 0x09aa9f07, 0x05d7c214, 0xa2028bd9]);
  }

  lemma StreamWords4()
    ensures WordsLe(STREAM_4) == [0xd19c12b5, 0xb94e16de, 0xe883d0cb, 0x4e3c50a2]
  {
    assert Word(0xB5, 0x12, 0x9C, 0xD1) == 0xd19c12b5;
    assert Word(0xDE, 0x16, 0x4E, 0xB9) == 0xb94e16de;
    assert Word(0xCB, 0xD0, 0x83, 0xE8) == 0xe883d0cb;
    assert Word(0xA2, 0x50, 0x3C, 0x4E) == 0x4e3c50a2;
    FourWords(STREAM_4, [0xd19c12b5, 0xb94e16de, 0xe883d0cb, 0x4e3c50a2]);
  }

  lemma LowKeyWords()
    ensures WordsLe(KEY_LOW) == [0x03020100, 0x07060504, 0x0b0a0908, 0x0f0e0d0c]
  {
    assert Word(0x00, 0x01, 0x02, 0x03) == 0x03020100;
    assert Word(0x04, 0x05, 0x06, 0x07) == 0x07060504;
    assert Word(0x08, 0x09, 0x0A, 0x0B) == 0x0b0a0908;
    assert Word(0x0C, 0x0D, 0x0E, 0x0F) == 0x0f0e0d0c;
    FourWords(KEY_LOW, [0x03020100, 0x07060504, 0x0b0a0908, 0x0f0e0d0c]);
  }

  lemma HighKeyWords()
    ensures WordsLe(KEY_HIGH) == [0x13121110, 0x17161514, 0x1b1a1918, 0x1f1e1d1c]
  {
    assert Word(0x10, 0x11, 0x12, 0x13) == 0x13121110;
    assert Word(0x14, 0x15, 0x16, 0x17) == 0x17161514;
    assert Word(0x18, 0x19, 0x1A, 0x1B) == 0x1b1a1918;
    assert Word(0x1C, 0x1D, 0x1E, 0x1F) == 0x1f1e1d1c;
    FourWords(KEY_HIGH, [0x13121110, 0x17161514, 0x1b1a1918, 0x1f1e1d1c]);
  }

  lemma NonceWords()
    ensures WordsLe(NONCE) == [0x09000000, 0x4a000000, 0x00000000]
  {
    assert Word(0x00, 0x00, 0x00, 0x09) == 0x09000000;
    assert Word(0x00, 0x00, 0x00, 0x4A) == 0x4a000000;
    assert Word(0x00, 0x00, 0x00, 0x00) == 0x00000000;
    WordsAre(NONCE, [0x09000000, 0x4a000000, 0x00000000]);
  }

  lemma WordsOfTwo(a: bytes, b: bytes, m: nat, n: nat)
    requires |a| == 4 * m && |b| == 4 * n
    ensures WordsLe(a + b) == WordsLe(a) + WordsLe(b)
  {
    FirstWords(a, b, m, n);
    SecondWords(a, b, m, n);
    SplitAt(WordsLe(a + b), WordsLe(a), WordsLe(b));
  }

  lemma FirstWords(a: bytes, b: bytes, m: nat, n: nat)
    requires |a| == 4 * m && |b| == 4 * n
    ensures forall i | 0 <= i < m :: WordsLe(a + b)[i] == WordsLe(a)[i]
  {
    forall i | 0 <= i < m
      ensures WordsLe(a + b)[i] == WordsLe(a)[i]
    {
      SameSlice(a, b, 4 * i);
    }
  }

  lemma SecondWords(a: bytes, b: bytes, m: nat, n: nat)
    requires |a| == 4 * m && |b| == 4 * n
    ensures forall i | 0 <= i < n :: WordsLe(a + b)[m + i] == WordsLe(b)[i]
  {
    forall i | 0 <= i < n
      ensures WordsLe(a + b)[m + i] == WordsLe(b)[i]
    {
      SecondWord(a, b, m, n, i, m + i);
    }
  }

  lemma SecondWord(a: bytes, b: bytes, m: nat, n: nat, i: nat, k: nat)
    requires |a| == 4 * m && |b| == 4 * n && i < n && k == m + i
    ensures WordsLe(a + b)[k] == WordsLe(b)[i]
  {
    LaterSlice(a, b, 4 * i, 4 * k);
  }

  lemma SameSlice(a: bytes, b: bytes, at: nat)
    requires at + 4 <= |a|
    ensures (a + b)[at..at + 4] == a[at..at + 4]
  {
  }

  lemma LaterSlice(a: bytes, b: bytes, at: nat, later: nat)
    requires at + 4 <= |b| && later == |a| + at
    ensures (a + b)[later..later + 4] == b[at..at + 4]
  {
  }

  lemma StreamWords()
    ensures WordsLe(STREAM) == SUM
  {
    StreamWords1();
    StreamWords2();
    StreamWords3();
    StreamWords4();
    WordsOfTwo(STREAM_1, STREAM_2, 4, 4);
    WordsOfTwo(STREAM_3, STREAM_4, 4, 4);
    WordsOfTwo(STREAM_1 + STREAM_2, STREAM_3 + STREAM_4, 8, 8);
  }

  lemma StreamOfVector()
    ensures Serialize(SUM) == STREAM
  {
    StreamWords();
    WordsRoundTrip(STREAM);
  }

  lemma StartOfVector()
    ensures InitialState(CONSTANTS, WordsLe(KEY), 1, WordsLe(NONCE)) == START
  {
    LowKeyWords();
    HighKeyWords();
    WordsOfTwo(KEY_LOW, KEY_HIGH, 4, 4);
    NonceWords();
  }

  /** The block of the vector, from the bytes of the key and the nonce. */
  lemma VectorBlock()
    ensures CipherOf(KEY, NONCE).BlockAt(1) == STREAM
  {
    StartOfVector();
    Rounds10();
    SumOfVector();
    StreamOfVector();
  }

  /** The key stream is the image of zeros. */
  lemma VectorImage()
    ensures ChaCha(KEY, NONCE, 1, Repeat(0, 64)) == STREAM
  {
    var cipher, zeros := CipherOf(KEY, NONCE), Repeat(0, 64);
    VectorBlock();
    FirstBlock(cipher, 1, 64);
    XorZeros(KeyStream(cipher, 1, 64), zeros);
  }

  lemma XorZeros(stream: bytes, zeros: bytes)
    requires |stream| == |zeros| && forall j | 0 <= j < |zeros| :: zeros[j] == 0
    ensures XorBytes(stream, zeros) == stream
  {
    forall j | 0 <= j < |stream|
      ensures XorBytes(stream, zeros)[j] == stream[j]
    {
      assert stream[j] ^ 0 == stream[j];
    }
  }
}
