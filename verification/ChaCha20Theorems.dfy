/** What the cipher promises: it is its own inverse, it can be entered at any block, and its
    counter is the 32-bit counter of RFC 8439. */
module ChaCha20Theorems {
  import opened Bytes
  import opened Sequences
  import opened ChaCha20Spec
  import opened PackingSpec

  lemma XorByteTwice(a: byte, k: byte)
    ensures k ^ (k ^ a) == a
  {
  }

  lemma XorBytesTwice(k: seq<byte>, a: seq<byte>)
    requires |k| == |a|
    ensures XorBytes(k, XorBytes(k, a)) == a
  {
    forall j | 0 <= j < |a|
      ensures XorBytes(k, XorBytes(k, a))[j] == a[j]
    {
      XorByteTwice(a[j], k[j]);
    }
  }

  /** Decryption is encryption: the cipher is a length-preserving involution. */
  lemma EncryptIsInvolution(cipher: Cipher, counter: word, input: seq<byte>)
    ensures Encrypt(cipher, counter, Encrypt(cipher, counter, input)) == input
  {
    XorBytesTwice(KeyStream(cipher, counter, |input|), input);
  }

  lemma XorBytesConcat(k: seq<byte>, a: seq<byte>, l: seq<byte>, b: seq<byte>)
    requires |k| == |a| && |l| == |b|
    ensures XorBytes(k + l, a + b) == XorBytes(k, a) + XorBytes(l, b)
  {
  }

  lemma {:induction false} CounterAdds(counter: word, k: nat, i: nat)
    ensures CounterAt(counter, k + i) == CounterAt(CounterAt(counter, k), i)
  {
    if i > 0 {
      CounterAdds(counter, k, i - 1);
    }
  }

  lemma StreamByteIs(cipher: Cipher, counter: word, j: nat, q: nat, k: nat, c: word)
    requires j / 64 == q && j % 64 == k && c == CounterAt(counter, q)
    ensures StreamByte(cipher, counter, j) == BlockByte(cipher, c, k)
  {
  }

  lemma StreamByteShifts(cipher: Cipher, counter: word, k: nat, j: nat, i: nat)
    requires i == 64 * k + j
    ensures StreamByte(cipher, counter, i) == StreamByte(cipher, CounterAt(counter, k), j)
  {
    var q := j / 64;
    BlockIndex(k, j);
    CounterAdds(counter, k, q);
    StreamByteIs(cipher, counter, i, k + q, j % 64, CounterAt(counter, k + q));
    StreamByteIs(cipher, CounterAt(counter, k), j, q, j % 64, CounterAt(counter, k + q));
  }

  lemma KeyStreamAt(cipher: Cipher, counter: word, n: nat, j: nat)
    requires j < n
    ensures KeyStream(cipher, counter, n)[j] == StreamByte(cipher, counter, j)
  {
  }

  lemma KeyStreamSplits(cipher: Cipher, counter: word, k: nat, n: nat)
    ensures KeyStream(cipher, counter, 64 * k + n)
         == KeyStream(cipher, counter, 64 * k) + KeyStream(cipher, CounterAt(counter, k), n)
  {
    var whole := KeyStream(cipher, counter, 64 * k + n);
    var head := KeyStream(cipher, counter, 64 * k);
    var tail := KeyStream(cipher, CounterAt(counter, k), n);
    forall i | 0 <= i < |head|
      ensures whole[i] == head[i]
    {
      KeyStreamAt(cipher, counter, 64 * k + n, i);
      KeyStreamAt(cipher, counter, 64 * k, i);
    }
    forall j | 0 <= j < |tail|
      ensures whole[|head| + j] == tail[j]
    {
      KeyStreamAt(cipher, counter, 64 * k + n, 64 * k + j);
      KeyStreamAt(cipher, CounterAt(counter, k), n, j);
      StreamByteShifts(cipher, counter, k, j, 64 * k + j);
    }
    SplitAt(whole, head, tail);
  }

  /** The cipher is seekable at block boundaries. */
  lemma EncryptIsSeekable(cipher: Cipher, counter: word,
                          x: seq<byte>, y: seq<byte>, k: nat)
    requires |x| == 64 * k
    ensures Encrypt(cipher, counter, x + y)
         == Encrypt(cipher, counter, x)
          + Encrypt(cipher, CounterAt(counter, k), y)
  {
    KeyStreamSplits(cipher, counter, k, |y|);
    XorBytesConcat(KeyStream(cipher, counter, |x|), x,
                   KeyStream(cipher, CounterAt(counter, k), |y|), y);
  }

  lemma BlockIndex(k: nat, j: nat)
    ensures (64 * k + j) / 64 == k + j / 64 && (64 * k + j) % 64 == j % 64
  {
  }

  // Chunk by chunk, as the circuit computes it.

  lemma FirstBlock(cipher: Cipher, counter: word, n: nat)
    requires n <= 64
    ensures KeyStream(cipher, counter, n) == cipher.BlockAt(counter)[..n]
  {
  }

  lemma FirstChunk(cipher: Cipher, counter: word, chunk: seq<byte>, keyStream: seq<byte>, outputs: seq<byte>)
    requires |chunk| <= 64 && keyStream == cipher.BlockAt(counter)
    requires outputs == XorBytes(keyStream[..|chunk|], chunk)
    ensures outputs == Encrypt(cipher, counter, chunk)
  {
    FirstBlock(cipher, counter, |chunk|);
  }

  lemma CounterAdvances(cipher: Cipher, counter: word, i: nat)
    ensures InitialState(cipher.constants, cipher.key, CounterAt(counter, i), cipher.nonce)
              [12 := Add(CounterAt(counter, i), 1)]
         == InitialState(cipher.constants, cipher.key, CounterAt(counter, i + 1), cipher.nonce)
  {
  }

  lemma NothingEncrypted(cipher: Cipher, counter: word)
    ensures Encrypt(cipher, counter, []) == []
  {
  }

  lemma AppendChunk(cipher: Cipher, counter: word, input: seq<byte>, i: nat,
                    done: seq<byte>, outputs: seq<byte>)
    requires i < |Chunks(input, 64)|
    requires done == Encrypt(cipher, counter, Flatten(Chunks(input, 64)[..i]))
    requires outputs == Encrypt(cipher, CounterAt(counter, i), Chunks(input, 64)[i])
    ensures done + outputs == Encrypt(cipher, counter, Flatten(Chunks(input, 64)[..i + 1]))
  {
    var chunks := Chunks(input, 64);
    TimesIsProduct(64, i);
    ChunkAt(input, 64, i, 64 * i);
    ChunksBefore(input, 64, i, 64 * i);
    FlattenSnoc(chunks[..i], chunks[i]);
    assert chunks[..i + 1] == chunks[..i] + [chunks[i]];
    EncryptIsSeekable(cipher, counter, Flatten(chunks[..i]), chunks[i], i);
  }

  // The counter as a number.

  /** The unsigned value of a word, bit by bit. */
  function ValueOf(w: word): nat
    decreases w
  {
    if w == 0 then 0 else 2 * ValueOf(w >> 1) + LowBit(w)
  }

  function Twice(h: word): word { h << 1 }

  function TwicePlusOne(h: word): word { (h << 1) | 1 }

  function Increment(w: word): word { Add(w, 1) }

  lemma Halves(w: word)
    ensures w & 1 == 0 ==> w == Twice(w >> 1)
    ensures w & 1 != 0 ==> w & 1 == 1 && w == TwicePlusOne(w >> 1)
    ensures w >> 1 < 0x8000_0000
  {
  }

  lemma HalvesBack(h: word)
    requires h < 0x8000_0000
    ensures Twice(h) >> 1 == h && Twice(h) & 1 == 0
    ensures TwicePlusOne(h) >> 1 == h && TwicePlusOne(h) & 1 == 1
  {
  }

  lemma IncrementEven(h: word)
    ensures Increment(Twice(h)) == TwicePlusOne(h)
  {
    assert Increment(h << 1) == Add(h << 1, 1) == (h << 1) | 1;
  }

  lemma IncrementOdd(h: word)
    ensures Increment(TwicePlusOne(h)) == Twice(Increment(h))
  {
    assert Increment((h << 1) | 1) == Add((h << 1) | 1, 1) == Twice(h + 1);
    assert Increment(h) == Add(h, 1) == h + 1;
  }

  lemma Bounds(h: word)
    requires h < 0x8000_0000
    requires TwicePlusOne(h) != 0xFFFF_FFFF
    ensures h < 0x7FFF_FFFF && h < TwicePlusOne(h) && Increment(h) < 0x8000_0000
  {
  }

  lemma ValueOfTwice(h: word)
    requires h < 0x8000_0000
    ensures ValueOf(Twice(h)) == 2 * ValueOf(h)
  {
    HalvesBack(h);
  }

  lemma ValueOfTwicePlusOne(h: word)
    requires h < 0x8000_0000
    ensures ValueOf(TwicePlusOne(h)) == 2 * ValueOf(h) + 1
  {
    HalvesBack(h);
  }

  lemma {:induction false} IncrementValue(w: word)
    requires w != 0xFFFF_FFFF
    ensures ValueOf(Increment(w)) == ValueOf(w) + 1
    decreases w
  {
    Halves(w);
    var h := w >> 1;
    if w & 1 == 0 {
      IncrementEven(h);
      ValueOfTwice(h);
      ValueOfTwicePlusOne(h);
    } else {
      Bounds(h);
      IncrementOdd(h);
      IncrementValue(h);
      ValueOfTwice(Increment(h));
      ValueOfTwicePlusOne(h);
    }
  }

  function LowBit(w: word): nat { if w & 1 == 1 then 1 else 0 }

  /** `w` has at most `n` bits. */
  predicate Fits(w: word, n: nat) {
    if n == 0 then w == 0 else Fits(w >> 1, n - 1)
  }

  lemma {:induction false} FittingValue(w: word, n: nat)
    requires Fits(w, n)
    ensures ValueOf(w) < Pow2(n)
  {
    if n > 0 {
      FittingValue(w >> 1, n - 1);
    }
  }

  lemma FitsFourMore(w: word, v: word, n: nat)
    requires v == w >> 4 && Fits(v, n)
    ensures Fits(w, n + 4)
  {
    assert ((((w >> 1) >> 1) >> 1) >> 1) == v;
    assert Fits(((w >> 1) >> 1) >> 1, n + 1);
    assert Fits((w >> 1) >> 1, n + 2);
    assert Fits(w >> 1, n + 3);
  }

  /** `w` has at most `n` groups of four bits. */
  predicate FitsFours(w: word, n: nat) {
    if n == 0 then w == 0 else FitsFours(w >> 4, n - 1)
  }

  lemma {:induction false} FoursFit(w: word, n: nat)
    requires FitsFours(w, n)
    ensures Fits(w, 4 * n)
  {
    if n > 0 {
      FoursFit(w >> 4, n - 1);
      FitsFourMore(w, w >> 4, 4 * (n - 1));
    }
  }

  lemma EightFours(w: word)
    ensures FitsFours(w, 8)
  {
    var a := w >> 4;
    var b := a >> 4;
    var c := b >> 4;
    var d := c >> 4;
    var e := d >> 4;
    var f := e >> 4;
    var g := f >> 4;
    assert g >> 4 == 0;
    assert FitsFours(g, 1);
    assert FitsFours(f, 2);
    assert FitsFours(e, 3);
    assert FitsFours(d, 4);
    assert FitsFours(c, 5);
    assert FitsFours(b, 6);
    assert FitsFours(a, 7);
  }

  lemma AllFit(w: word)
    ensures Fits(w, 32)
  {
    EightFours(w);
    FoursFit(w, 8);
  }

  lemma TwoOnesBound(h: word, n: word)
    requires h < n && n <= 0x4000_0000
    ensures TwicePlusOne(h) < n << 1
  {
  }

  lemma FourTimes(h: word)
    ensures TwicePlusOne(TwicePlusOne(TwicePlusOne(TwicePlusOne(h)))) == (h << 4) | 0xF
  {
  }

  lemma FourOnes(h: word, w: word)
    requires h < 0x1000_0000 && w == (h << 4) | 0xF
    ensures ValueOf(w) == 16 * ValueOf(h) + 15
  {
    var h1 := TwicePlusOne(h);
    var h2 := TwicePlusOne(h1);
    var h3 := TwicePlusOne(h2);
    TwoOnesBound(h, 0x1000_0000);
    TwoOnesBound(h1, 0x2000_0000);
    TwoOnesBound(h2, 0x4000_0000);
    FourTimes(h);
    ValuesOfOnes(h, h1, h2, h3, w);
  }

  lemma ValuesOfOnes(h: word, h1: word, h2: word, h3: word, w: word)
    requires h < 0x8000_0000 && h1 < 0x8000_0000 && h2 < 0x8000_0000 && h3 < 0x8000_0000
    requires h1 == TwicePlusOne(h) && h2 == TwicePlusOne(h1) && h3 == TwicePlusOne(h2) && w == TwicePlusOne(h3)
    ensures ValueOf(w) == 16 * ValueOf(h) + 15
  {
    ValueOfTwicePlusOne(h);
    ValueOfTwicePlusOne(h1);
    ValueOfTwicePlusOne(h2);
    ValueOfTwicePlusOne(h3);
  }

  /** The greatest word is 2^32 - 1. */
  lemma ValueOfGreatest()
    ensures ValueOf(0xFFFF_FFFF) == 0xFFFF_FFFF
  {
    FourOnes(0, 0xF);
    FourOnes(0xF, 0xFF);
    FourOnes(0xFF, 0xFFF);
    FourOnes(0xFFF, 0xFFFF);
    FourOnes(0xFFFF, 0xF_FFFF);
    FourOnes(0xF_FFFF, 0xFF_FFFF);
    FourOnes(0xFF_FFFF, 0xFFF_FFFF);
    FourOnes(0xFFF_FFFF, 0xFFFF_FFFF);
  }

  lemma ValueOfBound(w: word)
    ensures ValueOf(w) < 0x1_0000_0000
  {
    AllFit(w);
    FittingValue(w, 32);
    Pow2Plus32(0);
  }

  lemma NextModulo(n: nat, x: nat, y: nat)
    requires x == n % 0x1_0000_0000
    requires y == if x == 0xFFFF_FFFF then 0 else x + 1
    ensures y == (n + 1) % 0x1_0000_0000
  {
  }

  lemma StepValue(w: word)
    ensures ValueOf(Increment(w)) == if ValueOf(w) == 0xFFFF_FFFF then 0 else ValueOf(w) + 1
  {
    if w == 0xFFFF_FFFF {
      ValueOfGreatest();
    } else {
      IncrementValue(w);
      ValueOfBound(Increment(w));
    }
  }

  /** The counter of block `i` is `counter + i` modulo 2^32. */
  lemma {:induction false} CounterValue(counter: word, i: nat)
    ensures ValueOf(CounterAt(counter, i)) == (ValueOf(counter) + i) % 0x1_0000_0000
  {
    if i == 0 {
      ValueOfBound(counter);
    } else {
      CounterValue(counter, i - 1);
      StepValue(CounterAt(counter, i - 1));
      NextModulo(ValueOf(counter) + i - 1, ValueOf(CounterAt(counter, i - 1)), ValueOf(CounterAt(counter, i)));
    }
  }

  /** Within 2^32 blocks no counter value is used twice. */
  lemma CountersDistinct(counter: word, i: nat, j: nat)
    requires i < j < i + 0x1_0000_0000
    ensures CounterAt(counter, i) != CounterAt(counter, j)
  {
    CounterValue(counter, i);
    CounterValue(counter, j);
  }
}
