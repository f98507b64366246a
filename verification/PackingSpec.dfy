/** Bytes to bits, bits to field elements, and back. */
module PackingSpec {
  import opened Bytes
  import opened Sequences
  import opened Field

  function Pow2(n: nat): (p: nat)
    ensures p > 0
  {
    if n == 0 then 1 else 2 * Pow2(n - 1)
  }

  lemma Pow2Plus4(n: nat)
    ensures Pow2(n + 4) == 16 * Pow2(n)
  {
    assert Pow2(n + 2) == 4 * Pow2(n);
  }

  lemma Pow2Plus8(n: nat)
    ensures Pow2(n + 8) == 256 * Pow2(n)
  {
    Pow2Plus4(n);
    Pow2Plus4(n + 4);
  }

  lemma Pow2Plus32(n: nat)
    ensures Pow2(n + 32) == 0x1_0000_0000 * Pow2(n)
  {
    Pow2Plus8(n);
    Pow2Plus8(n + 8);
    Pow2Plus8(n + 16);
    Pow2Plus8(n + 24);
  }

  lemma Pow2Plus128(n: nat)
    ensures Pow2(n + 128) == 0x1_0000_0000_0000_0000_0000_0000_0000_0000 * Pow2(n)
  {
    Pow2Plus32(n);
    Pow2Plus32(n + 32);
    Pow2Plus32(n + 64);
    Pow2Plus32(n + 96);
  }

  lemma {:induction false} Pow2Increases(m: nat, n: nat)
    requires m <= n
    ensures Pow2(m) <= Pow2(n)
    decreases n
  {
    if m < n {
      Pow2Increases(m, n - 1);
    }
  }

  lemma Pow2Of61()
    ensures Pow2(61) == 0x2000_0000_0000_0000
  {
    assert Pow2(1) == 2;
    Pow2Plus4(1);
    Pow2Plus8(5);
    Pow2Plus8(13);
    Pow2Plus8(21);
    Pow2Plus32(29);
  }

  lemma Pow2Of125()
    ensures Pow2(125) == 0x2000_0000_0000_0000_0000_0000_0000_0000
  {
    Pow2Of61();
    Pow2Plus32(61);
    Pow2Plus32(93);
  }

  lemma Pow2Of253()
    ensures Pow2(253) == 0x2000_0000_0000_0000_0000_0000_0000_0000_0000_0000_0000_0000_0000_0000_0000_0000
  {
    Pow2Of125();
    Pow2Plus128(125);
  }

  /** Every chunk size below the bit length of the field stays below the modulus. */
  lemma ChunkFitsField(n: nat)
    requires n < FIELD_BITS
    ensures Pow2(n) < MODULUS
  {
    Pow2Of253();
    Pow2Increases(n, 253);
  }

  // Bytes and their bits, most significant bit first.

  function BitsOfByte(b: byte): (bits: seq<bool>)
    ensures |bits| == 8
  {
    [(b >> 7) & 1 == 1, (b >> 6) & 1 == 1, (b >> 5) & 1 == 1, (b >> 4) & 1 == 1,
     (b >> 3) & 1 == 1, (b >> 2) & 1 == 1, (b >> 1) & 1 == 1, b & 1 == 1]
  }

  function Bit(isSet: bool, mask: byte): byte {
    if isSet then mask else 0
  }

  function ByteOfBits(bits: seq<bool>): byte
    requires |bits| == 8
  {
    Bit(bits[0], 0x80) | Bit(bits[1], 0x40) | Bit(bits[2], 0x20) | Bit(bits[3], 0x10)
    | Bit(bits[4], 0x08) | Bit(bits[5], 0x04) | Bit(bits[6], 0x02) | Bit(bits[7], 0x01)
  }

  lemma ByteRoundTrip(b: byte)
    ensures ByteOfBits(BitsOfByte(b)) == b
  {
  }

  /** `bytes_to_bits_be` */
  function BytesToBits(data: seq<byte>): (bits: seq<bool>)
    ensures |bits| == 8 * |data|
  {
    if data == [] then [] else BitsOfByte(data[0]) + BytesToBits(data[1..])
  }

  function BitsToBytes(bits: seq<bool>): seq<byte>
    requires |bits| % 8 == 0
  {
    if bits == [] then [] else [ByteOfBits(bits[..8])] + BitsToBytes(bits[8..])
  }

  lemma {:induction false} BytesRoundTrip(data: seq<byte>)
    ensures BitsToBytes(BytesToBits(data)) == data
  {
    if data != [] {
      ByteRoundTrip(data[0]);
      BytesRoundTrip(data[1..]);
      assert BytesToBits(data)[..8] == BitsOfByte(data[0]);
      assert BytesToBits(data)[8..] == BytesToBits(data[1..]);
    }
  }

  lemma {:induction false} BytesToBitsConcat(a: seq<byte>, b: seq<byte>)
    ensures BytesToBits(a + b) == BytesToBits(a) + BytesToBits(b)
  {
    if a == [] {
      assert a + b == b;
    } else {
      BytesToBitsConcat(a[1..], b);
      assert (a + b)[0] == a[0] && (a + b)[1..] == a[1..] + b;
      Associates(BitsOfByte(a[0]), BytesToBits(a[1..]), BytesToBits(b));
    }
  }

  lemma {:induction false} ZeroBytes(n: nat)
    ensures BytesToBits(Repeat(0, n)) == Repeat(false, 8 * n)
  {
    if n > 0 {
      ZeroBytes(n - 1);
      var zeros: seq<byte> := Repeat(0, n);
      assert zeros[1..] == Repeat(0, n - 1);
      assert BitsOfByte(0) == Repeat(false, 8);
    }
  }

  // The same bits as digits of numbers.

  /** The binary digit of a number with weight 2^k. */
  function BinaryDigit(x: nat, k: nat): nat {
    if k == 0 then x % 2 else BinaryDigit(x / 2, k - 1)
  }

  /** Bit `m` of a byte string, counted from the most significant bit of its first byte. */
  function BitAt(data: seq<byte>, m: nat): nat
    requires m < 8 * |data|
  {
    BinaryDigit(ByteValue(data[m / 8]), 7 - m % 8)
  }

  /** The bits from `i` up to `j`, the first of them with weight one, the next with weight two. */
  function BitSum(data: seq<byte>, i: nat, j: nat): nat
    requires i <= j <= 8 * |data|
    decreases j - i
  {
    if i == j then 0 else BitAt(data, i) + 2 * BitSum(data, i + 1, j)
  }

  function ShiftRight(b: byte, n: nat): byte {
    if n == 0 then b else ShiftRight(b >> 1, n - 1)
  }

  lemma ShiftHalves(b: byte)
    ensures ByteValue(b >> 1) == ByteValue(b) / 2
    ensures ByteValue(b) % 2 == if b & 1 == 1 then 1 else 0
  {
  }

  lemma {:induction false} DigitOfByte(b: byte, n: nat)
    ensures BinaryDigit(ByteValue(b), n) == if ShiftRight(b, n) & 1 == 1 then 1 else 0
    decreases n
  {
    ShiftHalves(b);
    if n > 0 {
      DigitOfByte(b >> 1, n - 1);
    }
  }

  lemma ShiftsBelowFour(b: byte)
    ensures ShiftRight(b, 0) == b && ShiftRight(b, 1) == b >> 1
    ensures ShiftRight(b, 2) == b >> 2 && ShiftRight(b, 3) == b >> 3
  {
    assert b >> 2 == (b >> 1) >> 1 && b >> 3 == ((b >> 1) >> 1) >> 1;
  }

  lemma ShiftFour(b: byte, n: nat)
    ensures ShiftRight(b, n + 4) == ShiftRight(b >> 4, n)
  {
    var c := b >> 1;
    var d := c >> 1;
    var e := d >> 1;
    assert b >> 4 == e >> 1;
    assert ShiftRight(e, n + 1) == ShiftRight(e >> 1, n);
    assert ShiftRight(d, n + 2) == ShiftRight(e, n + 1);
    assert ShiftRight(c, n + 3) == ShiftRight(d, n + 2);
  }

  lemma HighBit(b: byte, k: nat)
    requires k < 4
    ensures BitsOfByte(b)[k] <==> ShiftRight(b, 7 - k) & 1 == 1
  {
    ShiftFour(b, 3 - k);
    ShiftsBelowFour(b >> 4);
    assert (b >> 4) >> 1 == b >> 5 && (b >> 4) >> 2 == b >> 6 && (b >> 4) >> 3 == b >> 7;
  }

  lemma LowBit(b: byte, k: nat)
    requires 4 <= k < 8
    ensures BitsOfByte(b)[k] <==> ShiftRight(b, 7 - k) & 1 == 1
  {
    ShiftsBelowFour(b);
  }

  lemma BitOfByte(b: byte, k: nat)
    requires k < 8
    ensures (if BitsOfByte(b)[k] then 1 else 0) == BinaryDigit(ByteValue(b), 7 - k)
  {
    if k < 4 {
      HighBit(b, k);
    } else {
      LowBit(b, k);
    }
    DigitOfByte(b, 7 - k);
  }

  lemma {:induction false} BitIs(data: seq<byte>, m: nat)
    requires m < 8 * |data|
    ensures (if BytesToBits(data)[m] then 1 else 0) == BitAt(data, m)
  {
    if m < 8 {
      BitOfByte(data[0], m);
    } else {
      BitIs(data[1..], m - 8);
      assert BytesToBits(data)[m] == BytesToBits(data[1..])[m - 8];
      assert data[1..][(m - 8) / 8] == data[m / 8];
    }
  }

  // Bits and their little-endian value.

  function LeValue(bits: seq<bool>): nat {
    if bits == [] then 0 else (if bits[0] then 1 else 0) + 2 * LeValue(bits[1..])
  }

  function LeBits(value: nat, len: nat): (bits: seq<bool>)
    ensures |bits| == len
  {
    if len == 0 then [] else [value % 2 == 1] + LeBits(value / 2, len - 1)
  }

  lemma {:induction false} LeValueBound(bits: seq<bool>)
    ensures LeValue(bits) < Pow2(|bits|)
  {
    if bits != [] {
      LeValueBound(bits[1..]);
    }
  }

  lemma {:induction false} LeBitsOfLeValue(bits: seq<bool>)
    ensures LeBits(LeValue(bits), |bits|) == bits
  {
    if bits != [] {
      LeBitsOfLeValue(bits[1..]);
      assert LeValue(bits) / 2 == LeValue(bits[1..]);
    }
  }

  /** Padding with zero bits at the top keeps the value. */
  lemma {:induction false} ZeroPadding(bits: seq<bool>, n: nat)
    ensures LeValue(bits + Repeat(false, n)) == LeValue(bits)
    decreases |bits| + n
  {
    if bits == [] {
      if n > 0 {
        assert bits + Repeat(false, n) == Repeat(false, n) && Repeat(false, n)[1..] == [] + Repeat(false, n - 1);
        ZeroPadding([], n - 1);
      }
    } else {
      ZeroPadding(bits[1..], n);
      assert (bits + Repeat(false, n))[1..] == bits[1..] + Repeat(false, n);
    }
  }

  lemma {:induction false} LeValueSnoc(bits: seq<bool>, b: bool)
    ensures LeValue(bits + [b]) == LeValue(bits) + (if b then Pow2(|bits|) else 0)
  {
    if bits == [] {
      assert bits + [b] == [b];
    } else {
      LeValueSnoc(bits[1..], b);
      assert (bits + [b])[1..] == bits[1..] + [b];
    }
  }

  /** Equal values with different lengths differ only by zero bits at the top. */
  lemma SameLeValue(x: seq<bool>, y: seq<bool>)
    requires |x| <= |y| && LeValue(x) == LeValue(y)
    ensures y == x + Repeat(false, |y| - |x|)
  {
    LeBitsOfLeValue(y);
    ZeroPadding(x, |y| - |x|);
    LeBitsOfLeValue(x + Repeat(false, |y| - |x|));
  }

  /** The value of a slice of the bits is the sum of its digits. */
  lemma {:induction false} SliceIsBitSum(data: seq<byte>, i: nat, j: nat)
    requires i <= j <= 8 * |data|
    ensures LeValue(BytesToBits(data)[i..j]) == BitSum(data, i, j)
    decreases j - i
  {
    if i < j {
      var slice := BytesToBits(data)[i..j];
      assert slice[1..] == BytesToBits(data)[i + 1..j];
      BitIs(data, i);
      SliceIsBitSum(data, i + 1, j);
    }
  }

  // Chunks of bits as field elements.

  function Pack(bits: seq<bool>): Fr {
    LeValue(bits) % MODULUS
  }

  lemma PackIsLeValue(bits: seq<bool>)
    requires |bits| < FIELD_BITS
    ensures Pack(bits) == LeValue(bits)
  {
    LeValueBound(bits);
    ChunkFitsField(|bits|);
  }

  /** A chunk size below the bit length of the field. */
  type ChunkSize = n: Size | n < FIELD_BITS witness 250

  function PackAll(chunks: seq<seq<bool>>): (packed: seq<Fr>)
    ensures |packed| == |chunks|
    ensures forall i | 0 <= i < |chunks| :: packed[i] == Pack(chunks[i])
  {
    seq(|chunks|, i requires 0 <= i < |chunks| => Pack(chunks[i]))
  }

  /** The field elements of `data`, with chunks of `n` bits; the last chunk is not padded. */
  function Compress(bits: seq<bool>, n: Size): seq<Fr>
  {
    PackAll(Chunks(bits, n))
  }

  /** Element `i` is the number with the binary digits from `n * i` on, at most `n` of them. */
  lemma ElementIsBitSum(data: seq<byte>, n: ChunkSize, i: nat, at: nat)
    requires i < |Compress(BytesToBits(data), n)| && at == Times(n, i)
    ensures at < 8 * |data| && Compress(BytesToBits(data), n)[i] == BitSum(data, at, Min(at + n, 8 * |data|))
  {
    ChunkAt(BytesToBits(data), n, i, at);
    PackIsLeValue(Chunks(BytesToBits(data), n)[i]);
    SliceIsBitSum(data, at, Min(at + n, 8 * |data|));
  }

  lemma CompressStep(bits: seq<bool>, n: Size)
    requires n < |bits|
    ensures Compress(bits, n) == [Pack(bits[..n])] + Compress(bits[n..], n)
  {
  }

  /** The explicit inverse of `Compress`, given how many bits there were. */
  function Decompress(packed: seq<Fr>, n: Size, total: nat): seq<bool>
    decreases total
  {
    if packed == [] then []
    else if total <= n then LeBits(packed[0], total)
    else LeBits(packed[0], n) + Decompress(packed[1..], n, total - n)
  }

  lemma PackRoundTrip(bits: seq<bool>, n: ChunkSize)
    requires |bits| <= n
    ensures LeBits(Pack(bits), |bits|) == bits && Pack(bits) < Pow2(n)
  {
    PackIsLeValue(bits);
    LeBitsOfLeValue(bits);
    LeValueBound(bits);
    Pow2Increases(|bits|, n);
  }

  lemma DecompressStep(x: Fr, rest: seq<Fr>, n: Size, total: nat)
    requires n < total
    ensures Decompress([x] + rest, n, total) == LeBits(x, n) + Decompress(rest, n, total - n)
  {
    assert ([x] + rest)[1..] == rest;
  }

  ghost predicate AllSmall(packed: seq<Fr>, n: nat) {
    forall i | 0 <= i < |packed| :: packed[i] < Pow2(n)
  }

  /** Packing loses nothing and no chunk wraps around the field. */
  lemma {:induction false} CompressRoundTrip(bits: seq<bool>, n: ChunkSize)
    ensures Decompress(Compress(bits, n), n, |bits|) == bits
    ensures AllSmall(Compress(bits, n), n)
    decreases |bits|
  {
    if bits == [] {
    } else if |bits| <= n {
      PackRoundTrip(bits, n);
    } else {
      CompressStep(bits, n);
      PackRoundTrip(bits[..n], n);
      CompressRoundTrip(bits[n..], n);
      DecompressStep(Pack(bits[..n]), Compress(bits[n..], n), n, |bits|);
    }
  }

  /** The whole way back: the packed bytes are recovered from their field elements. */
  lemma CompressBytesRoundTrip(data: seq<byte>, n: ChunkSize)
    ensures Decompress(Compress(BytesToBits(data), n), n, 8 * |data|) == BytesToBits(data)
    ensures BitsToBytes(BytesToBits(data)) == data
  {
    CompressRoundTrip(BytesToBits(data), n);
    BytesRoundTrip(data);
  }

  lemma CompressInjective(a: seq<byte>, b: seq<byte>, n: ChunkSize)
    requires |a| == |b|
    requires Compress(BytesToBits(a), n) == Compress(BytesToBits(b), n)
    ensures a == b
  {
    CompressBytesRoundTrip(a, n);
    CompressBytesRoundTrip(b, n);
  }

  /** What equal field elements say about bits of different lengths. */
  lemma {:induction false} SameCompress(x: seq<bool>, y: seq<bool>, n: ChunkSize)
    requires |x| <= |y|
    requires Compress(x, n) == Compress(y, n)
    ensures y == x + Repeat(false, |y| - |x|)
    decreases |x|
  {
    assert |Chunks(x, n)| == |Chunks(y, n)|;
    if x == [] {
    } else if |x| <= n {
      assert |Chunks(y, n)| == 1;
      assert |y| <= n by {
        if |y| > n {
          ChunksNonempty(y[n..], n);
        }
      }
      assert Compress(x, n)[0] == Compress(y, n)[0];
      PackIsLeValue(x);
      PackIsLeValue(y);
      SameLeValue(x, y);
    } else {
      CompressStep(x, n);
      CompressStep(y, n);
      assert Compress(x, n)[0] == Compress(y, n)[0];
      assert Compress(x, n)[1..] == Compress(x[n..], n) && Compress(y, n)[1..] == Compress(y[n..], n);
      PackIsLeValue(x[..n]);
      PackIsLeValue(y[..n]);
      SameLeValue(x[..n], y[..n]);
      SameCompress(x[n..], y[n..], n);
      assert x == x[..n] + x[n..] && y == y[..n] + y[n..];
    }
  }

  lemma ChunksNonempty(s: seq<bool>, n: Size)
    requires s != []
    ensures |Chunks(s, n)| > 0
  {
  }

  lemma {:induction false} ZeroExtensionCompress(x: seq<bool>, k: nat, n: ChunkSize)
    requires |Chunks(x, n)| == |Chunks(x + Repeat(false, k), n)|
    ensures Compress(x, n) == Compress(x + Repeat(false, k), n)
    decreases |x|
  {
    var y := x + Repeat(false, k);
    if x == [] {
      if k > 0 {
        ChunksNonempty(y, n);
      }
    } else if |x| <= n {
      assert |y| <= n by {
        if |y| > n {
          ChunksNonempty(y[n..], n);
        }
      }
      ZeroPadding(x, k);
    } else {
      CompressStep(x, n);
      CompressStep(y, n);
      assert y[..n] == x[..n] && y[n..] == x[n..] + Repeat(false, k);
      ZeroExtensionCompress(x[n..], k, n);
    }
  }

  lemma ExtendedBits(a: seq<byte>, zeros: seq<byte>, k: nat)
    requires zeros == Repeat(0, k)
    ensures BytesToBits(a + zeros) == BytesToBits(a) + Repeat(false, 8 * k)
  {
    BytesToBitsConcat(a, zeros);
    ZeroBytes(k);
  }

  lemma BitsInjective(a: seq<byte>, b: seq<byte>)
    requires BytesToBits(a) == BytesToBits(b)
    ensures a == b
  {
    BytesRoundTrip(a);
    BytesRoundTrip(b);
  }

  lemma SameElementsExtend(a: seq<byte>, b: seq<byte>, zeros: seq<byte>, n: ChunkSize)
    requires |a| <= |b| && zeros == Repeat(0, |b| - |a|)
    requires Compress(BytesToBits(a), n) == Compress(BytesToBits(b), n)
    ensures b == a + zeros
  {
    SameCompress(BytesToBits(a), BytesToBits(b), n);
    ExtendedBits(a, zeros, |b| - |a|);
    BitsInjective(b, a + zeros);
  }

  lemma ExtensionSameElements(a: seq<byte>, b: seq<byte>, zeros: seq<byte>, n: ChunkSize)
    requires |a| <= |b| && zeros == Repeat(0, |b| - |a|) && b == a + zeros
    requires |Chunks(BytesToBits(a), n)| == |Chunks(BytesToBits(b), n)|
    ensures Compress(BytesToBits(a), n) == Compress(BytesToBits(b), n)
  {
    ExtendedBits(a, zeros, |b| - |a|);
    ZeroExtensionCompress(BytesToBits(a), 8 * (|b| - |a|), n);
  }

  lemma SameNumberOfChunks(x: seq<bool>, y: seq<bool>, n: Size)
    requires Compress(x, n) == Compress(y, n)
    ensures |Chunks(x, n)| == |Chunks(y, n)|
  {
    assert |Compress(x, n)| == |Chunks(x, n)| && |Compress(y, n)| == |Chunks(y, n)|;
  }

  /** Two byte strings have the same field elements exactly when the longer one is the shorter one
      followed by zero bytes that open no further chunk. */
  lemma CompressEqualExactly(a: seq<byte>, b: seq<byte>, n: ChunkSize)
    requires |a| <= |b|
    ensures Compress(BytesToBits(a), n) == Compress(BytesToBits(b), n)
       <==> b == a + Repeat(0, |b| - |a|) && |Chunks(BytesToBits(a), n)| == |Chunks(BytesToBits(b), n)|
  {
    if Compress(BytesToBits(a), n) == Compress(BytesToBits(b), n) {
      SameElementsExtend(a, b, Repeat(0, |b| - |a|), n);
      SameNumberOfChunks(BytesToBits(a), BytesToBits(b), n);
    } else if b == a + Repeat(0, |b| - |a|) && |Chunks(BytesToBits(a), n)| == |Chunks(BytesToBits(b), n)| {
      ExtensionSameElements(a, b, Repeat(0, |b| - |a|), n);
    }
  }
}
