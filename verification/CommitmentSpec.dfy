/** What the commitments are, and what they do and do not tell apart. */
module CommitmentSpec {
  import opened Bytes
  import opened Sequences
  import opened Field
  import opened PackingSpec
  import opened MimcSpec

  const CHUNK_BITS: nat := 250

  function MimcCommit(p: Params, data: seq<byte>): Fr
  {
    PermuteFeistel(p, Compress(BytesToBits(data), CHUNK_BITS), 1)[0]
  }

  /** The sponge after absorbing `data`; the commitment shows its rate only. */
  function SpongeState(p: Params, data: seq<byte>): State
  {
    Absorb(p, EMPTY, Compress(BytesToBits(data), CHUNK_BITS))
  }

  lemma CommitIsRate(p: Params, data: seq<byte>)
    ensures MimcCommit(p, data) == SpongeState(p, data).r
  {
  }

  ghost predicate DifferOnlyAt<T>(x: seq<T>, y: seq<T>, j: nat) {
    && j < |x| == |y|
    && x[j] != y[j]
    && forall i | 0 <= i < |x| && i != j :: x[i] == y[i]
  }

  /** Byte strings of equal length whose bits differ in exactly one 250-bit chunk leave the sponge
      in different states. */
  lemma SpongeSeparates(p: Params, a: seq<byte>, b: seq<byte>, j: nat)
    requires |a| == |b|
    requires DifferOnlyAt(Chunks(BytesToBits(a), CHUNK_BITS), Chunks(BytesToBits(b), CHUNK_BITS), j)
    ensures SpongeState(p, a) != SpongeState(p, b)
  {
    var x, y := Chunks(BytesToBits(a), CHUNK_BITS), Chunks(BytesToBits(b), CHUNK_BITS);
    ChunkAt(BytesToBits(a), CHUNK_BITS, j, Times(CHUNK_BITS, j));
    ChunkAt(BytesToBits(b), CHUNK_BITS, j, Times(CHUNK_BITS, j));
    ChunkDifferenceSeparates(p, x, y, j);
  }

  lemma ChunkDifferenceSeparates(p: Params, x: seq<seq<bool>>, y: seq<seq<bool>>, j: nat)
    requires DifferOnlyAt(x, y, j) && |x[j]| == |y[j]| < FIELD_BITS
    ensures Absorb(p, EMPTY, PackAll(x)) != Absorb(p, EMPTY, PackAll(y))
  {
    if Pack(x[j]) == Pack(y[j]) {
      PackInjective(x[j], y[j]);
    }
    OneDifferenceSeparates(p, EMPTY, PackAll(x), PackAll(y), j);
  }

  /** A commitment shows the rate only: if two such strings have the same commitment, the difference is
      all in the capacity. */
  lemma EqualCommitmentsDifferInCapacity(p: Params, a: seq<byte>, b: seq<byte>, j: nat)
    requires |a| == |b| && MimcCommit(p, a) == MimcCommit(p, b)
    requires DifferOnlyAt(Chunks(BytesToBits(a), CHUNK_BITS), Chunks(BytesToBits(b), CHUNK_BITS), j)
    ensures SpongeState(p, a).c != SpongeState(p, b).c
  {
    SpongeSeparates(p, a, b, j);
    CommitIsRate(p, a);
    CommitIsRate(p, b);
  }

  lemma PackInjective(x: seq<bool>, y: seq<bool>)
    requires |x| == |y| < FIELD_BITS && Pack(x) == Pack(y)
    ensures x == y
  {
    PackIsLeValue(x);
    PackIsLeValue(y);
    LeBitsOfLeValue(x);
    LeBitsOfLeValue(y);
  }

  lemma {:induction false} ChunkCount(bits: seq<bool>)
    ensures |Chunks(bits, CHUNK_BITS)| == (|bits| + 249) / 250
    decreases |bits|
  {
    if |bits| > CHUNK_BITS {
      ChunkCount(bits[CHUNK_BITS..]);
    }
  }

  /** The number with the binary digits of a byte string from `250 * i` on, at most 250 of them. */
  function Group(data: seq<byte>, i: nat): nat {
    if 250 * i > 8 * |data| then 0 else BitSum(data, 250 * i, Min(250 * i + 250, 8 * |data|))
  }

  /** A byte string has one field element for every 250 bits or part of them, and these are its groups. */
  lemma ElementsAre(data: seq<byte>)
    ensures |Compress(BytesToBits(data), CHUNK_BITS)| == (8 * |data| + 249) / 250
    ensures forall i | 0 <= i < |Compress(BytesToBits(data), CHUNK_BITS)| ::
              Compress(BytesToBits(data), CHUNK_BITS)[i] == Group(data, i)
  {
    ChunkCount(BytesToBits(data));
    forall i | 0 <= i < |Compress(BytesToBits(data), CHUNK_BITS)|
      ensures Compress(BytesToBits(data), CHUNK_BITS)[i] == Group(data, i)
    {
      ElementIsGroup(data, i);
    }
  }

  lemma ElementIsGroup(data: seq<byte>, i: nat)
    requires i < |Compress(BytesToBits(data), CHUNK_BITS)|
    ensures Compress(BytesToBits(data), CHUNK_BITS)[i] == Group(data, i)
  {
    TimesIsProduct(250, i);
    ElementIsBitSum(data, CHUNK_BITS, i, 250 * i);
  }

  /** The commitment in numbers: cut the binary digits into groups of 250, add one group at every turn, and
      take the rate. */
  lemma CommitmentIsNumeric(p: Params, data: seq<byte>, elements: seq<Fr>)
    requires |elements| == (8 * |data| + 249) / 250
    requires forall i | 0 <= i < |elements| :: elements[i] == Group(data, i)
    ensures MimcCommit(p, data) == Turns(p, elements, |elements|).r
  {
    ElementsAre(data);
    assert elements == Compress(BytesToBits(data), CHUNK_BITS);
    SpongeIsTurns(p, elements, 1);
  }

  /** The packing is injective on strings of one length, and on strings of different lengths it
      forgets exactly the zero bytes that fit into the last chunk. */
  lemma PackingForgets(a: seq<byte>, b: seq<byte>)
    requires |a| <= |b|
    ensures Compress(BytesToBits(a), CHUNK_BITS) == Compress(BytesToBits(b), CHUNK_BITS)
       <==> b == a + Repeat(0, |b| - |a|) && (8 * |a| + 249) / 250 == (8 * |b| + 249) / 250
  {
    CompressEqualExactly(a, b, CHUNK_BITS);
    ChunkCount(BytesToBits(a));
    ChunkCount(BytesToBits(b));
  }

  /** Injectivity needs equal lengths: one byte and the same byte followed by a zero byte have the
      same commitment. */
  lemma LengthIsNotCommitted(p: Params, x: byte)
    ensures MimcCommit(p, [x]) == MimcCommit(p, [x, 0])
  {
    assert [x, 0] == [x] + Repeat(0, 1);
    PackingForgets([x], [x, 0]);
  }
}
