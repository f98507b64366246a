/** The native commitment: the loops of `commitment.rs`. */
module Commitment {
  import opened Bytes
  import opened Sequences
  import opened Field
  import opened PackingSpec
  import opened MimcSpec
  import CommitmentSpec
  import Mimc

  /** `le_bits_to_fp`: `power` doubles at every bit. */
  method LeBitsToFp(bits: seq<bool>) returns (result: Fr)
    ensures result == Pack(bits)
  {
    result := 0;
    var power: Fr := 1;
    for i := 0 to |bits|
      invariant result == LeValue(bits[..i]) % MODULUS
      invariant power == Pow2(i) % MODULUS
    {
      assert bits[..i + 1] == bits[..i] + [bits[i]];
      LeValueSnoc(bits[..i], bits[i]);
      AddResidues(LeValue(bits[..i]), Pow2(i));
      AddResidues(Pow2(i), Pow2(i));
      if bits[i] {
        result := Add(result, power);
      }
      power := Add(power, power);
    }
    assert bits[..|bits|] == bits;
  }

  /** `compress_bytes`: every chunk is copied into a zeroed buffer of `chunkBits` bits. */
  method CompressBytes(data: seq<byte>, chunkBits: Size) returns (packed: seq<Fr>)
    ensures packed == Compress(BytesToBits(data), chunkBits)
  {
    var bits := BytesToBits(data);
    var chunks := Chunks(bits, chunkBits);
    packed := [];
    for i := 0 to |chunks|
      invariant packed == PackAll(chunks[..i])
    {
      ChunkLength(bits, chunkBits, i);
      var padded := PadChunk(chunks[i], chunkBits);
      ZeroPadding(chunks[i], chunkBits - |chunks[i]|);
      var value := LeBitsToFp(padded);
      packed := packed + [value];
      assert chunks[..i + 1] == chunks[..i] + [chunks[i]];
    }
    assert chunks[..|chunks|] == chunks;
  }

  method PadChunk(chunk: seq<bool>, chunkBits: nat) returns (padded: seq<bool>)
    requires |chunk| <= chunkBits
    ensures padded == chunk + Repeat(false, chunkBits - |chunk|)
  {
    padded := Repeat(false, chunkBits);
    for i := 0 to |chunk|
      invariant padded == chunk[..i] + Repeat(false, chunkBits - i)
    {
      padded := padded[i := chunk[i]];
    }
  }

  method MimcCommit(p: Params, data: seq<byte>) returns (commitment: Fr)
    ensures commitment == CommitmentSpec.MimcCommit(p, data)
  {
    var state := CompressBytes(data, CommitmentSpec.CHUNK_BITS);
    var outputs := Mimc.PermuteFeistel(p, state, 1);
    commitment := outputs[0];
  }
}
