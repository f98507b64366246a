/** The ChaCha20 gadgets, with the word and byte gadgets given their value semantics: objects
    whose `GenerateConstraints` updates the words in place. */
module ChaCha20 {
  import opened Bytes
  import opened Sequences
  import opened ChaCha20Spec
  import opened ChaCha20Theorems

  /** One line of the quarter round, word by word in place. */
  function ThreeAssignments(s: State, a: nat, b: nat, d: nat, n: Amount): State
    requires a < 16 && b < 16 && d < 16
  {
    var summed := s[a := Add(s[a], s[b])];
    var mixed := summed[d := Xor(summed[d], summed[a])];
    mixed[d := Rotl(mixed[d], n)]
  }

  function SixAssignments(s: State, a: nat, b: nat, c: nat, d: nat, m: Amount, n: Amount): State
    requires a < 16 && b < 16 && c < 16 && d < 16
  {
    ThreeAssignments(ThreeAssignments(s, a, b, d, m), c, d, b, n)
  }

  function TwelveAssignments(s: State, a: nat, b: nat, c: nat, d: nat): State
    requires a < 16 && b < 16 && c < 16 && d < 16
  {
    SixAssignments(SixAssignments(s, a, b, c, d, 16, 12), a, b, c, d, 8, 7)
  }

  lemma ThreeAreMix(s: State, a: nat, b: nat, d: nat, n: Amount)
    requires a < 16 && b < 16 && d < 16 && a != b && a != d && b != d
    ensures ThreeAssignments(s, a, b, d, n)
         == s[a := Mix(s[a], s[b], s[d], n).0][d := Mix(s[a], s[b], s[d], n).1]
  {
  }

  lemma SixAreHalf(s: State, a: nat, b: nat, c: nat, d: nat, m: Amount, n: Amount)
    requires Indices(a, b, c, d).Valid()
    ensures SixAssignments(s, a, b, c, d, m, n) == Put(s, Indices(a, b, c, d), HalfRound(s[a], s[b], s[c], s[d], m, n))
  {
    ThreeAreMix(s, a, b, d, m);
    ThreeAreMix(ThreeAssignments(s, a, b, d, m), c, d, b, n);
  }

  /** On four different words the assignments are the quarter round of section 2.1 of RFC 8439, and
      touch no other word. */
  lemma TwelveAreRound(s: State, a: nat, b: nat, c: nat, d: nat)
    requires Indices(a, b, c, d).Valid()
    ensures TwelveAssignments(s, a, b, c, d) == RoundAt(s, Indices(a, b, c, d))
  {
    var q := Indices(a, b, c, d);
    SixAreHalf(s, a, b, c, d, 16, 12);
    SixAreHalf(SixAssignments(s, a, b, c, d, 16, 12), a, b, c, d, 8, 7);
    PutTwice(s, q, HalfRound(s[a], s[b], s[c], s[d], 16, 12), QuarterRound(s[a], s[b], s[c], s[d]));
  }

  lemma PutTwice(s: State, q: Quad, v: (word, word, word, word), w: (word, word, word, word))
    ensures var t := Put(s, q, v); (t[q.a], t[q.b], t[q.c], t[q.d]) == v && Put(t, q, w) == Put(s, q, w)
  {
  }

  class QuarterRoundVar {
    var stateVars: seq<word>

    constructor (vars: seq<word>)
      requires |vars| == 16
      ensures stateVars == vars
    {
      stateVars := vars;
    }

    /** For any four indices, the same or not; the quarter round needs four different ones. */
    method GenerateConstraints(a: nat, b: nat, c: nat, d: nat)
      requires |stateVars| == 16 && a < 16 && b < 16 && c < 16 && d < 16
      modifies this
      ensures stateVars == TwelveAssignments(old(stateVars), a, b, c, d)
      ensures Indices(a, b, c, d).Valid() ==> stateVars == RoundAt(old(stateVars), Indices(a, b, c, d))
    {
      if Indices(a, b, c, d).Valid() {
        TwelveAreRound(stateVars, a, b, c, d);
      }
      AddXorRotate(a, b, d, 16);
      AddXorRotate(c, d, b, 12);
      AddXorRotate(a, b, d, 8);
      AddXorRotate(c, d, b, 7);
    }

    /** The three assignments of one line: word `a` gains word `b`, then word `d` is XORed with
        word `a` and rotated. */
    method AddXorRotate(a: nat, b: nat, d: nat, n: Amount)
      requires |stateVars| == 16 && a < 16 && b < 16 && d < 16
      modifies this
      ensures stateVars == ThreeAssignments(old(stateVars), a, b, d, n)
    {
      stateVars := stateVars[a := Add(stateVars[a], stateVars[b])];
      stateVars := stateVars[d := Xor(stateVars[d], stateVars[a])];
      stateVars := stateVars[d := Rotl(stateVars[d], n)];
    }
  }

  class RoundVar {
    var stateVars: seq<word>
    var keyStream: seq<byte>

    constructor (vars: seq<word>)
      requires |vars| == 16
      ensures stateVars == vars && keyStream == []
    {
      stateVars := vars;
      keyStream := [];
    }

    method GenerateConstraints()
      requires |stateVars| == 16
      modifies this`keyStream
      ensures keyStream == Block(stateVars)
    {
      var quarterRound := new QuarterRoundVar(stateVars);
      for n := 0 to 10
        invariant quarterRound.stateVars == DoubleRounds(stateVars, SCHEDULE, n)
      {
        DoubleRound(quarterRound);
      }
      keyStream := SumBytes(stateVars, quarterRound.stateVars);
    }

    static method SumBytes(before: seq<word>, after: seq<word>) returns (stream: seq<byte>)
      requires |before| == |after| == 16
      ensures stream == Serialize(AddWords(before, after))
    {
      stream := [];
      ghost var sum := AddWords(before, after);
      for i := 0 to 16
        invariant stream == Serialize(sum[..i])
      {
        var newVar := Add(before[i], after[i]);
        assert sum[i] == newVar;
        assert sum[..i + 1] == sum[..i] + [sum[i]];
        stream := stream + ToBytesLe(newVar);
      }
      assert sum[..16] == sum;
    }

    /** The loop body of `GenerateConstraints`. */
    static method DoubleRound(quarterRound: QuarterRoundVar)
      requires |quarterRound.stateVars| == 16
      modifies quarterRound
      ensures quarterRound.stateVars == RunRounds(old(quarterRound.stateVars), SCHEDULE)
    {
      RunRoundsSplits(quarterRound.stateVars, SCHEDULE, 4);
      assert SCHEDULE[..4] == [Indices(0, 4, 8, 12), Indices(1, 5, 9, 13), Indices(2, 6, 10, 14), Indices(3, 7, 11, 15)];
      assert SCHEDULE[4..] == [Indices(0, 5, 10, 15), Indices(1, 6, 11, 12), Indices(2, 7, 8, 13), Indices(3, 4, 9, 14)];
      ColumnRound(quarterRound);
      DiagonalRound(quarterRound);
    }

    static method ColumnRound(quarterRound: QuarterRoundVar)
      requires |quarterRound.stateVars| == 16
      modifies quarterRound
      ensures quarterRound.stateVars == RunRounds(old(quarterRound.stateVars),
        [Indices(0, 4, 8, 12), Indices(1, 5, 9, 13), Indices(2, 6, 10, 14), Indices(3, 7, 11, 15)])
    {
      FourRounds(quarterRound.stateVars, Indices(0, 4, 8, 12), Indices(1, 5, 9, 13), Indices(2, 6, 10, 14), Indices(3, 7, 11, 15));
      quarterRound.GenerateConstraints(0, 4, 8, 12);
      quarterRound.GenerateConstraints(1, 5, 9, 13);
      quarterRound.GenerateConstraints(2, 6, 10, 14);
      quarterRound.GenerateConstraints(3, 7, 11, 15);
    }

    static method DiagonalRound(quarterRound: QuarterRoundVar)
      requires |quarterRound.stateVars| == 16
      modifies quarterRound
      ensures quarterRound.stateVars == RunRounds(old(quarterRound.stateVars),
        [Indices(0, 5, 10, 15), Indices(1, 6, 11, 12), Indices(2, 7, 8, 13), Indices(3, 4, 9, 14)])
    {
      FourRounds(quarterRound.stateVars, Indices(0, 5, 10, 15), Indices(1, 6, 11, 12), Indices(2, 7, 8, 13), Indices(3, 4, 9, 14));
      quarterRound.GenerateConstraints(0, 5, 10, 15);
      quarterRound.GenerateConstraints(1, 6, 11, 12);
      quarterRound.GenerateConstraints(2, 7, 8, 13);
      quarterRound.GenerateConstraints(3, 4, 9, 14);
    }
  }

  class ChaCha20Var {
    var qrConstantVars: seq<word>
    var keyVars: seq<word>
    var nonceVars: seq<word>
    var countVar: word
    var inputVars: seq<byte>
    var outputVars: seq<byte>

    ghost predicate Valid()
      reads this
    {
      |qrConstantVars| == 4 && |keyVars| == 8 && |nonceVars| == 3
    }

    constructor (constants: seq<word>, key: seq<word>, nonce: seq<word>, count: word, input: seq<byte>)
      requires |constants| == 4 && |key| == 8 && |nonce| == 3
      ensures Valid()
      ensures qrConstantVars == constants && keyVars == key && nonceVars == nonce && countVar == count
      ensures inputVars == input && outputVars == []
    {
      qrConstantVars := constants;
      keyVars := key;
      nonceVars := nonce;
      countVar := count;
      inputVars := input;
      outputVars := [];
    }

    method GenerateConstraints()
      requires Valid()
      modifies this`outputVars
      ensures outputVars == Encrypt(Cipher(qrConstantVars, keyVars, nonceVars), countVar, inputVars)
    {
      var stateVars := qrConstantVars + keyVars + [countVar] + nonceVars;
      outputVars := EncryptChunks(stateVars, inputVars, Cipher(qrConstantVars, keyVars, nonceVars), countVar);
    }

    /** The loop over the chunks of the message. */
    static method EncryptChunks(vars: seq<word>, input: seq<byte>, ghost cipher: Cipher, ghost counter: word)
      returns (cipherVars: seq<byte>)
      requires vars == InitialState(cipher.constants, cipher.key, counter, cipher.nonce)
      ensures cipherVars == Encrypt(cipher, counter, input)
    {
      var stateVars := vars;
      cipherVars := [];
      NothingEncrypted(cipher, counter);
      var chunks := Chunks(input, 64);
      for i := 0 to |chunks|
        invariant stateVars == InitialState(cipher.constants, cipher.key, CounterAt(counter, i), cipher.nonce)
        invariant cipherVars == Encrypt(cipher, counter, Flatten(chunks[..i]))
      {
        ChunkLength(input, 64, i);
        var outputs := NextChunk(stateVars, chunks[i], cipher, CounterAt(counter, i));
        AppendChunk(cipher, counter, input, i, cipherVars, outputs);
        cipherVars := cipherVars + outputs;
        CounterAdvances(cipher, counter, i);
        stateVars := stateVars[12 := Add(stateVars[12], 1)];
      }
      AllChunks(input, 64);
    }

    /** The loop body: the next block of the key stream, XORed onto one chunk. */
    static method NextChunk(stateVars: seq<word>, chunk: seq<byte>, ghost cipher: Cipher, ghost counter: word)
      returns (outputs: seq<byte>)
      requires |chunk| <= 64
      requires stateVars == InitialState(cipher.constants, cipher.key, counter, cipher.nonce)
      ensures outputs == Encrypt(cipher, counter, chunk)
    {
      var round := new RoundVar(stateVars);
      round.GenerateConstraints();
      outputs := XorChunk(round.keyStream, chunk);
      FirstChunk(cipher, counter, chunk, round.keyStream, outputs);
    }

    /** The zip of the message chunk with the key stream. */
    static method XorChunk(keyStream: seq<byte>, chunk: seq<byte>) returns (outputs: seq<byte>)
      requires |chunk| <= |keyStream|
      ensures outputs == XorBytes(keyStream[..|chunk|], chunk)
    {
      outputs := [];
      for j := 0 to |chunk|
        invariant outputs == XorBytes(keyStream[..j], chunk[..j])
      {
        outputs := outputs + [keyStream[j] ^ chunk[j]];
      }
    }
  }
}
