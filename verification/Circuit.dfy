/** The prompt circuit: `ReqVar`, `compress_var` and `ZkPrompt::generate_constraints`. */
module Circuit {
  import opened Bytes
  import opened Sequences
  import opened Field
  import opened PackingSpec
  import opened ChaCha20Spec
  import opened ChaCha20
  import opened Constraints
  import opened MimcCircuit
  import opened CircuitSpec
  import MimcSpec
  import CommitmentSpec
  import WireSpec

  /** `enforce_equals`: what both byte strings have in length is compared. */
  method EnforceEquals(cs: ConstraintSystem, a: bytes, b: bytes)
    requires cs.Valid()
    modifies cs
    ensures cs.Valid() && cs.wires == old(cs.wires)
    ensures var n := Min(|a|, |b|);
            BytesAgree(cs.constraints) <==> BytesAgree(old(cs.constraints)) && a[..n] == b[..n]
  {
    for i := 0 to Min(|a|, |b|)
      invariant cs.Valid() && cs.wires == old(cs.wires)
      invariant BytesAgree(cs.constraints) <==> BytesAgree(old(cs.constraints)) && a[..i] == b[..i]
    {
      ghost var before := cs.constraints;
      cs.EnforceBytesEqual(a[i], b[i]);
      AddedByteCheck(before, a[i], b[i]);
      assert a[..i + 1] == a[..i] + [a[i]] && b[..i + 1] == b[..i] + [b[i]];
    }
  }

  lemma AddedByteCheck(cs: seq<Constraint>, x: byte, y: byte)
    ensures BytesAgree(cs + [BytesEqual(x, y)]) <==> BytesAgree(cs) && x == y
  {
    var later := cs + [BytesEqual(x, y)];
    assert later[|cs|] == BytesEqual(x, y);
    assert forall i | 0 <= i < |cs| :: later[i] == cs[i];
  }

  /** `ReqVar`: the request bytes and the template they must start with. */
  datatype ReqVar = ReqVar(dataVars: bytes, config: WireSpec.RequestConfig) {

    function PromptStart(): nat {
      WireSpec.BodyStart(config)
    }

    method GenerateConstraints(cs: ConstraintSystem)
      requires cs.Valid() && |WireSpec.Template(config)| <= |dataVars|
      modifies cs
      ensures cs.Valid() && cs.wires == old(cs.wires)
      ensures BytesAgree(cs.constraints)
              <==> (BytesAgree(old(cs.constraints))
                    && dataVars[..|WireSpec.Template(config)|] == WireSpec.Template(config))
    {
      var sections := WireSpec.HeaderSections(config);
      var start := 0;
      for i := 0 to |sections|
        invariant cs.Valid() && cs.wires == old(cs.wires)
        invariant start == |Flatten(sections[..i])| && Flatten(sections[..i]) <= WireSpec.Template(config)
        invariant BytesAgree(cs.constraints)
             <==> BytesAgree(old(cs.constraints)) && dataVars[..start] == Flatten(sections[..i])
      {
        FlattenTakeNext(sections, i);
        FlattenTake(sections, i + 1);
        var end := start + |sections[i]|;
        EnforceEquals(cs, sections[i], dataVars[start..end]);
        assert sections[i][..|sections[i]|] == sections[i];
        assert dataVars[start..end][..|sections[i]|] == dataVars[start..end];
        SameParts(dataVars, start, end, Flatten(sections[..i]), sections[i]);
        start := end;
      }
      assert sections[..|sections|] == sections;
    }
  }

  lemma SameParts(data: bytes, start: nat, end: nat, a: bytes, b: bytes)
    requires |a| == start <= end <= |data| && |b| == end - start
    ensures data[..end] == a + b <==> data[..start] == a && b == data[start..end]
  {
    if data[..end] == a + b {
      assert data[..start] == data[..end][..start] == (a + b)[..start];
      assert data[start..end] == data[..end][start..] == (a + b)[start..];
    }
    if data[..start] == a && b == data[start..end] {
      assert data[..end] == data[..start] + data[start..end];
    }
  }

  /** In every assignment that satisfies `cs`, the variables are the packed chunks of `bits`. */
  ghost predicate HoldsCompressed(cs: seq<Constraint>, bits: seq<bool>, n: Size, vars: seq<FpVar>)
  {
    forall w :: AllHold(cs, w) ==> EvalAll(vars, w) == Compress(bits, n)
  }

  /** `compress_var`: the chunks are packed without padding. */
  method CompressVar(cs: ConstraintSystem, bits: seq<bool>, n: ChunkSize) returns (vars: seq<FpVar>)
    requires cs.Valid()
    modifies cs
    ensures cs.Valid() && old(cs.wires) <= cs.wires && AllBelow(vars, cs.wires)
    ensures NoByteChecksAdded(old(cs.constraints), cs.constraints)
    ensures HoldsCompressed(cs.constraints, bits, n, vars)
  {
    var chunks := Chunks(bits, n);
    vars := [];
    for i := 0 to |chunks|
      invariant cs.Valid() && old(cs.wires) <= cs.wires && AllBelow(vars, cs.wires)
      invariant NoByteChecksAdded(old(cs.constraints), cs.constraints)
      invariant |vars| == i
      invariant forall w :: AllHold(cs.constraints, w) ==> EvalAll(vars, w) == PackAll(chunks[..i])
    {
      ChunkLength(bits, n, i);
      ghost var before, wires := cs.constraints, cs.wires;
      var packed := cs.PackBits(chunks[i]);
      PackedNext(before, cs.constraints, chunks, i, vars, packed);
      AllBelowMonotone(vars, wires, cs.wires);
      vars := vars + [packed];
    }
    assert chunks[..|chunks|] == chunks;
  }

  lemma PackedNext(before: seq<Constraint>, cs: seq<Constraint>, chunks: seq<seq<bool>>, i: nat, vars: seq<FpVar>,
                   packed: FpVar)
    requires i < |chunks| && packed.Wire? && cs == before + [Packed(chunks[i], packed.index)]
    requires forall w :: AllHold(before, w) ==> EvalAll(vars, w) == PackAll(chunks[..i])
    ensures forall w :: AllHold(cs, w) ==> EvalAll(vars + [packed], w) == PackAll(chunks[..i + 1])
  {
    HoldEarlier(before, cs);
    forall w | AllHold(cs, w)
      ensures EvalAll(vars + [packed], w) == PackAll(chunks[..i + 1])
    {
      assert Holds(cs[|before|], w);
      assert EvalAll(vars + [packed], w) == EvalAll(vars, w) + [Eval(packed, w)];
      assert PackAll(chunks[..i + 1]) == PackAll(chunks[..i]) + [Pack(chunks[i])];
    }
  }

  /** The witness values and the template of one proof, with the table of the sponge. */
  class ZkPrompt {
    const cipherTexts: bytes
    const key: bytes
    const nonce: bytes
    const count: word
    const config: WireSpec.RequestConfig
    const exponent: nat
    const roundKeys: seq<Fr>

    constructor (cipherTexts: bytes, key: bytes, nonce: bytes, count: word, config: WireSpec.RequestConfig,
                 exponent: nat, roundKeys: seq<Fr>)
      ensures this.cipherTexts == cipherTexts && this.key == key && this.nonce == nonce && this.count == count
      ensures this.config == config
      ensures this.exponent == exponent && this.roundKeys == roundKeys
    {
      this.cipherTexts := cipherTexts;
      this.key := key;
      this.nonce := nonce;
      this.count := count;
      this.config := config;
      this.exponent := exponent;
      this.roundKeys := roundKeys;
    }

    /** The lengths without which synthesis stops with a panic. */
    predicate Valid() {
      && |key| == 32 && |nonce| == 12
      && |cipherTexts| >= WireSpec.BodyStart(config) + config.contentLength
    }

    method GenerateConstraints(cs: ConstraintSystem) returns (promptInput: nat, cipherInput: nat)
      requires Valid() && cs.wires == 0 && cs.constraints == []
      modifies cs
      ensures cs.Valid()
      ensures forall x: Fr, y: Fr ::
                Satisfiable(cs.constraints, cs.wires, promptInput, cipherInput, x, y)
                <==> Accepts(MimcSpec.Params(exponent, 0, roundKeys), config, key, nonce, count, cipherTexts, x, y)
    {
      var keyVars := WordsFromBytes(key);
      var nonceVars := WordsFromBytes(nonce);
      var chacha20 := new ChaCha20Var(CONSTANTS, keyVars, nonceVars, count, cipherTexts);
      chacha20.GenerateConstraints();
      promptInput, cipherInput := ConstrainText(cs, chacha20.outputVars);
    }

    /** The constraints on the decrypted text, and the public inputs. */
    method ConstrainText(cs: ConstraintSystem, outputVars: bytes) returns (promptInput: nat, cipherInput: nat)
      requires Valid() && cs.Valid() && cs.constraints == [] && |outputVars| == |cipherTexts|
      modifies cs
      ensures cs.Valid()
      ensures forall x: Fr, y: Fr ::
                Satisfiable(cs.constraints, cs.wires, promptInput, cipherInput, x, y)
                <==> AcceptsText(MimcSpec.Params(exponent, 0, roundKeys), config, outputVars, cipherTexts, x, y)
    {
      var reqVar := ReqVar(outputVars, config);
      reqVar.GenerateConstraints(cs);
      ghost var checks := cs.constraints;
      var start := reqVar.PromptStart();
      var end := start + config.contentLength;
      var prompt := outputVars[start..end];
      promptInput, cipherInput := ConstrainCommitments(cs, prompt);
      BytesAgreeLater(checks, cs.constraints);
      TextAcceptedExactly(cs.constraints, cs.wires, promptInput, cipherInput, MimcSpec.Params(exponent, 0, roundKeys), config,
                          outputVars, cipherTexts);
    }

    /** Both commitments and the public inputs that must equal them. */
    method ConstrainCommitments(cs: ConstraintSystem, prompt: bytes) returns (promptInput: nat, cipherInput: nat)
      requires Valid() && cs.Valid()
      modifies cs
      ensures cs.Valid() && NoByteChecksAdded(old(cs.constraints), cs.constraints)
      ensures forall w :: AllHold(cs.constraints, w) ==>
                WireValue(w, promptInput) == CommitmentSpec.MimcCommit(MimcSpec.Params(exponent, 0, roundKeys), prompt)
                && WireValue(w, cipherInput)
                   == CommitmentSpec.MimcCommit(MimcSpec.Params(exponent, 0, roundKeys), cipherTexts)
    {
      ghost var p := MimcSpec.Params(exponent, 0, roundKeys);
      var mimcVar := SpongeVar();
      var promptCommitment := CommitVar(cs, mimcVar, p, prompt);
      ghost var afterPrompt, wires := cs.constraints, cs.wires;
      var cipherCommitment := CommitVar(cs, mimcVar, p, cipherTexts);
      BelowMonotone(promptCommitment, wires, cs.wires);
      ghost var afterCipher := cs.constraints;
      promptInput := cs.NewInput(promptCommitment);
      BelowMonotone(cipherCommitment, cs.wires - 1, cs.wires);
      cipherInput := cs.NewInput(cipherCommitment);
      PublicWires(afterPrompt, afterCipher, cs.constraints, promptCommitment, cipherCommitment, promptInput, cipherInput,
                  CommitmentSpec.MimcCommit(p, prompt), CommitmentSpec.MimcCommit(p, cipherTexts));
    }

    /** The sponge of the circuit; its additive constant is zero. */
    method SpongeVar() returns (mimcVar: MimcVar)
      ensures mimcVar.numOutputs == 1 && forall n :: mimcVar.Allocated(n)
      ensures forall w :: mimcVar.At(w) == MimcSpec.Params(exponent, 0, roundKeys)
    {
      var roundConstantVars := seq(|roundKeys|, i requires 0 <= i < |roundKeys| => Constant(roundKeys[i]));
      mimcVar := MimcVar(1, exponent, Constant(0), roundConstantVars);
      forall w
        ensures mimcVar.At(w) == MimcSpec.Params(exponent, 0, roundKeys)
      {
        assert EvalAll(roundConstantVars, w) == roundKeys;
      }
    }
  }

  /** `u32::from_le_bytes` of every four bytes. */
  method WordsFromBytes(b: bytes) returns (words: seq<word>)
    requires |b| % 4 == 0
    ensures words == WordsLe(b)
  {
    words := [];
    for i := 0 to |b| / 4
      invariant |words| == i
      invariant forall k | 0 <= k < i :: words[k] == WordsLe(b)[k]
    {
      words := words + [FromBytesLe(b[4 * i..4 * i + 4])];
    }
  }

  /** In every assignment that satisfies `cs`, the variable has this value. */
  ghost predicate Forces(cs: seq<Constraint>, v: FpVar, value: Fr) {
    forall w :: AllHold(cs, w) ==> Eval(v, w) == value
  }

  /** Bits, chunks and sponge: the commitment to a byte string, in the circuit. */
  method CommitVar(cs: ConstraintSystem, mimcVar: MimcVar, ghost p: MimcSpec.Params, data: bytes) returns (commitment: FpVar)
    requires cs.Valid() && mimcVar.numOutputs == 1
    requires (forall n :: mimcVar.Allocated(n)) && forall w :: mimcVar.At(w) == p
    modifies cs
    ensures cs.Valid() && old(cs.wires) <= cs.wires && Below(commitment, cs.wires)
    ensures NoByteChecksAdded(old(cs.constraints), cs.constraints)
    ensures Forces(cs.constraints, commitment, CommitmentSpec.MimcCommit(p, data))
  {
    assert mimcVar.At([]) == p;
    var bits := BytesToBits(data);
    var packed := CompressVar(cs, bits, CommitmentSpec.CHUNK_BITS);
    ghost var before := cs.constraints;
    var outputs := mimcVar.GenerateConstraints(cs, packed);
    commitment := outputs[0];
    CommitmentForced(before, cs.constraints, mimcVar, p, data, packed, outputs);
  }

  lemma CommitmentForced(before: seq<Constraint>, cs: seq<Constraint>, mimcVar: MimcVar, p: MimcSpec.Params, data: bytes,
                         packed: seq<FpVar>, outputs: seq<FpVar>)
    requires before <= cs && mimcVar.numOutputs == 1 && |outputs| >= 1
    requires forall w :: mimcVar.At(w) == p
    requires HoldsCompressed(before, BytesToBits(data), CommitmentSpec.CHUNK_BITS, packed)
    requires mimcVar.HoldsPermuted(cs, packed, outputs)
    ensures Forces(cs, outputs[0], CommitmentSpec.MimcCommit(p, data))
  {
    HoldEarlier(before, cs);
    forall w | AllHold(cs, w)
      ensures Eval(outputs[0], w) == CommitmentSpec.MimcCommit(p, data)
    {
      assert mimcVar.At(w) == p;
      assert EvalAll(outputs, w)[0] == Eval(outputs[0], w);
    }
  }

  lemma PublicWires(afterPrompt: seq<Constraint>, afterCipher: seq<Constraint>, cs: seq<Constraint>,
                    promptVar: FpVar, cipherVar: FpVar, promptInput: nat, cipherInput: nat, a: Fr, b: Fr)
    requires afterPrompt <= afterCipher
    requires cs == afterCipher + [PublicInput(promptVar, promptInput)] + [PublicInput(cipherVar, cipherInput)]
    requires Forces(afterPrompt, promptVar, a) && Forces(afterCipher, cipherVar, b)
    ensures forall w :: AllHold(cs, w) ==> WireValue(w, promptInput) == a && WireValue(w, cipherInput) == b
  {
    HoldEarlier(afterPrompt, cs);
    HoldEarlier(afterCipher, cs);
    forall w | AllHold(cs, w)
      ensures WireValue(w, promptInput) == a && WireValue(w, cipherInput) == b
    {
      assert Holds(cs[|afterCipher|], w) && Holds(cs[|afterCipher| + 1], w);
    }
  }
}
