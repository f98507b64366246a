/** What the prompt circuit says about its witness and its two public inputs. */
module CircuitSpec {
  import opened Bytes
  import opened Sequences
  import opened Field
  import opened ChaCha20Spec
  import opened Constraints
  import MimcSpec
  import CommitmentSpec
  import WireSpec

  /** The words of a byte string, each of four bytes in little-endian order. */
  function WordsLe(b: bytes): (words: seq<word>)
    requires |b| % 4 == 0
    ensures |words| == |b| / 4
  {
    seq(|b| / 4, i requires 0 <= i < |b| / 4 => FromBytesLe(b[4 * i..4 * i + 4]))
  }

  lemma SameWord(b: bytes, front: bytes, i: nat)
    requires 4 * i + 4 <= |front| <= |b| && front == b[..|front|]
    ensures front[4 * i..4 * i + 4] == b[4 * i..4 * i + 4]
  {
  }

  lemma LastWord(b: bytes, front: bytes, last: bytes)
    requires |b| % 4 == 0 && b != [] && |b| >= 4 && front == b[..|b| - 4] && last == b[|b| - 4..]
    ensures |front| % 4 == 0 && |last| == 4 && WordsLe(b) == WordsLe(front) + [FromBytesLe(last)]
  {
    var n := |b| / 4;
    forall i | 0 <= i < n - 1
      ensures front[4 * i..4 * i + 4] == b[4 * i..4 * i + 4]
    {
      SameWord(b, front, i);
    }
    assert last == b[4 * (n - 1)..4 * (n - 1) + 4];
  }

  /** The words lose nothing: serialised again they are the bytes. */
  lemma {:induction false} WordsRoundTrip(b: bytes)
    requires |b| % 4 == 0
    ensures Serialize(WordsLe(b)) == b
    decreases |b|
  {
    if b != [] {
      var front, last := b[..|b| - 4], b[|b| - 4..];
      LastWord(b, front, last);
      WordsRoundTrip(front);
      ToFromBytesLe(last);
      SerializeSnoc(WordsLe(front), FromBytesLe(last));
      SerializedParts(b, front, last);
    }
  }

  lemma SerializedParts(b: bytes, front: bytes, last: bytes)
    requires |b| >= 4 && front == b[..|b| - 4] && last == b[|b| - 4..]
    ensures front + last == b
  {
  }

  /** The lengths that `ChaCha20Var::new` asserts, in bytes. */
  type KeyBytes = b: bytes | |b| == 32 witness seq(32, _ => 0)
  type NonceBytes = b: bytes | |b| == 12 witness seq(12, _ => 0)

  function CipherOf(key: KeyBytes, nonce: NonceBytes): (cipher: Cipher)
  {
    Cipher(CONSTANTS, WordsLe(key), WordsLe(nonce))
  }

  /** The ChaCha20 image of a byte string; plaintext and ciphertext are each other's image. */
  function ChaCha(key: KeyBytes, nonce: NonceBytes, count: word, input: bytes): (output: bytes)
    ensures |output| == |input|
  {
    Encrypt(CipherOf(key, nonce), count, input)
  }

  /** The body region of a decrypted text. */
  function PromptOf(config: WireSpec.RequestConfig, plaintext: bytes): bytes
    requires |plaintext| >= WireSpec.BodyStart(config) + config.contentLength
  {
    plaintext[WireSpec.BodyStart(config)..WireSpec.BodyStart(config) + config.contentLength]
  }

  /** The text starts with the template, `x` commits to its body region and `y` to the ciphertext. */
  predicate AcceptsText(p: MimcSpec.Params, config: WireSpec.RequestConfig, plaintext: bytes, cipherTexts: bytes,
                        x: Fr, y: Fr)
    requires |plaintext| >= WireSpec.BodyStart(config) + config.contentLength
  {
    && plaintext[..|WireSpec.Template(config)|] == WireSpec.Template(config)
    && x == CommitmentSpec.MimcCommit(p, PromptOf(config, plaintext))
    && y == CommitmentSpec.MimcCommit(p, cipherTexts)
  }

  /** The witness is acceptable with the public inputs `x` and `y`: so is the text to which the
      ciphertext decrypts. */
  predicate Accepts(p: MimcSpec.Params, config: WireSpec.RequestConfig, key: KeyBytes, nonce: NonceBytes, count: word,
                    cipherTexts: bytes, x: Fr, y: Fr)
    requires |cipherTexts| >= WireSpec.BodyStart(config) + config.contentLength
  {
    AcceptsText(p, config, ChaCha(key, nonce, count, cipherTexts), cipherTexts, x, y)
  }

  /** Some assignment satisfies all constraints and gives the two public wires these values. */
  ghost predicate Satisfiable(cs: seq<Constraint>, wires: nat, promptInput: nat, cipherInput: nat, x: Fr, y: Fr) {
    exists w: Assignment :: |w| == wires && AllHold(cs, w) && WireValue(w, promptInput) == x && WireValue(w, cipherInput) == y
  }

  predicate NoByteChecksAdded(cs: seq<Constraint>, later: seq<Constraint>) {
    cs <= later && forall i | |cs| <= i < |later| :: !later[i].BytesEqual?
  }

  lemma BytesAgreeLater(cs: seq<Constraint>, later: seq<Constraint>)
    requires NoByteChecksAdded(cs, later)
    ensures BytesAgree(later) <==> BytesAgree(cs)
  {
    assert forall i | 0 <= i < |cs| :: later[i] == cs[i];
  }

  /** Public wires whose value every solution forces admit exactly those values, and only when the
      byte comparisons hold. */
  lemma SatisfiableExactly(cs: seq<Constraint>, wires: nat, promptInput: nat, cipherInput: nat, a: Fr, b: Fr, x: Fr, y: Fr)
    requires Ordered(cs, wires)
    requires forall w :: AllHold(cs, w) ==> WireValue(w, promptInput) == a && WireValue(w, cipherInput) == b
    ensures Satisfiable(cs, wires, promptInput, cipherInput, x, y) <==> BytesAgree(cs) && x == a && y == b
  {
    if BytesAgree(cs) && x == a && y == b {
      var zeros: Assignment := Repeat(0, wires);
      CompletionSatisfies(cs, wires, zeros);
      assert AllHold(cs, Complete(cs, zeros));
    }
    if Satisfiable(cs, wires, promptInput, cipherInput, x, y) {
      var w: Assignment :| |w| == wires && AllHold(cs, w) && WireValue(w, promptInput) == x && WireValue(w, cipherInput) == y;
      assert forall i | 0 <= i < |cs| && cs[i].BytesEqual? :: Holds(cs[i], w);
    }
  }

  /** The same for the circuit's two commitments, once the byte comparisons are those of the template. */
  lemma TextAcceptedExactly(cs: seq<Constraint>, wires: nat, promptInput: nat, cipherInput: nat,
                            p: MimcSpec.Params, config: WireSpec.RequestConfig, plaintext: bytes, cipherTexts: bytes)
    requires |plaintext| >= WireSpec.BodyStart(config) + config.contentLength
    requires Ordered(cs, wires)
    requires BytesAgree(cs) <==> plaintext[..|WireSpec.Template(config)|] == WireSpec.Template(config)
    requires forall w :: AllHold(cs, w) ==>
               WireValue(w, promptInput) == CommitmentSpec.MimcCommit(p, PromptOf(config, plaintext))
               && WireValue(w, cipherInput) == CommitmentSpec.MimcCommit(p, cipherTexts)
    ensures forall x: Fr, y: Fr ::
              Satisfiable(cs, wires, promptInput, cipherInput, x, y)
              <==> AcceptsText(p, config, plaintext, cipherTexts, x, y)
  {
    var a, b := CommitmentSpec.MimcCommit(p, PromptOf(config, plaintext)), CommitmentSpec.MimcCommit(p, cipherTexts);
    forall x: Fr, y: Fr
      ensures Satisfiable(cs, wires, promptInput, cipherInput, x, y)
              <==> AcceptsText(p, config, plaintext, cipherTexts, x, y)
    {
      SatisfiableExactly(cs, wires, promptInput, cipherInput, a, b, x, y);
    }
  }
}
