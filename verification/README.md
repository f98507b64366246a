# zkPrompt in Dafny

zkPrompt proves that a committed ciphertext decrypts, under ChaCha20, to an HTTP request with a fixed
header template whose body has a given commitment. This project models that pipeline on bytes, 32-bit
words and elements of the BN254 scalar field, and proves what its parts promise each other, up to one
statement about the whole way from the client's request to the circuit's public inputs.
`dafny verify dfyconfig.toml` checks everything.

## The parts

A part of the source that works in place or in loops appears twice: as a method or class with the
source's own loops and fields, and as a function that says what those compute. The methods are proved
equal to the functions, and the theorems are about the functions. What the functions themselves compute is tied
to definitions that do not use them: powers and recurrences of natural numbers, binary digits, a published block
of the cipher, encoded code points, printed records and requests written out.

* **HTTP wire layer**: `Text` (UTF-8, and the white space of Unicode in it), `Unicode` (the same in code points),
  `WireSpec` (functions), `Wire` (the loops of `wire.rs`), `Lines` (CR LF lines and the first blank line),
  `WireTheorems` (split, rebuild, parse, check), `WireExactly` (every result and every error in terms of the
  text), `HeaderCase` (the case of header names), `Templates` (when a checked request is the circuit's
  template, for all data). `Json` is a lexer that keeps string literals whole, with the decoding of their escapes; `Padding` proves what padding does
  to the tokens and to the decoded value; `JsonGrammar` is the grammar of sections 2 to 7 of RFC 8259, and
  `JsonPadding` proves that a padded JSON text is one.
* **Requests**: `Messages` (messages with any list of headers), `EncodeSpec` and `Client` (the client's
  printer and its loop), `PrintedFields` (what the parser makes of any printed request), `ClientTheorems`
  (when printer, padder and template agree), `Witnesses` (requests that pass the check and miss the template).
* **ChaCha20**: `ChaCha20Spec` follows sections 2.1 to 2.4 of RFC 8439, `ChaCha20` holds the three gadget
  classes, `ChaCha20Theorems` the involution, the seeking and the 32-bit counter, `ChaCha20Vector` the block
  of section 2.3.2.
* **Commitment**: `Field`, `PackingSpec` (bytes, bits, chunks, field elements and back), `MimcSpec` (the
  Feistel sponge and its inverse), `CommitmentSpec`, and the native loops in `Mimc` and `Commitment`.
* **Circuit**: `Constraints` is a constraint system in which every product is a gate with a fresh output
  wire; `MimcCircuit` is the sponge on its variables; `CircuitSpec` and `Circuit` are the prompt circuit.
* **Proxy**: `RecordSpec` frames TLS records (sections 5.1 and 5.2 of RFC 8446), `RecordTheorems` says
  when the drained bytes do not depend on the chunks, `PrintedRecords` what is found in printed records,
  `Proxy` is the drain and the forward loop.
* **EndToEnd** joins client, cipher and circuit.

The MiMC exponent and the table of round keys, whose length is the number of rounds, are parameters, and so is the set of bodies that
the JSON check accepts. The key, nonce, count and ciphertext of a witness are values; the statements about
the circuit are for all of them.

## Where the code does not do what a reader may expect

Each of these is modelled as the code has it, with the exact condition proved for all inputs.

* `proxy/src/tls.rs:20` tests `pending[4]`, the low length byte of the first buffered record, where the
  comment above the function speaks of all complete application-data records. The framing never depends on
  the chunks; the output does, unless no record with data follows one from which it differs in having the
  low length byte 53 (`RecordTheorems.ChunkIndependentExactly`, with `TwoRecordsDiffer` as witness; `ChunkIndependentWithinExactly`
  is the same for chunks of bounded size).
* `check_and_pad` accepts more requests than the circuit. For all data that passes: the result starts with
  the template exactly when the caller's first six header lines, with the content length rewritten if the body
  is padded, are the template's, and is template, CR LF and body exactly when these are all the lines
  (`Templates.CheckedTemplateExactly`); there are acceptable public inputs exactly in the first case
  (`EndToEnd.CheckedMeetsCircuit`). Requests that pass and miss the template:
  "bearer " in lower case (`Witnesses.LowerCaseBearerMissesTemplate`), any further header of another name
  (`FurtherHeaderMissesTemplate`), no content-length line, which also makes the request too short for the
  circuit (`NoLengthIsTooShort`).
* A further line after the template's moves the HTTP body away from the circuit's region
  (`Witnesses.SeventhLineMovesBody`). The region is still equal to the body exactly when the body repeats what
  stands between (`Templates.CheckedRegionExactly`, with `Witnesses.SeventhLineHoldsBody` as an instance).
* The circuit looks at the template and at the body region only: not at the two bytes between them, and not at
  what follows the region (`EndToEnd.UnseenBytesAreFree`). An accepted text is the template's headers with the
  committed region as its HTTP body exactly when those two bytes are a line end and the text ends with the
  region (`EndToEnd.RegionIsHttpBodyExactly`). `TrailingBytesAreNotCommitted` is the case of further bytes;
  `AnyHttpBodyIsRegionExactly` is the condition for a message with any headers.
* A commitment does not fix the length: zero bytes that fit into the last 250-bit chunk do not change it
  (`CommitmentSpec.PackingForgets`, `LengthIsNotCommitted`).

## Model

| member | source | states |
|---|---|---|
| EndToEnd.CheckedMeetsCircuit | prover/src/build_cs.rs:64-141 | for all data that passes `check_and_pad`, encrypted under any key, nonce and count: public inputs are acceptable if and only if the caller's header lines, with the content length rewritten if the body is padded, start with the template's, and the inputs are the commitments to the circuit's body region and to the ciphertext |
| EndToEnd.TemplateCommitsToBody | prover/src/openai/wire.rs:282-312 | if the result is template, CR LF and body, the body region is the body, and the inputs are the commitments to it and to the ciphertext |
| EndToEnd.CircuitCommitsToCallersJson | prover/src/openai/wire.rs:207-255 | and if only JSON texts are accepted, the first input commits to a JSON text that is the caller's, or differs from it by trailing spaces in the user content |
| EndToEnd.PrintedMeetsCircuit | client/src/utils.rs:15-64 | for any printed request that leaves length and connection to the printer: acceptable inputs exist if and only if its URI names the host literally and its other headers are literally authorization and content-type; they are the two commitments |
| EndToEnd.ClientMeetsCircuit | prover/src/build_cs.rs:64-141 | the same for a request with an authorization and a content-type header: if and only if both values are literal; such a request is never too short |
| EndToEnd.ChatIsLongEnough | prover/src/openai/wire.rs:302-311 | a checked request with these two headers, literal or not, is long enough for the circuit's slices |
| EndToEnd.SynthesisIsSound | prover/src/build_cs.rs:64-141 | of the emitted constraints: every satisfying assignment carries, on its two public wires, the commitments to the body region of the decrypted text and to the ciphertext, and that text starts with the template; one exists if and only if it does |
| EndToEnd.CircuitIsComplete | prover/src/build_cs.rs:64-141 | the image of template, CR LF and any body of the configured length is accepted, with exactly one pair of public inputs, the two commitments |
| EndToEnd.SeparatorIsFree | prover/src/openai/req/mod.rs:26-41 | replacing the two bytes after the template never changes whether a text is accepted |
| EndToEnd.UnseenBytesAreFree | prover/src/build_cs.rs:102-108 | two texts with the same template part and the same body region are accepted alike, whatever stands between and after |
| EndToEnd.RegionIsHttpBodyExactly | prover/src/build_cs.rs:106-108 | if the configuration holds no line end: a text that starts with the template splits into the template's lines and the committed region if and only if the two bytes between are CR LF and the text ends with the region |
| EndToEnd.AnyHttpBodyIsRegionExactly | prover/src/openai/wire.rs:302-312 | the HTTP body of any long enough message is the committed region if and only if it has the configured length and repeats what stands between the region's start and its own, which may be nothing |
| EndToEnd.TrailingBytesAreNotCommitted | prover/src/build_cs.rs:106-108 | template, CR LF, body and further bytes are accepted with the commitment to the body alone, while the HTTP body has the further bytes too |
| Circuit.ZkPrompt.GenerateConstraints | prover/src/build_cs.rs:64-141 | the emitted system has a solution with public inputs x and y if and only if the decrypted text starts with the template, x commits to its body region and y to the ciphertext |
| Circuit.ZkPrompt.ConstrainText | prover/src/build_cs.rs:102-136 | the same for the constraints on the decrypted bytes |
| Circuit.ZkPrompt.ConstrainCommitments | prover/src/build_cs.rs:116-136 | in every satisfying assignment the two public wires carry the native commitments, at all lengths |
| Circuit.ReqVar.GenerateConstraints | prover/src/openai/req/mod.rs:26-41 | the byte comparisons hold if and only if they held before and the data starts with the template |
| Circuit.EnforceEquals | prover/src/utils/mod.rs:5-10 | the added comparisons hold if and only if both byte strings agree as far as the shorter one goes |
| Circuit.CompressVar | prover/src/utils/mod.rs:12-22 | in every satisfying assignment the variables are the native packing of the unpadded chunks; that a packed wire has the value of its bits is the gadget's contract, so the agreement with the native zero padding is what `Commitment.CompressBytes` adds |
| Circuit.WordsFromBytes | prover/src/build_cs.rs:65-77 | the key and nonce words are the four-byte little-endian words |
| CircuitSpec.WordsRoundTrip | prover/src/build_cs.rs:65-77 | serialising those words gives the bytes back |
| CircuitSpec.SatisfiableExactly | prover/src/build_cs.rs:130-136 | public wires with forced values admit exactly those values, and only when all byte comparisons hold |
| Constraints.CompletionSatisfies | prover/src/mimc/bn254/constraint.rs:49-65 | solving the constraints one after the other satisfies all of them and leaves the free wires alone |
| Constraints.SolutionIsUnique | prover/src/mimc/bn254/constraint.rs:49-65 | two satisfying assignments that agree on the free wires agree everywhere |
| Constraints.GatesExtendSolution | prover/src/mimc/bn254/constraint.rs:29-65 | added gates never rule out a solution of the constraints before them |
| MimcCircuit.MimcVar.GenerateConstraints | prover/src/mimc/bn254/constraint.rs:29-47 | every assignment that satisfies the emitted gates gives outputs equal to the native sponge on the assigned inputs and keys, for any number of inputs and outputs; only gates with fresh outputs are added |
| MimcCircuit.MimcVar.Feistel | prover/src/mimc/bn254/constraint.rs:49-65 | the same for one permutation |
| MimcCircuit.MimcVar.RaiseToExponent | prover/src/mimc/bn254/constraint.rs:57-58 | the same for the power |
| MimcCircuit.MimcVar.SpongeHasWitness | prover/src/mimc/bn254/constraint.rs:29-65 | whatever is assigned to inputs and keys, a satisfying assignment exists and its outputs are the native ones |
| MimcSpec.FeistelIsBijection | prover/src/mimc/mod.rs:29-45 | the permutation has a two-sided explicit inverse for every number of rounds, exponent, constant and key table, with its keyless first and unswapped last round |
| MimcSpec.PowerIsModular | prover/src/mimc/mod.rs:37-38 | the power in the field is the power of the natural number, modulo the order of the field |
| MimcSpec.FeistelIsRecurrence | prover/src/mimc/mod.rs:29-45 | the two halves come out as the last two terms of the recurrence x[i] = x[i-2] + (x[i-1] + k + key)^e on numbers modulo the order, in which the first round has no key |
| MimcSpec.SpongeIsTurns | prover/src/mimc/mod.rs:9-27 | output j is the rate after one turn for every input and j more, where a turn adds the next input, if there is one, and runs the recurrence; there is always at least one output |
| MimcSpec.AbsorbKeepsApart | prover/src/mimc/mod.rs:12-15 | absorbing the same inputs keeps different sponge states different |
| MimcSpec.OneDifferenceSeparates | prover/src/mimc/mod.rs:9-15 | inputs that differ in exactly one element leave the sponge in different states |
| Mimc.PermuteFeistel | prover/src/mimc/mod.rs:9-27 | the loops absorb all inputs and squeeze the rates that the specification squeezes |
| Mimc.Feistel | prover/src/mimc/mod.rs:29-45 | the loop computes the invertible network |
| Mimc.RaiseToExponent | prover/src/mimc/mod.rs:37-38 | the loop computes the power of the number modulo the order |
| CommitmentSpec.SpongeSeparates | prover/src/commitment.rs:26-42 | byte strings of equal length whose bits differ in exactly one 250-bit chunk leave the sponge in different (rate, capacity) pairs |
| CommitmentSpec.EqualCommitmentsDifferInCapacity | prover/src/commitment.rs:39-42 | if two such strings have equal commitments, their sponge states differ in the capacity, which a commitment does not show |
| CommitmentSpec.PackingForgets | prover/src/commitment.rs:26-37 | two byte strings pack to the same elements if and only if the longer one is the shorter one with zero bytes that open no further 250-bit chunk |
| CommitmentSpec.LengthIsNotCommitted | prover/src/commitment.rs:30-33 | a byte and the same byte followed by a zero byte have the same commitment |
| CommitmentSpec.ElementsAre | prover/src/commitment.rs:26-37 | there is one element for every 250 bits or part of them, and element i is the number whose binary digits are the bits from 250 i on, the first with weight one |
| CommitmentSpec.CommitmentIsNumeric | prover/src/commitment.rs:39-42 | the commitment is the rate after as many turns of the recurrence as there are such numbers |
| Commitment.MimcCommit | prover/src/commitment.rs:39-42 | the native pipeline computes the specified commitment |
| Commitment.CompressBytes | prover/src/commitment.rs:26-37 | zero-padding the last chunk packs to the same elements as not padding it |
| Commitment.LeBitsToFp | prover/src/commitment.rs:14-24 | doubling and adding gives the little-endian value modulo the field order |
| Commitment.PadChunk | prover/src/commitment.rs:30-33 | the buffer is the chunk followed by zero bits |
| Field.MulIsModular | prover/src/mimc/mod.rs:37-38 | the product of field elements, modelled by repeated addition, is the product modulo the order of the field |
| Field.OrderOfCurve | prover/src/commitment.rs:1 | the order of the field is 36u^4 + 36u^3 + 18u^2 + 6u + 1 for the parameter u of the BN254 curve |
| PackingSpec.CompressRoundTrip | prover/src/commitment.rs:26-37 | for every chunk size below 254 bits no chunk wraps around the field, and an explicit inverse recovers the bits |
| PackingSpec.CompressInjective | prover/src/commitment.rs:26-37 | at equal length equal field elements mean equal bytes |
| PackingSpec.CompressEqualExactly | prover/src/commitment.rs:26-37 | when byte strings of any two lengths pack to the same elements |
| PackingSpec.ChunkFitsField | prover/src/commitment.rs:6 | every chunk size below 254 bits stays below the field order |
| PackingSpec.BytesRoundTrip | prover/src/commitment.rs:8-12 | bytes are recovered from their most-significant-first bits |
| PackingSpec.BitIs | prover/src/commitment.rs:8-12 | bit m is the binary digit of byte m / 8 with weight 2^(7 - m mod 8) |
| PackingSpec.ElementIsBitSum | prover/src/commitment.rs:14-37 | for every chunk size below 254 bits: element i is the sum of the digits of its slice of the bits |
| ChaCha20.ChaCha20Var.GenerateConstraints | prover/src/chacha20/mod.rs:40-62 | the loop over 64-byte chunks sets the output to the RFC 8439 encryption of the whole input, for any length |
| ChaCha20.ChaCha20Var.EncryptChunks | prover/src/chacha20/mod.rs:46-59 | the chunk loop with its counter in word 12 gives the encryption of the whole input |
| ChaCha20.ChaCha20Var.XorChunk | prover/src/chacha20/mod.rs:52-54 | the zip truncates the key stream to the chunk |
| ChaCha20.RoundVar.GenerateConstraints | prover/src/chacha20/round.rs:21-44 | ten double rounds, feed-forward and serialisation are the block function of section 2.3 of RFC 8439 |
| ChaCha20.RoundVar.SumBytes | prover/src/chacha20/round.rs:35-39 | the key stream is the little-endian serialisation of the word sums |
| ChaCha20.QuarterRoundVar.GenerateConstraints | prover/src/chacha20/quarter_round.rs:16-32 | for any four indices the words are what the twelve assignments leave; for four different ones that is the quarter round of section 2.1, and no other word changes |
| ChaCha20.TwelveAreRound | prover/src/chacha20/quarter_round.rs:16-32 | on four different words the twelve in-place assignments are the quarter round |
| ChaCha20Spec.QuarterRoundInverts | prover/src/chacha20/quarter_round.rs:16-32 | the quarter round has an explicit two-sided inverse |
| ChaCha20Spec.DisjointRoundsCommute | prover/src/chacha20/round.rs:25-32 | quarter rounds on disjoint words commute |
| ChaCha20Spec.CoreIsPermutation | prover/src/chacha20/round.rs:24-33 | undoing the ten double rounds in reverse order recovers every start state, and every state is reached |
| ChaCha20Spec.BlockIsTenDoubleRounds | prover/src/chacha20/round.rs:21-44 | a block is sixteen little-endian words, and subtracting the start state from them and undoing ten double rounds gives the start state |
| ChaCha20Vector.DoubleRoundIs | prover/src/chacha20/round.rs:24-33 | a double round is the eight quarter rounds on the columns and the diagonals of the state |
| ChaCha20Vector.VectorBlock | prover/src/chacha20/round.rs:21-44 | under the key, nonce and counter of section 2.3.2 of RFC 8439 the block is the one given there |
| ChaCha20Vector.VectorImage | prover/src/chacha20/mod.rs:40-62 | and the image of 64 zero bytes is this block |
| ChaCha20Spec.FromToBytesLe | prover/src/chacha20/round.rs:38 | serialising a word and reading it back gives the word |
| ChaCha20Theorems.EncryptIsInvolution | prover/src/chacha20/mod.rs:48-59 | applied twice with the same key, nonce and counter the cipher is the identity |
| ChaCha20Theorems.EncryptIsSeekable | prover/src/chacha20/mod.rs:48-59 | after 64k bytes the rest is encrypted as if started with the counter advanced by k |
| ChaCha20Theorems.CounterValue | prover/src/chacha20/mod.rs:56 | the counter of block i is counter + i modulo 2^32 |
| ChaCha20Theorems.CountersDistinct | prover/src/chacha20/mod.rs:56 | within 2^32 blocks no counter repeats |
| WireTheorems.SplitHttpExactly | prover/src/openai/wire.rs:89-95 | splitting gives a pair if and only if the data is its concatenation around the first blank line |
| WireTheorems.RebuildRoundTrip | prover/src/openai/wire.rs:257-280 | splitting a rebuilt request gives the new body and the same lines with only content-length lines rewritten; no earlier blank line appears |
| WireTheorems.ParseAfterRewrite | prover/src/openai/wire.rs:97-147 | `parse_headers` reads the same fields, or fails in the same way, after rewriting |
| WireTheorems.CheckAndPadSplits | prover/src/openai/wire.rs:282-300 | a returned request splits into headers with the same parsed fields and exactly the returned body, which has the configured length |
| WireTheorems.CheckAndPadIsProjection | prover/src/openai/wire.rs:282-300 | on its own result `check_and_pad` returns that result if the padded body is still accepted, and otherwise rejects the body |
| WireExactly.LiteralsSpelled | prover/src/openai/wire.rs:4-5 | the byte strings of the wire layer spell the literals of the source |
| WireExactly.TemplateExactly | prover/src/openai/wire.rs:29-71 | the template, written out line by line, and where the body starts |
| WireExactly.FieldExactly | prover/src/openai/wire.rs:120-124 | a line is a header of a name if and only if what stands before its first colon is that name, in any case and with white space around it or not; its value is what follows, trimmed |
| WireExactly.LastValueExactly | prover/src/openai/wire.rs:115-137 | of several headers with one name the last one counts, and there is no value if and only if no line has the name |
| WireExactly.BearerExactly | prover/src/openai/wire.rs:126-133 | a value has a token if and only if it is the token after "Bearer " or "bearer " |
| WireExactly.FieldErrorsExactly | prover/src/openai/wire.rs:119-146 | exactly when each error of the header lines is reported: any authorization line without a token first, then the first missing name |
| WireExactly.FieldsExactly | prover/src/openai/wire.rs:115-146 | exactly when the header lines parse to given fields |
| WireExactly.FirstLineExactly | prover/src/openai/wire.rs:97-113 | exactly when each error of the first line is reported, in terms of its parts between white space, and what is parsed otherwise |
| WireExactly.ValidateExactly | prover/src/openai/wire.rs:149-180 | exactly when the parsed headers are accepted, and which mismatch is reported first |
| WireExactly.RewriteLineExactly | prover/src/openai/wire.rs:264-275 | exactly which lines are replaced, and by what |
| WireExactly.RebuildExactly | prover/src/openai/wire.rs:257-280 | rebuilding fails exactly on headers that are not text |
| WireExactly.CheckAndPadExactly | prover/src/openai/wire.rs:282-300 | exactly when `check_and_pad` returns a given request and body |
| WireExactly.HeadErrorsExactly | prover/src/openai/wire.rs:282-284 | exactly when the blank line is missing, and that errors of parsing and of the comparison come next |
| WireExactly.BodyErrorsExactly | prover/src/openai/wire.rs:285-298 | after an accepted head: exactly when the body is rejected, too long, or too short and without user content |
| HeaderCase.SameParse | prover/src/openai/wire.rs:124-136 | headers whose names differ in case only parse to the same fields, or fail with the same error |
| HeaderCase.SameRewrite | prover/src/openai/wire.rs:269-274 | and the same lines of both are rewritten |
| HeaderCase.CaseIsFree | prover/src/openai/wire.rs:282-300 | and `check_and_pad` returns the same body for both, or fails with the same error |
| Templates.CheckedTemplateExactly | prover/src/openai/wire.rs:282-300 | for all data that passes: when the result starts with the template, when it is template, CR LF and body, and when it is long enough for the circuit, each in terms of the caller's header lines |
| Templates.CheckedRegionExactly | prover/src/openai/wire.rs:302-312 | for all data that passes and whose lines start with the template's: the body region is the padded body if and only if there is no seventh line or byte i of the body is byte i modulo the length of what stands between, for all i |
| Templates.LinesAreChecked | prover/src/openai/wire.rs:282-300 | the lines and the body that come back, in terms of the caller's |
| Templates.ConfigIsPlain | prover/src/openai/wire.rs:149-180 | a configuration that a request was checked against holds no line end |
| Templates.TemplateAsLines | prover/src/openai/wire.rs:53-62 | the six sections and CR LF are six joined lines and a blank line |
| Text.TextConcat | prover/src/openai/wire.rs:262 | UTF-8 text followed by bytes is UTF-8 text if and only if these are |
| Text.TextBeforeAscii | prover/src/openai/wire.rs:263 | cut before an ASCII byte, UTF-8 text is two UTF-8 texts |
| Text.TrimIsSlice | prover/src/openai/wire.rs:124-135 | trimming takes away at both ends only |
| Text.SpaceIsChar | prover/src/openai/wire.rs:103 | white space is whole characters |
| Text.FirstToken | prover/src/openai/wire.rs:103-113 | the first part of a line is what stands before its first white space |
| Unicode.TextExactly | prover/src/openai/wire.rs:98 | the texts are exactly the UTF-8 encodings of sequences of Unicode scalar values |
| Unicode.CharWidthExactly | prover/src/openai/wire.rs:98 | there is a character of n bytes at the start if and only if the string starts with the n-byte encoding of a scalar value |
| Unicode.SpaceWidthExactly | prover/src/openai/wire.rs:103 | there is white space at the start if and only if the string starts with the encoding of one of the code points with the property White_Space |
| Unicode.TrimExactly | prover/src/openai/wire.rs:124-135 | a string is what trimming leaves if and only if it stands between white space and has none at its ends |
| Unicode.TokensExactly | prover/src/openai/wire.rs:103-113 | the parts of a line are exactly those between white space |
| Bytes.DecimalRoundTrip | prover/src/openai/wire.rs:45-47 | a printed content length denotes that length |
| Bytes.DecimalExactly | prover/src/openai/wire.rs:45-47 | a string is the numeral of n if and only if it consists of digits, denotes n and has no leading zero |
| Bytes.LowerExactly | prover/src/openai/wire.rs:124 | two strings have the same lower-case form if and only if they differ at most in the case of ASCII letters |
| Lines.JoinSplitLines | prover/src/openai/wire.rs:263-276 | joining the split lines gives the text back |
| Lines.SplitJoinLines | prover/src/openai/wire.rs:263-276 | splitting joined lines gives the lines back |
| Lines.BlankLineEndsBlock | prover/src/openai/wire.rs:89-95 | after lines of which only the first may be empty, the first blank line is the one that ends them |
| Lines.HeadersAreBlock | prover/src/openai/wire.rs:89-95 | whatever stands before a first blank line consists of such lines |
| Wire.UserContentPadPosition | prover/src/openai/wire.rs:207-228 | the flag-driven scan stops at the first quotation mark after the first marker with an even number of backslashes before it, and fails if there is none |
| Wire.ParseFields | prover/src/openai/wire.rs:115-146 | the loop ends with the last value of each name, fails at any authorization value without a bearer token, and otherwise reports the first missing field |
| Wire.ParseHeaders | prover/src/openai/wire.rs:97-147 | the request line's errors come before those of the fields |
| Wire.PadBody | prover/src/openai/wire.rs:230-255 | exact, too long, or padded to exactly the target length |
| Wire.RebuildRequest | prover/src/openai/wire.rs:257-280 | the loop joins the rewritten lines and appends blank line and body |
| Wire.CheckAndPad | prover/src/openai/wire.rs:282-300 | the checks fail in the source's order, and the result is the specified one |
| JsonGrammar.JsonIsJsonLike | prover/src/openai/wire.rs:182-195 | in every text of the JSON grammar the strings are closed, and followed only by white space, a comma, a colon or a closing bracket or brace |
| JsonPadding.ReplacedIsJson | prover/src/openai/wire.rs:244-247 | a JSON text with other valid content in one of its strings is a JSON text |
| JsonPadding.PaddedIsJson | prover/src/openai/wire.rs:230-255 | a padded JSON text is a JSON text, and the caller's or one that differs by trailing spaces in the user content |
| JsonPadding.CheckedBodyIsJson | prover/src/openai/wire.rs:282-300 | the same for the body that comes back, for every set of accepted JSON texts and all data that passes |
| Padding.MarkerPrecedes | prover/src/openai/wire.rs:208-213 | in a text whose strings are followed as the grammar allows, the six tokens before the user content are the marker's, except that the first name may end in an escaped quotation mark and role |
| Padding.PaddingKeepsJson | prover/src/openai/wire.rs:230-255 | in any text whose strings are followed only by what the JSON grammar lets follow, padding keeps every token except the user content, whose raw and decoded values gain exactly the inserted spaces; the result is again such a text |
| Padding.CheckedBodyKeepsMeaning | prover/src/openai/wire.rs:282-300 | for every set of such accepted texts and all data that passes: the returned body is the caller's, or differs by trailing spaces in the user content, the string that the marker's tokens precede |
| Padding.MarkerOutsideStrings | prover/src/openai/wire.rs:208-213 | in such a text the marker never stands in the middle of a string |
| Padding.PaddingPreservesTokens | prover/src/openai/wire.rs:230-255 | for arbitrary bytes, JSON or not: unless the marker stands in the middle of a string the same holds, and text that is not a token sequence stays one that is not |
| Padding.MarkerComesBefore | prover/src/openai/wire.rs:208-213 | outside strings, the six tokens before the padded literal are those of the marker |
| Padding.ContentIsLiteral | prover/src/openai/wire.rs:207-228 | the marker opens a literal if and only if the lexer is not in the middle of a string there |
| Padding.LexerFindsEnd | prover/src/openai/wire.rs:213-225 | the scan and the lexer agree on where the literal ends |
| Padding.PadComposes | prover/src/openai/wire.rs:230-255 | padding to n and then to m is padding to m, both failing together |
| Padding.PadPositionMoves | prover/src/openai/wire.rs:207-228 | the pad position moves by exactly the number of inserted spaces |
| Padding.PaddingCanBeDeleted | prover/src/openai/wire.rs:244-247 | deleting the inserted spaces gives the body back |
| Padding.PadBodyExactly | prover/src/openai/wire.rs:230-255 | exactly when padding succeeds, and when each of its errors is reported |
| Padding.PaddedBodyIs | prover/src/openai/wire.rs:241-247 | the padded body is the body with spaces before the quotation mark that ends the user content |
| Json.LexConcat | prover/src/openai/wire.rs:230-255 | a text that ends outside literals can be lexed by itself |
| Json.QuoteIsFollowed | prover/src/openai/wire.rs:182-205 | in a text whose strings are followed as the grammar allows, a quotation mark in the middle of a string is followed so |
| Json.DecodeTrailingSpaces | prover/src/openai/wire.rs:246 | spaces at the end of a literal are spaces at the end of its decoded value, and an invalid literal stays invalid |
| Client.EncodeRequest | client/src/utils.rs:15-64 | the loop prints the specified lines, blank line and body |
| EncodeSpec.EncodedSplits | client/src/utils.rs:15-64 | whatever the headers and the body, the first blank line of the printed request is the one before its body |
| EncodeSpec.KeptExactly | client/src/utils.rs:36-51 | the headers that are printed are those that are not named host in any case, all of them and in order |
| Client.EncodedText | client/src/utils.rs:15-64 | the printed request, written out: request line, host, kept headers, length and connection unless the request brings them in any case, empty line, body |
| Messages.MessageParses | prover/src/openai/wire.rs:97-147 | the exact result of `parse_headers`, with every error, on the head of a message with any list of headers |
| Messages.MessagePassesExactly | prover/src/openai/wire.rs:282-300 | exactly when such a message passes `check_and_pad` |
| Messages.MessageIsTemplateExactly | prover/src/openai/wire.rs:282-300 | a message that passes comes back starting with the template, or as template, CR LF and body, exactly when its headers with the content length rewritten start with, or are, the template's |
| PrintedFields.PrintedValueOfLines | client/src/utils.rs:30-58 | for any headers and any name: the host comes from the URI alone, every other name keeps its last header value, and a missing length or connection is filled in |
| PrintedFields.ParsedIsPrinted | client/src/utils.rs:15-64 | splitting and parsing any printed request gives its body and exactly the specified result, with every error: one authorization header without a token fails even if a later one has a token |
| PrintedFields.ParsedSuccessExactly | prover/src/openai/wire.rs:97-147 | which printed requests parse |
| ClientTheorems.PrintedPassesExactly | prover/src/openai/wire.rs:282-300 | which printed requests pass `check_and_pad` |
| ClientTheorems.PrintedIsTemplateExactly | client/src/utils.rs:15-64 | for any printed request that passes: the result starts with the template, or is template, CR LF and body, exactly when the printed headers, rewritten if the body is padded, start with, or are, the template's |
| ClientTheorems.UsualIsTemplateExactly | client/src/utils.rs:30-58 | if length and connection are left to the printer: exactly when the URI names the host literally and the other headers are literally authorization and content-type |
| ClientTheorems.ParseChat | prover/src/openai/wire.rs:97-147 | what `parse_headers` makes of a printed request with these two headers |
| ClientTheorems.ChatPassesExactly | prover/src/openai/wire.rs:282-300 | when such a request passes, in terms of its values |
| ClientTheorems.PaddedIsTemplateExactly | prover/src/openai/wire.rs:53-71 | such a request that passes comes back as template, CR LF and body if and only if both values are literal |
| Witnesses.LowerCaseBearerMissesTemplate | prover/src/openai/wire.rs:127-131 | for every configuration of words: the request with "bearer " and the key passes and misses the template |
| Witnesses.FurtherHeaderMissesTemplate | client/src/utils.rs:36-51 | the printed request with the literal headers and any further one passes and misses the template |
| Witnesses.SeventhLineMovesBody | prover/src/openai/wire.rs:302-312 | a message with a seventh line passes and starts with the template, and the circuit's region is not its body |
| Witnesses.SeventhLineHoldsBody | prover/src/openai/wire.rs:302-312 | unless the seventh line happens to hold the body |
| Witnesses.NoLengthIsTooShort | prover/src/build_cs.rs:106-108 | a message without a content-length line passes and is too short for the circuit's slices |
| RecordSpec.RecordsAndRest | proxy/src/tls.rs:12-32 | the stream is its complete records followed by the incomplete rest |
| RecordSpec.FramingContinues | proxy/src/tls.rs:12-32 | framing a longer stream continues from the rest of the shorter one |
| RecordSpec.PendingIsResidual | proxy/src/tls.rs:12-32 | for every stream and chunking the final pending bytes are the same incomplete suffix |
| PrintedRecords.FramingInvertsPrinting | proxy/src/tls.rs:12-18 | the records of a stream of printed records with any 16-bit lengths, whatever follows, are these and those of what follows |
| PrintedRecords.HasRecordExactly | proxy/src/tls.rs:12-18 | a stream starts with a complete record if and only if it starts with a printed one |
| PrintedRecords.DrainedData | proxy/src/tls.rs:6-35 | one drain of printed records and an incomplete rest gives nothing if the low length byte of the first is 53, and otherwise the fragments of type 0x17 without their last 16 bytes; the rest is kept |
| PrintedRecords.FilteredData | proxy/src/tls.rs:20-25 | the per-record filter gives these fragments of the records whose own low length byte is not 53 |
| RecordTheorems.ChunkIndependentWithinExactly | proxy/src/tls.rs:20-25 | for chunks of at most n bytes: the output is the per-record filter's for every chunking if and only if no record with data comes within n bytes, from the last byte of an earlier one on, of one from which it differs in the skipped length |
| RecordTheorems.ChunkIndependentExactly | proxy/src/tls.rs:20-25 | for chunks of any length: if and only if no record with data follows one from which it differs in the skipped length |
| RecordTheorems.AllApplicationData | proxy/src/tls.rs:20-25 | without skipped lengths every chunking gives all tag-stripped application data |
| RecordTheorems.SinglesFilterPerRecord | proxy/src/tls.rs:12-28 | one byte at a time gives exactly the per-record filter, on every stream |
| RecordTheorems.FirstRecordDecides | proxy/src/tls.rs:20 | a skipped record hides the data of the next one in the same chunk, and not in a chunk of its own |
| RecordTheorems.TwoRecordsDiffer | proxy/src/tls.rs:20 | the witness: two records, of 53 bytes and of 17 with one byte of data, that give nothing in one chunk and that byte in two |
| Proxy.DrainApplicationData | proxy/src/tls.rs:6-35 | the caller's buffer becomes the incomplete rest, and the output is that of the records as the first one decides |
| Proxy.ScanRecords | proxy/src/tls.rs:7-28 | the loop consumes exactly the complete records |
| Proxy.Forwarder.Step | proxy/src/main.rs:19-40 | one turn keeps the connection's invariant: what is pending, drained, committed to and written |
| Proxy.Forwarder.Forward | proxy/src/main.rs:13-44 | after the reads up to the first empty one the same holds |
| Proxy.UntilEmptyExactly | proxy/src/main.rs:18-22 | these are the reads before the first empty one |
| Proxy.StepKeeps | proxy/src/main.rs:24-40 | every commitment is to the concatenation of all outputs so far, and the bytes written are the bytes read |
| Proxy.BytesAccounted | proxy/src/tls.rs:12-32 | the drained records with their headers and the pending bytes account for every byte read |
| Proxy.StreamIsPerRecord | proxy/src/main.rs:13-44 | for reads of at most 8192 bytes, under the condition above for that size, the stream that is committed to is the per-record filter's |

## Left out

- Wire.CheckAndPad: the JSON check by serde_json is an arbitrary set of accepted bodies, of which the theorems about JSON ask only that they are texts of the JSON grammar; error kinds are modelled, their messages are not.
- Circuit.CompressVar: only chunk sizes below the bit length of the field (the circuit uses 250), where the bits-to-field gadget is a plain sum; for longer chunks the gadget adds range constraints that are foreign code.
- Circuit.ZkPrompt.GenerateConstraints: wrong key or nonce lengths and a ciphertext shorter than the template and the body, which make the source panic, are excluded.
- Word, byte and Boolean gadgets have value semantics: their bit decomposition, carry constraints and the number of constraints are not modelled.
- The 220 round key literals: the theorems hold for every table; the circuit's additive constant is zero as in the source.
- Wrap-around of a 64-bit `body_start + content_length`: lengths are unbounded.
- `forward`: read and write errors, and what is printed; its loop is modelled for reads of any length.
- No statement that the proxy's stream is the prover's ciphertext: TLS 1.3 appends an inner content type byte (section 5.2 of RFC 8446) that `client/src/prove.rs` does not add.
- No collision resistance and no secrecy: the separation results are about the pair of rate and capacity, of which a commitment shows the rate.
- Groth16, randomness, curve arithmetic, the TLS handshake, HKDF and Poly1305: foreign code.
- `decode_response`, sockets, name resolution, command line and environment: input and output.
- `prover/src/witness.rs`, `KeyLogVec` and the mock circuit: thin compositions that would add easy members only.
