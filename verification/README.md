# ChaCha20 folding step circuit — a Dafny model

This project models the ChaCha20 step circuit of the folding example
`examples/chacha20_folding.rs`. The circuit builds ChaCha20 in two parallel
forms. Its gadgets work on 32 boolean signals per word; its native oracle
works on Rust `u32` values. The model proves the gadgets compute what the
oracle computes.

Two representations carry the model:

- **Field elements** are naturals below a modulus `p`. The modulus is a
  parameter because the circuit is generic over `PrimeField`. Primality is
  never used; the results need only `p >= 2`, `p >= 2^32` or `2^33 - 2 < p`,
  as each contract says. `Field.BN254NoWrap` shows that BN254's scalar field,
  the one the example instantiates, meets every one of these bounds.
- **Circuit words** (`Words.Word`) are 32 booleans, least significant first,
  as `UInt32::from_bits_le` reads them. Native `u32` values (`Words.U32`)
  are naturals below 2^32. Every wrap-around Rust performs is written out,
  except the overflow of `counter + 1` (see "## Left out").

The files:

- `words.dfy`: bit strings and their values, the encoding of a number as
  bits, and the wiring of a rotation.
- `field.dfy`: field addition, the bit length of the modulus, and the
  no-wrap condition for the block's final addition.
- `native.dfy`: the oracle. This covers `quarter_round_native` both as
  written, in place, and on four-word blocks. It also covers the double
  round, `chacha20_block_native` and `chacha20_step_native`, with their
  properties: XOR cancels, rotations invert, and the quarter round is
  invertible and local.
- `gadgets.dfy`: `fpvar_to_uint32`, `uint32_to_fpvar`, `add_uint32`,
  `xor_uint32` and `rotate_left_32`. Each is a method with the loop the
  source has. Each is proved equal to the native operation.
- `circuit.dfy`: `quarter_round`, `chacha20_round`, `chacha20_block_gadget`
  and `generate_step_constraints`. Each is proved equal to the oracle.

The central result is `Circuit.StepGadget`. It has four conditions:

- the field holds the sum of two words;
- every key, nonce and counter slot, plus any u32, stays below the
  modulus (`Circuit.CombineFits`), so the block's final field addition
  cannot wrap; the slots may be 2^32 or more, because the rounds read only
  their low 32 bits;
- the counter is below 2^32 - 1;
- the gadgets take honest witness values.

When all four hold, the step circuit's output is exactly the native step's
output. That equality is what the example's test asserts at line 472.

## Model

| member | source | states |
|---|---|---|
| Gadgets.FpToWord | examples/chacha20_folding.rs:206-222 | The 32 signals are the low 32 bits of the canonical value. Positions past the modulus' bit length are constant false. The word's value is x mod 2^32. |
| Gadgets.AccumulateBit | examples/chacha20_folding.rs:233-237 | Adding the current power of two, or zero, to the running field sum adds that bit's weight modulo p. |
| Gadgets.DoublePower | examples/chacha20_folding.rs:238 | `power + power` in the field is the next power of two modulo p. |
| Gadgets.WordToFp | examples/chacha20_folding.rs:225-241 | The field sum of bit_i·2^i is the word's value mod p. When that value is below p, the result is the value itself. |
| Gadgets.FieldRoundTrip | examples/chacha20_folding.rs:206-241 | A field element decoded to 32 bits and encoded back is x mod 2^32 (reduced into the field). It is x itself when x < 2^32. |
| Gadgets.WordRoundTrip | examples/chacha20_folding.rs:206-241 | In a field that holds every u32, 32 signals encoded and decoded again are the same signals. |
| Field.BitLengthBound | examples/chacha20_folding.rs:211 | Every value below the modulus fits in `MODULUS_BIT_SIZE` bits, so `to_bits_le` loses nothing. |
| Gadgets.FullAdder | examples/chacha20_folding.rs:257-263 | The sum bit (a⊕b)⊕carry and the carry out (a∧b)∨((a⊕b)∧carry) account exactly for the weights of a, b and the carry in. |
| Gadgets.AdderStep | examples/chacha20_folding.rs:255-265 | After i positions, the output bits plus the carry weighted by 2^i equal the sum of the low i bits of both operands. |
| Gadgets.DropCarry | examples/chacha20_folding.rs:264-267 | Dropping the final carry leaves `wrapping_add` of the operands' values. |
| Gadgets.AddWord | examples/chacha20_folding.rs:244-268 | The ripple-carry adder's output word has the value `a.wrapping_add(b)`. |
| Gadgets.XorBitsVal | examples/chacha20_folding.rs:281-284 | Bitwise exclusive or on signals has the value of the native `^` of the operands' values. |
| Gadgets.XorWord | examples/chacha20_folding.rs:271-287 | Output bit i is a_i ⊕ b_i, and the word's value is native `a ^ b`. |
| Gadgets.RotateLeftWord | examples/chacha20_folding.rs:290-306 | Output bit i is input bit (i + 32 - n) mod 32. The output is a permutation of the input bits. Its value is `x.rotate_left(n)` for every n ≤ 32. |
| Words.RotateBitsPermutes | examples/chacha20_folding.rs:300-303 | The rotation wiring keeps the multiset of bits, and so the number of set bits. |
| Words.RotateBitsInverse | examples/chacha20_folding.rs:300-303 | Rewiring by k and then by 32 - k restores every signal. |
| Native.RotateLeftBits | examples/chacha20_folding.rs:290-306 | The value of the wiring rotated by k is k successive one-bit rotations of the word's value. This links the gadget to `rotate_left`. |
| Native.XorCommutes | examples/chacha20_folding.rs:344 | `x ^ y == y ^ x`. |
| Native.XorCancels | examples/chacha20_folding.rs:344 | `(x ^ y) ^ y == x`. |
| Native.RotateLeftInverse | examples/chacha20_folding.rs:400-412 | `rotate_left(n)` followed by `rotate_left(32 - n)` is the identity. |
| Native.RotateLeft16Twice | examples/chacha20_folding.rs:400 | Rotating left by 16 twice is the identity. |
| Native.QuarterRound | examples/chacha20_folding.rs:397-413 | The in-place quarter round keeps the state's length and changes no word outside a, b, c, d. |
| Native.QuarterRoundLocal | examples/chacha20_folding.rs:397-413 | For four distinct indices, the in-place quarter round is the four-word quarter round (rotations 16, 12, 8, 7) of the addressed words, written back to their places. |
| Native.QuarterRoundInverts | examples/chacha20_folding.rs:397-413 | The quarter round is a permutation of four-word blocks: the inverse (subtract, rotate right, xor) restores its input. |
| Native.GroupsValid | examples/chacha20_folding.rs:376-385 | Each column and diagonal index group addresses four distinct words of the 16-word state. |
| Native.QuarterRoundsIndependent | examples/chacha20_folding.rs:134-144 | Four quarter rounds on pairwise disjoint groups, applied one after another, equal all four reading the same incoming state and then writing back. |
| Native.DoubleRoundHalves | examples/chacha20_folding.rs:374-386 | A double round is the four column quarter rounds followed by the four diagonal ones. |
| Native.InPlaceDoubleRound | examples/chacha20_folding.rs:374-386 | One iteration of the block function's loop: the eight in-place quarter rounds in source order. The contract states only that 16 words come out. Its meaning comes from `Native.InPlaceDoubleRoundGroups`. |
| Native.InPlaceDoubleRoundGroups | examples/chacha20_folding.rs:374-386 | The eight in-place quarter rounds of one iteration of the native loop compute the double round on index groups. |
| Native.InPlaceRoundsAgree | examples/chacha20_folding.rs:374-386 | Any number of iterations of the loop as written equals that many double rounds on index groups. |
| Native.Layout | examples/chacha20_folding.rs:362-369 | The initial state is words 0-3 the constants `0x61707865, 0x3320646e, 0x79622d32, 0x6b206574`, words 4-11 the key, word 12 the counter and words 13-15 the nonce. |
| Native.Block | examples/chacha20_folding.rs:360-394 | The contract states only that 16 words come out. The block's meaning comes from its body and from `Native.BlockAsWritten`. |
| Native.BlockAsWritten | examples/chacha20_folding.rs:360-394 | `chacha20_block_native` is ten iterations of the in-place loop on the laid-out state, followed by word-wise `wrapping_add` of the original state. |
| Native.ToU32 | examples/chacha20_folding.rs:319-320 | `into_bigint().as_ref()[0] as u32` is a u32, and it is the value itself for values below 2^32. |
| Native.Step | examples/chacha20_folding.rs:313-357 | The native step keeps the length. It keeps slots 0-10 and any slot past 27. It stores `counter + 1` in slot 11. Slot 12 + i gets `plaintext[i] ^ keystream[i]`, embedded in the field. |
| Native.DecryptWord | examples/chacha20_folding.rs:344 | A stored ciphertext word XOR-ed again with its keystream word gives back the plaintext word. |
| Native.StepDecrypts | examples/chacha20_folding.rs:343-354 | In a field holding every u32, XOR-ing each stored ciphertext slot with the same keystream recovers the plaintext block read as u32. |
| Circuit.QuarterRoundGadget | examples/chacha20_folding.rs:162-203 | The gadget's four outputs are the native quarter round of the inputs' low 32 bits, reduced into the field. All four are below 2^32. When the field holds every u32, they are the native words themselves. |
| Circuit.GroupGadget | examples/chacha20_folding.rs:135-138 | One `quarter_round` call on the words a group addresses yields field values. In a field holding every u32, these are the native quarter round of those words. |
| Circuit.HalvesPartition | examples/chacha20_folding.rs:134-156 | The column groups, and likewise the diagonal groups, address 16 distinct words that together cover the state. |
| Circuit.HalfRoundAgrees | examples/chacha20_folding.rs:134-144 | Writing back four quarter-round results computed from the same state equals the native quarter rounds of the four groups in order. |
| Circuit.HalfRound | examples/chacha20_folding.rs:134-144 | Four gadget quarter rounds all read the incoming state, and their results are written back. Every word stays in the field. In a field holding every u32, the result is the native quarter rounds of those groups. |
| Circuit.RoundGadget | examples/chacha20_folding.rs:129-159 | `chacha20_round` keeps every word in the field. In a field holding every u32, it is the native double round of the state's words. |
| Circuit.BlockState | examples/chacha20_folding.rs:94-111 | The gadget's initial state has 16 words. Words 0-3 are the constants reduced into the field. Words 4-11 are prefix slots 0-7, word 12 is prefix slot 11 (the counter), and words 13-15 are prefix slots 8-10 (the nonce). |
| Circuit.BlockStateLayout | examples/chacha20_folding.rs:94-111 | For words below 2^32, the gadget's initial state is the native layout: words 0-3 the constants, 4-11 the key, 12 the counter (slot 11), 13-15 the nonce (slots 8-10). |
| Circuit.CombineTruncates | examples/chacha20_folding.rs:119-123 | When the field holds 2·(2^32 - 1), the plain field sum of two words is their integer sum, below 2^33. Read back as a u32, it is `wrapping_add`. |
| Circuit.AddTruncates | examples/chacha20_folding.rs:122 | A field sum x + y that does not wrap, read as u32, is `wrapping_add` of x's low 32 bits and y, as line 390 computes it. |
| Circuit.TruncatedBlockState | examples/chacha20_folding.rs:94-111 | In a field holding every u32, the low 32 bits of the gadget's initial state are the native layout (lines 362-369) of the prefix words' low 32 bits, whatever their high bits. |
| Circuit.BlockStateFits | examples/chacha20_folding.rs:94-111 | When the prefix fits, every word of the gadget's initial state, the constants included, plus any u32 stays below the modulus. |
| Circuit.BlockAgreesWide | examples/chacha20_folding.rs:119-123 | When every prefix word plus any u32 stays below the modulus, the field sums of the initial and working states, read as u32, are the native keystream of the prefix words' low 32 bits. |
| Circuit.BlockAgrees | examples/chacha20_folding.rs:119-123 | After ten rounds, the field sums of the initial and working states, each read as u32, are the native keystream block. |
| Circuit.BlockGadget | examples/chacha20_folding.rs:85-126 | The 16 keystream field elements stay in the field. When the field holds the sum of two words and every prefix word plus any u32 stays below the modulus, each one, read as u32, is the native `chacha20_block_native` word for the low 32 bits of the key, nonce and counter in the state prefix. For prefix words below 2^32, each one is also below 2^33 - 1. |
| Circuit.EncryptWord | examples/chacha20_folding.rs:72-77 | One ciphertext slot is the plaintext and keystream words' low 32 bits XOR-ed, then embedded in the field. The slot is below 2^32. |
| Circuit.StepGadget | examples/chacha20_folding.rs:54-80 | For every input, the step keeps the length, slots 0-10 and any slot past 27. Slot 11 becomes the field sum counter + 1. It also returns the 16 keystream field elements it computed. Slot 12 + i is the low 32 bits of plaintext word i XOR-ed with those of keystream element i, embedded in the field, and is below 2^32. Every slot stays in the field. When the field holds the sum of two words and every slot 0-11 plus any u32 stays below the modulus, the keystream read as u32 is the native block for the state. If the counter is also below 2^32 - 1, the result equals the native step. |
| Circuit.KeystreamOfState | examples/chacha20_folding.rs:69 | The keystream of the state's first 12 slots, which is what the block gadget receives, is the keystream of the whole state. |
| Circuit.StepAgrees | examples/chacha20_folding.rs:472 | The circuit's next state, built from the keystream it computes, is `chacha20_step_native`'s next state. This is the equality the test asserts. |
| Field.BN254NoWrap | examples/chacha20_folding.rs:20 | BN254's scalar field holds every u32 and the sum of any two. |

## Left out

- The folding demonstration in `main` (lines 479-592) is not modelled. It covers Nova, KZG and Pedersen setup, the folding loop, random numbers, timing and printing. These are external libraries, I/O and floating point.
- `examples/chacha20_performance_test.rs` and `examples/chacha20_noir_folding.rs` are not part of this model. The first is a benchmark driver; the second loads a compiled Noir circuit from disk.
- Constraint-system mechanics are not modelled. `ConstraintSystemRef`, witness and constant allocation, and `SynthesisError` propagation are dropped. Each gadget is modelled by the values of its signals.
- The two witness-only steps are taken to use honest values. The counter is read with `.value()` and re-allocated as a fresh witness (lines 64-66). `uint32_to_fpvar` allocates one witness per bit, and no constraint ties it to the bit (lines 234-236). The model gives those witnesses the values the prover computes. It does not prove that the constraints force those values.
- The unused `_counter` parameter of `chacha20_block_gadget` (line 89) and the unused step index `_i` (line 57) are not modelled.
- The RFC 7539 test vector of the test (lines 430-456) is not evaluated. The model proves the circuit/native equality for every input that meets `Circuit.StepGadget`'s conditions, and the test's input meets them. Evaluating the block function on literals is beyond what the verifier unfolds.
- The quarter-round test vector of section 2.1.1 of RFC 7539 is not evaluated either. It is left out for the same reason: the XOR is defined bit by bit, and unfolding it on 32-bit literals is beyond the verifier's budget.
- `F::from` (lines 95-98, 349 and 353) is modelled as `x mod p`. `into_bigint().as_ref()[0] as u32` (lines 319-335) is modelled as `x mod 2^32` of the canonical value, because the low 64-bit limb cast to `u32` is exactly the low 32 bits.
- Native.Step: the counter must be below 2^32 - 1. At u32::MAX, `counter + 1` (line 349) panics in debug builds and wraps in release builds. The model requires the counter to avoid that case rather than choosing one of the two.
- Native.Block runs the double round on index groups. The loop as written (lines 374-386) is `Native.InPlaceDoubleRound`. `Native.InPlaceDoubleRoundGroups` proves the two equal for one iteration, and `Native.BlockAsWritten` proves the block equal to the loop as written.
- Circuit.StepGadget: equality with the native step is stated only under the four conditions above. Outside them the two may diverge, and they do in two cases. First, a counter slot of 2^32 or more: the circuit stores the field sum z[11] + 1 (line 65), but the native step stores (z[11] mod 2^32) + 1 (line 349). Second, a final field addition (line 122) that wraps mod p. Key and nonce words of 2^32 or more do not by themselves cause a divergence. For every input, the model proves the frame, the counter slot and the field range. It also proves that each ciphertext slot is below 2^32 and is the XOR of the plaintext with the keystream element the gadget returns. That this keystream is the native block is stated only when the field holds the sum of two words and every slot 0-11 plus any u32 stays below the modulus.
- Circuit.BlockGadget: the keystream is tied to the native block only when `2·(2^32 - 1) < p` and every prefix word plus any u32 stays below the modulus. Outside that, a final field addition can wrap mod p, and then its low 32 bits need not be `wrapping_add`.
- Circuit.RoundGadget, Circuit.HalfRound and Circuit.GroupGadget: equality with the native double round is stated only when `p >= 2^32`. In a smaller field, the gadget's outputs are the native words reduced mod p (`Circuit.QuarterRoundGadget`), and the next round reads their low bits.
