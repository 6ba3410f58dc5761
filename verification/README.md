# A verified model of a WireGuard stack for microcontrollers

The repository implements WireGuard for the ESP32 in C: Curve25519, ChaCha20, Poly1305 and BLAKE2s in
`src/crypto/refc`, the Noise_IKpsk2 handshake and the keypair slots in `src/wireguard.c`, and the timers and the
transport path in `src/wireguardif.c`. This project models those files in Dafny, in the form the C has (limb arrays
updated in place, contexts with buffers and counters, structures copied from slot to slot), and proves each method
against a short mathematical definition. `dafny verify dfyconfig.toml` checks the whole project.

## How the modules fit together

* `Words` defines the bitwise operators of C on bounded integers, and little-endian strings.
* `Limbs`, `FieldOps` and `X25519` are `x25519.c`: carries, lazy reduction, masked swaps, the 256-step ladder with
  merged swaps, the 13-step power chain and the canonical output, against `ScalarMult`, a ladder on field elements.
  `Rfc7748` relates that ladder, which has one step more than section 5 of RFC 7748, to the output of the standard.
  `Curve` says what it computes on y^2 = x^3 + 486662 x^2 + x: double-and-add over the bits of the scalar, and a
  quotient at the end.
* `PolyField` and `Poly1305` are the radix-2^26 code: no 32-bit or 64-bit value wraps, every block multiplies modulo
  2^130 - 5, and any division of the input into updates gives the one-shot `Mac` of section 2.5 of RFC 7539.
* `ChaCha20` and `Aead` are the cipher and the AEAD of section 2.8 of RFC 7539 with its extended-nonce form, in place
  or not; `AeadLengths` settles what happens to texts of 2^31 bytes and more. `Blake2s` is the streaming hash against
  the block-wise definition of section 3.3 of RFC 7693. `Kdf` is HMAC and the key derivation in shared buffers.
* `Layout`, `Permutations` and `Blake2sShape` describe these primitives a second time, apart from the functions that
  follow the program: which byte goes where, the word functions with their inverses, rounds as columns and diagonals,
  the authenticator as one polynomial, where the tables come from.
* `Noise` is the handshake as functions of the two devices' keys, built on the functions above, with the agreement
  theorem; `NoiseMachine` is the C code of the four messages on the handshake's buffers; `Transcript` lists which
  secrets reach which key and which bytes reach which hash.
* `Replay` is the replay window; `Session` is one peer as a state machine with a log of what it encrypted, received,
  started and accepted; `Device` is the same peer as C structures and methods, with a device object whose objects are
  always the state after a possible run; `SessionSafety`, `Delivery` and `Bookkeeping` prove what holds after every
  run; `Conduct` says in milliseconds and counters when a key encrypts, when a packet is received, when a session may
  go, and what the timer does; `Layers` ties the cryptographic handshake to the state machine.
* `Tai64n` and `Base64` are the timestamp and the key encoding.

Four facts about the field and the curve appear as hypotheses, each for the keys and points at hand: multiplying in
either order gives the same point (`Noise.Commutes`, in the agreement theorems); two clamped scalars send a point to
zero together, and a new ephemeral key has a non-zero public key (`Noise.Regular`, where a message has to be possible
to make); and Fermat's little theorem for one element (in `Rfc7748.ClampedOutputIsRfc` and `Curve.OutputIsQuotient`).
Random bytes, random indices, the clock, allocation and transmission are inputs. `unsigned long` and `size_t` have 32
bits, as on the ESP32.

`Session` is the specification of `Device`: a run is a sequence of events, `Possible` says that generated indices are
unused when drawn (which the rejection loop ensures, `Device.WireguardPeer.GenerateUniqueIndex`) and that the clock
never reads zero when data arrives. `Device.WireguardDevice.Handle` takes one input of the device at a time and keeps
the history of events as ghost state, so every theorem about `Possible` runs holds of the objects.

## What the code does that its comments or its standard do not say

* The replay window holds four packets, not 32, because its size is taken in bytes, and differences are taken in 32
  bits (`src/wireguard.c:325-346`). A call decides by the window's rule and records its verdict exactly when the
  32-bit difference is faithful (`Replay.CheckExactly`), for whole sequences exactly when all of them are
  (`Replay.RunRightExactly`), and no number is accepted twice, whatever the sequence, exactly as long as all numbers
  stay at or below 2^32 + 1 (`Replay.OnceOnlyExactly`).
* The packet that confirms a responder's session is checked against the slot that has just been wiped
  (`src/wireguardif.c:305-319`), so received again it is accepted again, exactly when its counter is not zero
  (`Delivery.ConfirmingPacketRepeats`); `Delivery.DoubleReceipt` is a run of four events in which that happens.
  Sessions this side initiated are not affected (`Delivery.InitiatedOnce`), exactly as long as counters stay at or
  below 2^32 + 1 (`Delivery.InitiatedOnceExactly`).
* A responder that accepts an initiation but cannot make its reply is left with a valid handshake without an index
  when none is left from before (`src/wireguard.c:630-636`); no other step does that (`Delivery.IndexLostExactly`,
  `Delivery.IndexedThroughout`). The state machine leaves the outcome of a reply open and so admits such a run
  (`Delivery.PendingWithoutIndex`), but no message of a registered peer causes it, given the curve facts above: what
  is accepted can be answered (`Noise.AcceptedIsAnswered`), so in runs of actual messages the pending handshake always
  has an index (`Layers.MessagesKeepIndex`). It would never be looked up, as only an initiator's is
  (`Delivery.PendingIndex`).
* `chacha20poly1305_decrypt` keeps the length in an `int` and widens it with its sign. A text of 2^31 bytes or more
  comes back exactly when the clamped r is zero or one of three further numbers and, for these, the accumulator is
  below a bound (`AeadLengths.LongRoundTrip`); under every other key and nonce it is refused
  (`AeadLengths.LongRefused`).
* The guard against frequent initiations subtracts the present from the last reception (`src/wireguard.c:623`). It is
  modelled as written; no rate follows from it.
* The ladder runs over 256 bits, one more than the standard; for a clamped scalar the extra step multiplies the
  projective coordinates by powers of four times the base point (`Rfc7748.ExtraStepRescales`), which the final
  division cancels (`Rfc7748.UnitOutput`), and over the base point zero both ladders give zero (`Rfc7748.ZeroOutput`).
  The top bit of the base point is not masked (`src/crypto/refc/x25519.h:49-54`).
* A base64 group with three padding characters is accepted and gives a byte. The decoder writes more bytes than the
  size it was given, then exactly one more, if and only if the size is a multiple of three and the group after that
  many bytes is one character and three paddings (`Base64.WritesExactly`), as in `A===` with size zero.
* Subtraction starts its borrow at -38; when the second operand exceeds the first plus 2p the 32-bit borrow wraps and
  the result is off by 2^32 (`FieldOps.Sub`). No caller gets there, as lazily reduced operands never do.
* With one 16-word swap `condswap` moves the adjacent pairs (x2, z2) and (x3, z3); the model makes the two 8-word
  swaps. The ladder is given the base point in limbs once; the program computes the same limbs and then reads the
  bytes in place, which is the same number on a little-endian machine.

## Model

| member | source | states |
|---|---|---|
| Limbs.Umaal | src/crypto/refc/x25519.c:58-64 | multiply-add with carry is exact for all 32-bit words: it never overflows 64 bits |
| Limbs.Adc | src/crypto/refc/x25519.c:67-71 | the sum and its carry are exact |
| Limbs.Adc0 | src/crypto/refc/x25519.c:73-77 | the sum and its carry are exact |
| FieldOps.Propagate | src/crypto/refc/x25519.c:79-93 | for every overflow word the result is the carry taken in 32 bits, below 2^255 + 2^32; for every overflow word that does not wrap, which all callers' are, exactly the low 255 bits plus 19 times what lies above them |
| FieldOps.FoldCongruent | src/crypto/refc/x25519.c:79-93 | the fold at bit 255 keeps the residue modulo 2^255 - 19 |
| FieldOps.Add | src/crypto/refc/x25519.c:95-102 | the field sum of any two 256-bit inputs, in lazily reduced form, whichever arrays coincide |
| FieldOps.Sub | src/crypto/refc/x25519.c:104-112 | for any two 256-bit inputs: the field difference when the second operand is at most the first plus 2p, which every lazily reduced second operand is, and that difference plus 2^32 otherwise |
| FieldOps.SubWraps | src/crypto/refc/x25519.c:104-112 | the wrapped borrow adds 2^32 to the residue |
| FieldOps.WordMatters | src/crypto/refc/x25519.c:104-112 | adding 2^32 always changes a residue, so the condition of the subtraction is exact |
| FieldOps.SubCongruent | src/crypto/refc/x25519.c:104-112 | starting the borrow at -38 adds 2p: the 257-bit difference is congruent to a - b |
| FieldOps.MulRow | src/crypto/refc/x25519.c:137-145 | one row adds exactly multiplier times a, shifted by the row, to the accumulator |
| FieldOps.FoldHalves | src/crypto/refc/x25519.c:147-151 | low half plus 38 times the high half, exactly, with the carry returned |
| FieldOps.Mul | src/crypto/refc/x25519.c:132-153 | the field product of any 256-bit a and any 1- to 8-limb b, in lazily reduced form, whichever arrays coincide |
| FieldOps.Sqr | src/crypto/refc/x25519.c:155-155 | the field square of any 256-bit input |
| FieldOps.Mul1 | src/crypto/refc/x25519.c:156-156 | the product overwrites its own factor correctly |
| FieldOps.Sqr1 | src/crypto/refc/x25519.c:157-157 | squaring in place |
| FieldOps.FMulReduce | src/crypto/refc/x25519.c:132-153 | multiplying lazily reduced representatives multiplies the field elements |
| FieldOps.CondSwap | src/crypto/refc/x25519.c:159-165 | exchanges two arrays when the mask is all ones and leaves them when it is zero |
| FieldOps.SubNineteen | src/crypto/refc/x25519.c:194-199 | subtracts 19 exactly from anything at least 19; the collected word is zero exactly when the difference is |
| FieldOps.Canon | src/crypto/refc/x25519.c:167-201 | any value below 2^255 + 2^32 becomes its least residue modulo 2^255 - 19; the returned word is all ones exactly when that is zero |
| X25519.SwapIn | src/crypto/refc/x25519.c:114-121 | the limbs denote the little-endian number of the 32 bytes |
| X25519.SwapOut | src/crypto/refc/x25519.c:123-130 | the bytes are the little-endian encoding of the limbs |
| X25519.LadderPart1 | src/crypto/refc/x25519.c:205-220 | the additions, differences and products of the first half of a ladder step, in five shared slots |
| X25519.LadderPart2 | src/crypto/refc/x25519.c:221-229 | the second half, including the recovery of BB as AA - E |
| X25519.LadderStep | src/crypto/refc/x25519.c:258-259 | both halves are one doubling and differential addition of section 5 of RFC 7748, and all four results are lazily reduced |
| X25519.StepAlgebra | src/crypto/refc/x25519.c:205-229 | the order of operations in the code computes the step of the standard for all field elements |
| X25519.ScalarBit | src/crypto/refc/x25519.c:245-254 | the mask is all ones exactly when that bit of the (clamped) scalar is set |
| X25519.Core | src/crypto/refc/x25519.c:231-262 | after the loop with merged swaps the slots hold the ladder over all 256 scalar bits with a swap before and after every step |
| X25519.SwapPoints | src/crypto/refc/x25519.c:159-165 | both points are exchanged together, coordinates included |
| X25519.ChainStep | src/crypto/refc/x25519.c:274-288 | the thirteen table rows take the listed exponents from one to the next |
| X25519.SquareTimes | src/crypto/refc/x25519.c:291-295 | n squarings multiply the exponent by 2^n |
| X25519.PowerChain | src/crypto/refc/x25519.c:268-297 | the chain raises z2 to exactly p - 2 |
| X25519.FPowAdd | src/crypto/refc/x25519.c:289-297 | powers with added exponents multiply |
| X25519.ScalarMultiply | src/crypto/refc/x25519.c:264-321 | for every scalar and every 32-byte base the output is the encoding below p of x2 z2^(p-2) after the ladder; -1 is returned exactly when clamping is on and the result is zero |
| Curve.DoublingLaw | src/crypto/refc/x25519.c:205-229 | for every point the first pair of a ladder step is the doubled point of the curve with coefficient 486662 |
| Curve.AdditionLaw | src/crypto/refc/x25519.c:205-229 | the second pair is the sum of two points whose difference has the base x-coordinate |
| Curve.LadderIsMultiples | src/crypto/refc/x25519.c:231-262 | the ladder over any stretch of scalar bits is double-and-add over these bits, from the highest |
| Curve.OutputIsQuotient | src/crypto/refc/x25519.c:264-321 | the output times the denominator of the scalar's multiple is its numerator, given Fermat's little theorem for the denominator, and zero for the point at infinity |
| Curve.ClampNumber | src/crypto/refc/x25519.c:246-253 | the clamped scalar is 2^254 plus bits 3 to 253 of the given one |
| Rfc7748.DoubleScales | src/crypto/refc/x25519.c:205-229 | a ladder step on rescaled projective points gives rescaled results |
| Rfc7748.ExtraStepRescales | src/crypto/refc/x25519.c:244-260 | when bit 255 of the scalar is clear, the 256-step ladder ends in the points of the 255-step ladder with coordinates multiplied by powers of four times the base point, for every number of steps and every base |
| Rfc7748.UnitOutput | src/crypto/refc/x25519.c:231-297 | if four times the base point has order dividing p - 1, the output of the 256-step ladder is x2 z2^(p-2) after the 255 steps of the standard |
| Rfc7748.ZeroOutput | src/crypto/refc/x25519.c:231-297 | over the base point zero both outputs are zero, for every scalar |
| Rfc7748.ClampBits | src/crypto/refc/x25519.c:246-253 | a clamped scalar is a multiple of 8 with bit 254 set and bit 255 clear |
| Rfc7748.ClampedOutputIsRfc | src/crypto/refc/x25519.c:231-297 | for every clamped scalar and every base the output is the one of section 5 of RFC 7748, given Fermat's little theorem for four times the base point when that is not zero |
| PolyField.ColumnsBound | src/crypto/refc/poly1305-donna-32.h:107-112 | under the limb bounds of the code no column sum reaches 2^64 |
| PolyField.ColumnsExact | src/crypto/refc/poly1305-donna-32.h:107-112 | the five columns differ from the product by a multiple of 2^130 - 5 that is written out |
| PolyField.MulReduce | src/crypto/refc/poly1305-donna-32.h:107-121 | multiplication by the clamped key with partial reduction is exact modulo 2^130 - 5 and gives back the limb bounds |
| PolyField.PartialReduce | src/crypto/refc/poly1305-donna-32.h:114-121 | the carry pass keeps the residue; h0, h2, h3 and h4 end below 2^26 and h1 slightly above |
| PolyField.FullCarry | src/crypto/refc/poly1305-donna-32.h:159-164 | the last carry pass keeps the residue and leaves every limb, h1 included, below 2^26 |
| PolyField.SelectReduced | src/crypto/refc/poly1305-donna-32.h:166-185 | the masked choice is the exact least residue |
| PolyField.Repack | src/crypto/refc/poly1305-donna-32.h:187-191 | the four words are the number modulo 2^128 |
| PolyField.AddPad | src/crypto/refc/poly1305-donna-32.h:193-197 | adding the pad is exact modulo 2^128 |
| Poly1305.BlockLimbsNum | src/crypto/refc/poly1305-donna-32.h:100-105 | the five overlapping loads split the 128-bit block without loss |
| Poly1305.ClampLimbs | src/crypto/refc/poly1305-donna-32.h:49-54 | the five masks are the clamping of section 2.5 of RFC 7539 |
| Poly1305.FoldAcc | src/crypto/refc/poly1305-donna-32.h:99-125 | absorbing blocks one after the other is the polynomial over the concatenation |
| Poly1305.Authenticator.Init | src/crypto/refc/poly1305-donna-32.h:45-71 | key and pad are loaded and nothing is absorbed |
| Poly1305.Authenticator.Blocks | src/crypto/refc/poly1305-donna-32.h:73-132 | every block b makes h congruent to (h + b + hibit 2^104) r, under kept limb bounds |
| Poly1305.Authenticator.Update | src/crypto/refc/poly1305-donna.c:6-41 | appends its input to the text absorbed so far, for every way the input is divided |
| Poly1305.Authenticator.LastBlockIn | src/crypto/refc/poly1305-donna-32.h:142-150 | the padded short block counts as the last block of the standard |
| Poly1305.Authenticator.Finish | src/crypto/refc/poly1305-donna-32.h:134-219 | writes the one-shot authenticator of everything absorbed |
| Layout.ClampedKey | src/crypto/refc/poly1305-donna-32.h:49-54 | clamping clears the top four bits of four bytes and the low two bits of three, and nothing else |
| Layout.AccIsPolynomial | src/crypto/refc/poly1305-donna-32.h:99-125 | the accumulator is the polynomial whose coefficients are the blocks with a byte 1 behind them |
| Layout.TagNumber | src/crypto/refc/poly1305-donna-32.h:134-219 | the tag is that polynomial modulo 2^130 - 5 plus the second half of the key, modulo 2^128 |
| ChaCha20.BlockInto | src/crypto/refc/chacha20.c:102-115 | one block of section 2.3 of RFC 7539 |
| ChaCha20.TwentyRounds | src/crypto/refc/chacha20.c:68-90 | ten double rounds in place are the function on sequences |
| ChaCha20.Chacha20 | src/crypto/refc/chacha20.c:117-140 | XORs the key stream from the current block counter on, across blocks and the short tail, in place or forward, and leaves the counter after the last block |
| ChaCha20.XorStreamInvolutive | src/crypto/refc/chacha20.c:117-140 | applying the key stream twice restores every text |
| ChaCha20.Init | src/crypto/refc/chacha20.c:149-166 | the state of the standard with counter zero and the 64-bit nonce in the last two words |
| ChaCha20.Hchacha20 | src/crypto/refc/chacha20.c:172-202 | the first and last four words after the rounds |
| Permutations.RotLValue | src/crypto/refc/chacha20.c:51-51 | a rotation brings the high bits below the others |
| Permutations.QuarterInverse | src/crypto/refc/chacha20.c:62-66 | the quarter round is undone by its eight operations taken back in reverse |
| Permutations.DoubleRoundShape | src/crypto/refc/chacha20.c:68-77 | a double round works on the four columns and then, rows turned, on the diagonals |
| Permutations.BlockTrace | src/crypto/refc/chacha20.c:102-115 | a block is the state after twenty alternating rounds plus the state before them, word by word |
| Layout.StateBytes | src/crypto/refc/chacha20.c:149-166 | the initial state is the constant text, the key, eight zero bytes and the nonce |
| Layout.HStateBytes | src/crypto/refc/chacha20.c:172-202 | the state of HChaCha20 is the constant text, the key and sixteen nonce bytes |
| Layout.HChaChaOuter | src/crypto/refc/chacha20.c:172-202 | the derived key is the first and last sixteen bytes of the state after the rounds |
| Aead.GenerateKey | src/crypto/refc/chacha20poly1305.c:49-64 | the one-time key is the first half of block zero and the counter is left at one |
| Aead.Authenticate | src/crypto/refc/chacha20poly1305.c:80-99 | the updates feed exactly data, text, paddings and the two lengths |
| Aead.Encrypt | src/crypto/refc/chacha20poly1305.c:66-105 | ciphertext and tag of section 2.8 of RFC 7539, in place or not, and nothing else is written |
| Layout.OneTimeKeyBlock | src/crypto/refc/chacha20poly1305.c:49-64 | the one-time key is the first half of block zero of the key stream |
| Layout.TextBlocks | src/crypto/refc/chacha20poly1305.c:76-77 | byte i of every text meets byte i mod 64 of block 1 + i / 64 |
| Layout.SealTag | src/crypto/refc/chacha20poly1305.c:78-104 | the last sixteen bytes are the authenticator of the authenticated text under the one-time key |
| Layout.MacTextLayout | src/crypto/refc/chacha20poly1305.c:80-99 | data and ciphertext begin at multiples of 16 with zeros between, and two 64-bit lengths end the text |
| Layout.MacTextInjective | src/crypto/refc/chacha20poly1305.c:80-99 | no two pairs of data and ciphertext have the same authenticated text |
| Aead.Decrypt | src/crypto/refc/chacha20poly1305.c:107-162 | success gives the opened text and leaves the rest of the destination alone; failure, or a box shorter than a tag, leaves the destination untouched |
| Aead.CryptoEqual | src/crypto.c:14-23 | true exactly when the two byte ranges are equal |
| Aead.RoundTripExact | src/crypto/refc/chacha20poly1305.c:107-162 | for every length, decryption undoes encryption exactly when the length and its sign-extension get the same tag, and is refused otherwise |
| AeadLengths.TagsAgreeExactly | src/crypto/refc/chacha20poly1305.c:107-162 | for every ciphertext of 2^31 bytes or more the tags over the true and the sign-extended length agree exactly when adding the drift of the clamped r modulo 2^130 - 5 leaves the accumulator the same modulo 2^128 |
| AeadLengths.HarmlessExactly | src/crypto/refc/chacha20poly1305.c:107-162 | that is so exactly when r is k times one number, with k at most 3, and the accumulator plus k 2^128 is below 2^130 - 5 |
| AeadLengths.LongRoundTrip | src/crypto/refc/chacha20poly1305.c:66-162 | for every length below 2^32, decryption gives the text back below 2^31 bytes or for those r and accumulators, and refuses otherwise |
| AeadLengths.LongRefused | src/crypto/refc/chacha20poly1305.c:107-162 | under every key and nonce but those of four values of r every text of 2^31 bytes or more is refused |
| AeadLengths.XLongRoundTrip | src/crypto/refc/chacha20poly1305.c:164-193 | the round trip with 24-byte nonces for every length below 2^32 |
| Aead.RoundTrip | src/crypto/refc/chacha20poly1305.c:66-162 | decryption undoes encryption for every key, nonce, data and text below 2^31 bytes |
| Aead.OpenedExactly | src/crypto/refc/chacha20poly1305.c:107-162 | a box of any length opens to a text exactly when it is the ciphertext of that text followed by the tag over the length as an int holds it |
| Aead.OpenedIsSealed | src/crypto/refc/chacha20poly1305.c:107-162 | for texts below 2^31 bytes, a box is accepted exactly when it is the sealing of some text, which is then the one returned |
| Aead.XRoundTrip | src/crypto/refc/chacha20poly1305.c:164-193 | the round trip with 24-byte nonces for every text below 2^31 bytes |
| Aead.XEncrypt | src/crypto/refc/chacha20poly1305.c:169-179 | encryption under the derived key and the last eight nonce bytes, and nothing outside the box is written |
| Layout.XSealLayout | src/crypto/refc/chacha20poly1305.c:164-179 | the first sixteen nonce bytes derive the key, the last eight are the inner nonce |
| Aead.XDecrypt | src/crypto/refc/chacha20poly1305.c:181-193 | decryption under the derived key and the last eight nonce bytes, and nothing outside the text is written |
| Blake2s.Context.CompressBlock | src/crypto/refc/blake2s.c:31-73 | the compression function of section 3.2 of RFC 7693 on buffer and counter |
| Blake2s.Context.Init | src/crypto/refc/blake2s.c:78-103 | refuses exactly the bad parameters; otherwise the parameter block, and a key as a first block of its own |
| Blake2s.Context.Update | src/crypto/refc/blake2s.c:105-121 | appends its input; the last full block is held back; the 64-bit counter is the number of bytes compressed |
| Blake2s.Context.Final | src/crypto/refc/blake2s.c:123-142 | the hash of the concatenation of all inputs, keyed or not |
| Blake2s.Context.Count | src/crypto/refc/blake2s.c:112-114 | the two counter words add as one 64-bit number across the carry |
| Blake2s.Compute | src/crypto/refc/blake2s.c:144-157 | the one-shot form gives the same hash |
| Blake2s.ChainPrefix | src/crypto/refc/blake2s.c:105-121 | blocks already complete are not affected by later input |
| Blake2sShape.IvIsRoots | src/crypto/refc/blake2s.c:23-28 | every initial word is the first 32 fractional bits of the square root of one of the first eight primes |
| Blake2sShape.SigmaPlaces | src/crypto/refc/blake2s.c:33-44 | the table of the ten rounds, read by columns |
| Blake2sShape.SigmaPermutes | src/crypto/refc/blake2s.c:33-44 | every round uses every message word |
| Blake2sShape.SigmaMoves | src/crypto/refc/blake2s.c:33-44 | no word comes at the same place in two rounds |
| Permutations.MixInverse | src/crypto/refc/blake2s.c:12-21 | the mixing function is undone by its eight operations taken back in reverse |
| Permutations.RoundShape | src/crypto/refc/blake2s.c:60-69 | a round mixes eight message words into the columns and eight into the diagonals |
| Blake2sShape.CompressTrace | src/crypto/refc/blake2s.c:48-73 | ten such rounds run from the working vector, and both halves of the last state are fed forward into the chaining value |
| Blake2sShape.StartShape | src/crypto/refc/blake2s.c:78-103 | the parameter block holds the two lengths and two ones |
| Blake2sShape.InputShape | src/crypto/refc/blake2s.c:95-101 | a key fills a block of its own in front of the message |
| Blake2sShape.HashTrace | src/crypto/refc/blake2s.c:105-142 | a hash of any key and message is one chain of compressions over the padded blocks, each with the bytes up to its end, the last one marked |
| Kdf.MixHashInPlace | src/wireguard.c:204-210 | the hash of hash and data replaces the hash it was computed from |
| Kdf.HmacInPlace | src/wireguard.c:212-257 | HMAC of section 2 of RFC 2104 for keys of any length, also when the digest overwrites the text |
| Kdf.Kdf1 | src/wireguard.c:259-273 | the first derived key, also when it overwrites the chaining key |
| Kdf.Kdf2 | src/wireguard.c:275-294 | the first two derived keys from one shared output buffer |
| Kdf.Kdf3 | src/wireguard.c:296-320 | the first three derived keys from one shared output buffer |
| Kdf.ExpandNext | src/wireguard.c:287-288 | the next key replaces the previous one inside the text it is computed from |
| Transcript.HmacParts | src/wireguard.c:212-257 | HMAC hashes the block key under two paddings, byte by byte 0x36 and 0x5c |
| Transcript.BlockKeyShape | src/wireguard.c:225-238 | a short key is padded with zeros, a long one hashed first |
| Transcript.DeriveSteps | src/wireguard.c:259-320 | the three derived keys as calls of HMAC |
| Replay.CheckExactly | src/wireguard.c:322-364 | for every window, the set it means and every number: the call accepts exactly the admissible numbers and goes on meaning the accepted set if and only if the 32-bit difference is faithful |
| Replay.RunMeans | src/wireguard.c:322-364 | after every sequence of faithful calls, however large the numbers, the counter is the greatest accepted number and bit d tells whether the number d below it was accepted |
| Replay.AcceptanceRule | src/wireguard.c:322-364 | in such a sequence a number is accepted exactly when it is not zero and exceeds the greatest or lies less than four below it and is new |
| Replay.RunRightExactly | src/wireguard.c:322-364 | all calls of a sequence are right if and only if all its differences are faithful |
| Replay.LowRunFaithful | src/wireguard.c:322-364 | in every sequence of numbers up to 2^32 + 1 they are |
| Replay.RunAcceptsOnce | src/wireguard.c:322-364 | in a faithful sequence no number is accepted twice |
| Replay.WrappedAcceptsTwice | src/wireguard.c:325-332 | the calls 1, 100, 2^32 + 2, 1 accept 1 twice |
| Replay.OnceOnlyExactly | src/wireguard.c:322-364 | numbers up to m are accepted at most once in every sequence if and only if m is at most 2^32 + 1 |
| Device.WireguardKeypair.CheckReplay | src/wireguard.c:322-364 | the bitmap operations on the keypair make the step of the specification |
| Device.WireguardKeypair.CopyFrom | src/wireguard.c:465-466 | structure assignment copies the whole keypair |
| Device.WireguardKeypair.Destroy | src/wireguard.c:457-460 | the keypair is zero |
| Device.WireguardHandshake.Destroy | src/wireguard.c:447-455 | indices and validity are cleared, the role stays |
| Device.WireguardPeer.GenerateUniqueIndex | src/wireguard.c:377-402 | the rejection loop ends with the first random word that is neither 0 nor all ones nor in use |
| Device.FirstUnused | src/wireguard.c:377-402 | the word found is unused |
| Device.WireguardPeer.KeypairUpdate | src/wireguard.c:462-469 | a packet under the next keypair rotates the slots; under another, nothing moves |
| Device.WireguardPeer.AddNewKeypair | src/wireguard.c:471-484 | where the new keypair goes and which one becomes the previous, for both roles |
| Device.WireguardPeer.StartSession | src/wireguard.c:486-525 | a fresh keypair with the handshake's indices goes into its slot; the handshake is cleared |
| Device.WireguardPeer.GetKeypairForIndex | src/wireguard.c:366-375 | the slot found, or none, in the order current, next, previous |
| Device.WireguardPeer.OutputToPeer | src/wireguardif.c:98-193 | key choice, expiry, limits, counter increment, times and the rekey flag |
| Device.WireguardPeer.AcceptData | src/wireguardif.c:300-319 | times, slot rotation, rekey flag and replay check in the order of the code |
| Device.WireguardPeer.ProcessData | src/wireguardif.c:261-380 | lookup, expiry, failed allocation, failed authentication, acceptance |
| Device.WireguardPeer.ProcessInitiation | src/wireguard.c:615-638 | replay and rate guards, the pending handshake, the reply's index and session |
| Device.WireguardPeer.ProcessResponse | src/wireguardif.c:215-231 | the pending handshake found by index, the new session and the keep-alive |
| Device.WireguardPeer.StartHandshake | src/wireguardif.c:627-644 | the pending handshake with a new index, and what a failed allocation leaves |
| Device.WireguardPeer.Timer | src/wireguardif.c:850-895 | reset, destruction, keep-alive and rekeying in the order of the code |
| Device.WireguardPeer.AddPeer | src/wireguardif.c:742-803 | a free slot is filled from zero, or only zeroed when the peer cannot be initialised; a registered peer is left alone |
| Device.WireguardPeer.RemovePeer | src/wireguardif.c:719-728 | a registered peer is zeroed |
| Device.WireguardPeer.Connect | src/wireguardif.c:667-683 | exactly a registered peer with an endpoint becomes active |
| Device.WireguardPeer.Disconnect | src/wireguardif.c:685-698 | all three keypairs are destroyed |
| Device.EventOf | src/wireguardif.c:98-895 | every input of the device is an event enabled in its state |
| Device.WireguardDevice.Dispatch | src/wireguardif.c:98-895 | for every input the methods make the step of the state machine |
| Device.WireguardDevice.Handle | src/wireguardif.c:98-895 | the objects hold the state after the run extended by that event, and the run stays possible |
| Device.WireguardDevice.Safe | src/wireguardif.c:98-895 | so the invariant of slots, indices, sessions and log holds of the objects |
| Session.Extend | src/wireguardif.c:98-895 | a possible run followed by an enabled event is a possible run |
| SessionSafety.OutputKeeps | src/wireguardif.c:98-193 | sending keeps the invariant of slots, indices, sessions and log |
| SessionSafety.DataKeeps | src/wireguardif.c:261-380 | receiving data keeps it |
| SessionSafety.StartSessionKeeps | src/wireguard.c:471-525 | starting a session keeps it, whichever slots are occupied |
| SessionSafety.InitiationKeeps | src/wireguardif.c:408-428 | receiving an initiation and replying keeps it |
| SessionSafety.ResponseKeeps | src/wireguardif.c:215-231 | receiving a reply keeps it |
| SessionSafety.StepKeeps | src/wireguardif.c:98-895 | every possible event keeps it |
| SessionSafety.RunKeeps | src/wireguardif.c:98-895 | it holds after every possible run |
| Delivery.CountersIncrease | src/wireguard.c:1013-1016 | over every run the counters encrypted under one session key strictly increase, so none is used twice |
| Delivery.CountersConsecutive | src/wireguardif.c:112-146 | they start at zero, skip nothing and stay below the message limit, so none wraps |
| Conduct.SendsExactly | src/wireguardif.c:98-193 | in every run the current key encrypts exactly when it is valid, less than 180000 ms old, below 2^64 - 1 - 2^13 packets and there is memory; which counter, which times and when a new session is asked for |
| Conduct.ReceivesExactly | src/wireguardif.c:261-380 | in every run a packet that can be told apart is received exactly when its key is usable and its number new by the rule of the window |
| Conduct.AuthenticNoted | src/wireguardif.c:300-316 | every authentic packet is noted at its key, and an ageing key of this side's asks for a new session |
| Conduct.ReplyKeeps | src/wireguard.c:471-484 | in every run an accepted reply makes its session current and keeps the unconfirmed one, or else the current one, where its packets are looked up |
| Conduct.AnswerKeeps | src/wireguard.c:471-484 | an answered initiation puts its session next and keeps the current one |
| Conduct.ConfirmKeeps | src/wireguard.c:462-469 | the first packet under the next session makes it current and keeps the old current one |
| Conduct.SessionsSurvive | src/wireguardif.c:98-895 | in every run a session stays in some slot at every event but those listed: removal, age or exhaustion, and being pushed out by newer sessions |
| Conduct.TimerActs | src/wireguardif.c:850-895 | in every run one call of the timer wipes, sends and starts a handshake exactly under conditions in milliseconds |
| Conduct.ReplyStartsExactly | src/wireguardif.c:215-231 | a reply starts a session exactly when authentic and for the pending initiation |
| Conduct.IndicesProper | src/wireguard.c:377-402 | in every run no generated index is zero or all ones |
| Conduct.AddsFresh | src/wireguardif.c:742-803 | a newly registered peer is inactive, without keys, handshake or times |
| Conduct.UnregisteredEmpty | src/wireguardif.c:719-728 | in every run there are no keys without a registered peer |
| Delivery.IndicesApart | src/wireguard.c:377-402 | after every run valid keypairs have distinct non-zero indices and sessions, and no index of theirs is the pending handshake's |
| Delivery.SlotRoles | src/wireguardif.c:108-115 | a next keypair is a responder's, a current responder keypair has received something, and the fallback to the previous keypair never happens |
| Delivery.LookupUnique | src/wireguard.c:366-375 | after every run the index in a packet names exactly one keypair |
| Delivery.IndexLostExactly | src/wireguard.c:622-636 | from a state whose pending handshake has an index, a step leaves one without exactly when it accepts an initiation by stamp and guard, the reply cannot be made and no index is left from before |
| Delivery.IndexedThroughout | src/wireguard.c:622-636 | in every run the pending handshake always has an index if and only if no step is of that kind |
| Delivery.AnsweredMeansIndexed | src/wireguard.c:630-636 | in a run whose initiations can all be answered it always has one |
| Delivery.PendingIndex | src/wireguard.c:906-915 | in every run a pending handshake without an index is a responder's |
| Delivery.PendingWithoutIndex | src/wireguard.c:630-636 | with the outcome of the reply left open, such a handshake can arise |
| Delivery.StartedOnce | src/wireguard.c:486-525 | a session is started once, in one role, with one index |
| Delivery.ReceiptWindow | src/wireguardif.c:319-319 | one receipt adds its counter to what the keypair's window remembers, and only when new |
| Delivery.JudgedExactly | src/wireguardif.c:300-360 | in every run all receipts but the confirming ones are decided by the rule and recorded if and only if every packet's difference is faithful when its turn comes |
| Delivery.LowTruthful | src/wireguardif.c:300-360 | in every run with counters up to 2^32 + 1 they are |
| Delivery.OnlyConfirmingRepeats | src/wireguardif.c:300-360 | in such a run a counter is received twice under a session only when its first packet is the one that confirmed the session |
| Delivery.InitiatedOnce | src/wireguardif.c:300-360 | in such a run every counter is received at most once under a session this side initiated, across all slot moves and handshakes |
| Delivery.InitiatedOnceExactly | src/wireguardif.c:300-360 | counters up to m are received at most once under initiated sessions in every run if and only if m is at most 2^32 + 1 |
| Delivery.WrappedReceivedTwice | src/wireguardif.c:300-360 | a possible run from the start in which an initiated session receives the counters 1, 100, 2^32 + 2 and 1 again |
| Delivery.ConfirmingPacketRepeats | src/wireguardif.c:300-319 | the confirming packet received again is accepted again exactly when its counter is not zero |
| Delivery.DoubleReceipt | src/wireguardif.c:300-319 | a possible run from the start in which the confirming packet is received twice |
| Bookkeeping.IndexSpentOnce | src/wireguard.c:486-525 | in every run each generated index becomes at most one session, and a pending one none yet |
| Bookkeeping.ReplayVerdict | src/wireguard.c:622-622 | an initiation is called a replay exactly when some earlier stamp since registration is at least as late |
| Bookkeeping.AcceptedInitiations | src/wireguard.c:619-638 | accepted stamps strictly increase in every run, and an initiation is accepted exactly when authentic, later than all of them and past the guard |
| Noise.InitiationUnderstood | src/wireguard.c:560-617 | in whatever state, the responder authenticates an unaltered initiation and arrives at the initiator's hash, chaining key and timestamp |
| Noise.ReplyUnderstood | src/wireguard.c:664-749 | the waiting initiator accepts an unaltered reply and arrives at the responder's chaining key |
| Noise.HandshakeAgrees | src/wireguard.c:486-948 | across both messages: acceptance exactly by the timestamp and the guard, then agreement of chaining keys, each sending key the other's receiving key, and mirrored indices |
| Noise.HandshakeSucceeds | src/wireguard.c:486-948 | between devices that have registered each other the first message is always made, is accepted exactly by the timestamp and the guard, and is then always answered, with the same agreement |
| Transcript.ExchangeTranscript | src/wireguard.c:486-948 | after every unaltered exchange both chaining keys are the fold of the derivation over both ephemeral public keys, the four secrets and the preshared key, and each direction has its own key derived from it |
| Transcript.InitiationTranscript | src/wireguard.c:772-852 | both encrypted fields of an initiation, under the keys and hashes of the secrets and bytes before them, and the state after it |
| Transcript.ReadTranscript | src/wireguard.c:576-617 | the responder reads exactly messages with these fields and arrives at that state |
| Transcript.ReplyTranscript | src/wireguard.c:861-935 | the tag of a reply over the history of its sender, and the state after it |
| Transcript.ReadReplyTranscript | src/wireguard.c:664-749 | the initiator takes exactly replies with the tag of its own history |
| Transcript.InitiationMacs | src/wireguard.c:840-852 | index and both MACs of an initiation |
| Transcript.ReplyMacs | src/wireguard.c:929-941 | indices and both MACs of a reply |
| Transcript.InitiationLayout | src/wireguard.h:203-212 | where the fields of an initiation lie |
| Transcript.ResponseLayout | src/wireguard.h:215-224 | where the fields of a reply lie |
| Transcript.DhNumber | src/crypto.h:53-57 | a secret is the ladder's output for the clamped private key and the public key, all little-endian |
| Transcript.CookieFresh | src/wireguard.c:846-846 | a cookie is used for 120000 ms |
| Noise.AcceptedIsAnswered | src/wireguard.c:560-935 | whatever initiation of a registered peer is accepted can be answered |
| Noise.InitiationMadeExactly | src/wireguard.c:772-852 | an initiation is made exactly when the new public key and the secret with the peer are not zero; the clamped private key never is |
| Noise.ReplyMadeExactly | src/wireguard.c:861-935 | a reply is made exactly from a responder's pending handshake with a new public key and two secrets that are not zero |
| Noise.MeetingItself | src/wireguard.c:960-1011 | the hypotheses of the agreement theorems are met by a device registered with itself, for every private key |
| Noise.ReplyAcceptedExactly | src/wireguard.c:682-735 | a reply is accepted exactly when the handshake is pending, both secrets are non-zero and its tag is the one the initiator's own state gives |
| Noise.InitiationReadExactly | src/wireguard.c:576-617 | an initiation is read with stamp t exactly when the secret is not zero and its two boxes are the sealings of the peer's public key and of t |
| Noise.AlteredInitiationRefused | src/wireguard.c:560-617 | changing the static box or the MAC of a readable initiation makes it refused |
| Noise.AlteredReplyRefused | src/wireguard.c:664-749 | changing the tag or the MAC of an acceptable reply makes it refused |
| NoiseMachine.X25519 | src/crypto.h:53-57 | the byte-level Diffie-Hellman function, failing exactly on the zero result |
| NoiseMachine.ClampPrivateKey | src/wireguard.c:404-407 | clamping in place |
| NoiseMachine.GeneratePublicKey | src/wireguard.c:414-421 | succeeds exactly for a non-zero key with a non-zero public key; the public buffer is untouched for the zero key and holds the product otherwise |
| NoiseMachine.CheckMac1 | src/wireguard.c:423-431 | accepts exactly the keyed hash of the message |
| NoiseMachine.Mac2 | src/wireguard.c:846-852 | the second MAC is zero when no cookie has come or the last one is two minutes old, and keyed with it over all before it otherwise |
| NoiseMachine.HandshakeBuffers.CreateInitiation | src/wireguard.c:772-852 | the buffers and the message after every outcome, failed ones included |
| NoiseMachine.HandshakeBuffers.ReadInitiation | src/wireguard.c:576-617 | authentication on local buffers gives hash, chaining key and timestamp, or refuses |
| NoiseMachine.HandshakeBuffers.ProcessInitiation | src/wireguard.c:560-662 | the handshake, greatest stamp and reception time after every outcome |
| NoiseMachine.HandshakeBuffers.CreateResponse | src/wireguard.c:861-935 | the buffers and the message after every outcome, failed ones included |
| NoiseMachine.HandshakeBuffers.ReadResponse | src/wireguard.c:664-749 | refusal leaves the handshake untouched, success stores the reply's state |
| NoiseMachine.HandshakeBuffers.DeriveTransport | src/wireguard.c:500-522 | sending and receiving keys by role, and the wiped handshake |
| Layers.InitiationLayers | src/wireguardif.c:562-577 | handshake buffers and state machine accept together and give the new session the indices of the transport keys |
| Layers.NeverUnanswered | src/wireguard.c:560-662 | no initiation of a registered peer is accepted and left unanswered |
| Layers.MessagesKeepIndex | src/wireguard.c:560-662 | in every run whose initiations are messages of registered peers the pending handshake always has an index |
| Layers.ResponseLayers | src/wireguardif.c:579-593 | the same for a reply; any other reply changes nothing |
| Layers.SessionsFindEachOther | src/wireguardif.c:544-625 | end to end: after an unaltered handshake the two new sessions name each other, and each side's packets are looked up as the other side's new session |
| Layers.PacketsOpen | src/wireguard.c:1013-1020 | under agreed keys every packet below 2^31 bytes opens at the other end, both ways and under every counter |
| Tai64n.Now | src/wireguard-platform.c:55-72 | the twelve bytes of the timestamp of a millisecond count |
| Tai64n.StampFields | src/wireguard-platform.c:55-72 | the stamp reads as 2^62 + 10 plus the seconds, and a thousand for every millisecond below a second |
| Tai64n.MemcmpIsOrder | src/wireguard.c:622-622 | memcmp orders equally long strings as big-endian numbers |
| Tai64n.StampsOrderLikeClocks | src/wireguard-platform.c:55-72 | stamps compare exactly as their millisecond clocks, for every 64-bit count |
| Base64.LookupSextet | src/wireguard.c:54-54 | the table is undone by the closed form for all 64 sextets |
| Base64.Base64Encode | src/wireguard.c:1095-1129 | succeeds exactly when text and terminator fit, writes 4 ceil(n/3) characters with their padding, the terminator, and nothing behind it |
| Base64.EncodeBits | src/wireguard.c:1095-1129 | every group of characters stands for the bits of its bytes, six by six from the top, with padding for missing bytes |
| Base64.Base64Decode | src/wireguard.c:1022-1093 | verdict, length and bytes of the decoding function on every terminated string, and nothing written behind them; one spare array element is asked for exactly when the decoder overruns |
| Base64.DecodesExactly | src/wireguard.c:1022-1093 | a string decodes exactly when it is whole groups of the alphabet with at most three paddings at the end and the size holds what it is accounted for; then it gives the bytes of its groups |
| Base64.GroupBytes | src/wireguard.c:1067-1085 | the bytes of a group are its bits, eight by eight from the top |
| Base64.RoundTrip | src/wireguard.c:1022-1129 | decoding undoes encoding for every byte sequence and every buffer that holds it |
| Base64.EncodedReadsBack | src/wireguard.c:1022-1129 | the same through the terminated buffer the encoder leaves |
| Base64.WritesExactly | src/wireguard.c:1067-1085 | on every string and size the bytes written exceed the size by at most one, and do so if and only if the size is a multiple of three and three paddings follow one character in the group after that many bytes |
| Base64.ThreePadsYieldByte | src/wireguard.c:1042-1085 | the string A=== with size zero is such an excess |

## Left out

- The group law and the primality of 2^255 - 19: commutation, one instance of Fermat's little theorem, and which scalars give zero are hypotheses.
- Noise.AcceptedIsAnswered: assumes, as Layers.NeverUnanswered and Layers.MessagesKeepIndex do, that a new ephemeral key has a non-zero public key and that clamped scalars send the points they meet to zero together; on the curve these are the points of order dividing 8, and likewise on its twist.
- Noise.HandshakeSucceeds: assumes the same of both ephemeral keys.
- Curve.OutputIsQuotient: where the denominator is not zero, assumes that its power p - 1 is one. That doubling and sum are the group law of the curve is not proved; they are its formulas in projective x-coordinates.
- Rfc7748.ClampedOutputIsRfc: assumes that four times a non-zero base point to the power p - 1 is one, which holds because 2^255 - 19 is prime.
- Cookie replies and the load check (`src/wireguard.c:174-190`, `433-445`, `751-770`, `950-958`): `wireguard_is_under_load` is always false, so no cookie is ever demanded; the last cookie received and its time are inputs of the messages.
- Secrecy, constant time and the wiping of local buffers: not functional properties.
- Sign and verify in `x25519.c`: compiled out.
- Equality of the two final handshake hashes: the responder mixes in the encrypted empty payload and the initiator does not, so agreement is stated for chaining keys and session keys.
- More than one peer: `WIREGUARD_MAX_PEERS` is 1, and the loop that generates an index overwrites its verdict on each pass.
- Allowed addresses, endpoints, IPv6, statistics and link state: whether a packet routes is an input of the event and only recorded in the log.
- Several clock readings inside one event: the model reads the clock once per event; the clock is otherwise arbitrary, also across its 32-bit wrap.
- The packet bytes of transport data: `Session` and `Device` take the outcome of authentication as an input; `Aead` has the round trip.
- `esp_hw`: thin wrappers around a library that is not part of this model.
- Buffers of 2^31 characters or more in base64, where the program's `int` offsets would overflow: excluded by precondition.
- Aead.Decrypt: overlapping source and destination are covered when the destination starts at or before the source, which includes decryption in place.
- Device.WireguardPeer.StartSession: the keys derived at that point are those of NoiseMachine.HandshakeBuffers.DeriveTransport; the keypair object here carries indices, role and times only.
- Noise.MeetingItself: two devices with different keys need the group law for their products to commute.
