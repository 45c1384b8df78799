# Verified model of the thalovant client library

A Dafny 4.11 model of the parts of the C library that carry its protocols: the X25519 key exchange on 16-bit limbs, the
Noise XXpsk2 and KKpsk0 handshakes with their transport, AES-GCM above the block cipher, the streaming hashes and the
block selection of Argon2id, the JSON tokenizer with its shallow scanner, printers and unescaper, the hive message
formats, the intent pattern renderer, the listing of fallback skills, and the text codecs. `dafny verify dfyconfig.toml`
checks all of it.

## How it is built

Code that updates state is modelled by methods that update state in the same way: limb arrays, token arrays, character
buffers edited in place, hash contexts, a bit reader, a handshake party with its fields. Each is proved to leave what a
function of its inputs says, and the theorems are about those functions.

| files | what they model |
|---|---|
| Status, Words, Octets, Bits, Masks, Arithmetic, Blanks | result codes, fixed-width words, byte order, bits and masks, powers and quotients, trimming |
| Modular, Limbs, Field, Encoding, X25519, LadderTheory | limb arithmetic with 64-bit accumulators, the Montgomery ladder, what it computes |
| NoiseSession, Noise, NoiseLifecycle, NoiseHandshake, NoiseTransport | one party as a class, one invariant over every run, two parties through a handshake and after it |
| NoiseTranscript, NoiseWritten, NoiseHeard, NoiseRuns, NoiseBinding | what the five messages mix and seal, written out one by one; whole handshakes; what equal messages say about two parties |
| NoiseSuite | the library's own X25519, AES-GCM and HMAC put under the Noise layer |
| Polynomials, Gf128, Gcm, GcmMeaning | multiplication in GF(2^128), GHASH, counter mode, sealing and opening; the blocks, bits and bytes they work on |
| Sha256, Blake2b, HashMeaning, Argon2, Argon2Meaning, NoisePsk, PskMeaning | streaming with a partly filled block, the variable-length hash, the memory loop, and the pre-shared key they make of a password; each told step by step in its standard's numbers |
| JsonText, JsonTree, JsonParser, JsonTokens, JsonNesting | the tokenizer as a class, the tree its tokens stand for, finding one's way in them |
| JsonGrammar, JsonRoom | numbers, words and strings as RFC 8259 writes them; which error a refused text gets |
| JsonScan, JsonLimit, JsonAgree, JsonIterate, JsonWalks | the shallow scanner and its iterators, against the tokenizer |
| JsonBalance, JsonSteps | what the scanner and its iterators see in any text, accepted or not |
| JsonPrint, JsonSpelling, JsonEscape, JsonUnicode, JsonMembers, Wire, BinaryFrame, FrameBits, Codec, CodecMeaning, Envelope | printers and readers, there and back, and the characters, bits and letters they deal in |
| JsonMeaning, WireMeaning, EnvelopeMeaning | what any accepted text says, and what is written: a message frame, a sealed envelope |
| Speaking, PatternTree, Sentence, Speakable | rewriting a pattern, the meaning of a pattern, what each step finds and leaves, rewriting in one buffer |
| SkillRows, SkillSteps, SkillTree, Fallbacks | which rows of the hub's list are fallback skills, and their sorted delivery without repetition and without a list |

## What is taken as given

- The block cipher and the compression functions of SHA-256, BLAKE2b and Argon2 are parameters: function values handed
  to the model. The Noise layer takes its hash, HMAC, exchange and AEAD the same way, with `NoiseLifecycle.Lawful` as its
  hypothesis about them (lengths, symmetry of the exchange, opening what was sealed). `NoiseSuite.SuiteIsLawful` proves
  that hypothesis for the library's own X25519, AES-GCM and HMAC over SHA-256, given only that X25519 commutes. What is
  read is told under `NoiseLifecycle.Authentic` (nothing opens but what was sealed, hashes have 32 bytes), which
  `NoiseSuite.SuiteIsAuthentic` proves for them without any hypothesis. `NoiseLifecycle.LawsAreConsistent` shows both
  satisfiable together.
- No function with the lengths these primitives have is injective. The theorems of NoiseBinding therefore say that equal
  messages have equal secrets unless hash, HMAC or sealing collide on the very inputs of the two parties.
- `LadderTheory.LadderMultiplies` takes a relation between numbers and points that is closed under the doubling and the
  differential addition of the curve y^2 = x^3 + 486662 x^2 + x, in projective x coordinates; it does not use that
  2^255 - 19 is prime.
- A buffer that a caller supplies is an array, and what lies outside it is not modelled. Strings the C code ends with a
  zero byte are sequences; where the terminator matters (the pattern renderer, decoders) it is written out.

## What turned out not to hold

- Base64 text that decodes is not always the encoding of what it decodes to: bits left over at the end are ignored
  (`Codec.SpareBitsIgnored`). `Codec.EncodeDecode` says exactly when it is.
- The tokenizer lets a backslash followed by a zero byte through, and unescaping refuses it (`JsonEscape.ZeroEscapeIsAccepted`).
  With room enough, a string that was accepted unescapes exactly when it holds no zero byte (`JsonEscape.UnescapeSucceedsIff`).
- A pattern can fail to render although the finished sentence fits the buffer, because a long slot value comes before a
  short one (`Speaking.FillNeedsRoomBetween`). `Speaking.FillFitsIff` says when: right after
  some slot's value has gone in, the text does not fit.
- An empty plaintext can be sealed in a binary envelope but not opened (`Envelope.EmptyNeverOpens`,
  `Envelope.BinaryOpensIff`).
- A JSON envelope is refused unless the buffer has eight bytes more than envelope and terminator take, and the plaintext
  has been overwritten by then (`Envelope.EncryptJson`, and `Envelope.SlackIsAsked` with a call refused for that alone).
- A fallback skill's id is measured against its buffer before blanks are trimmed off (`SkillTree.PaddedIdRefused` has an id
  that would fit once trimmed), and an id is cut at an escaped zero byte (`SkillTree.IdsAre`).
- "handshake" and names outside the table do not survive the binary frame (`BinaryFrame.TypeNameOfWireType`).
- The limb 121665 of the ladder's constant is above 2^16, so the bound that products are usually given does not cover it;
  `Field.Mul` is proved for a first operand with this looser bound.

## Model

| member | source | states |
|---|---|---|
| Field.Reduce | src/noise_curve.c:13-28 | three carry passes always suffice: any accumulator within the stated column bound comes out congruent modulo 2^255 - 19 with every limb in range, and nothing overflows 64 bits on the way |
| Field.Mul | src/noise_curve.c:29-36 | the limbs of the product are in range and stand for the product modulo 2^255 - 19, for a first operand that may even be the ladder's constant, and also when the result is written over an operand |
| Field.Add | src/noise_curve.c:37-43 | the sum modulo 2^255 - 19, limbs in range |
| Field.Sub | src/noise_curve.c:44-50 | the difference modulo 2^255 - 19, with no step below zero |
| Field.BiasValue | src/noise_curve.c:44-50 | the bias added to every limb is, as a whole, exactly twice the prime |
| Masks.MaskedExchange | src/noise_curve.c:51-59 | the masked exclusive-or exchanges two words when the bit is 1 and keeps them when it is 0 |
| Masks.MaskedChoice | src/noise_curve.c:81-86 | the two masked words and their or give the second word when the bit is 1, the first when it is 0 |
| Field.Swap | src/noise_curve.c:51-59 | both limb arrays trade places, or neither changes |
| Field.ExponentIsInverse | src/noise_curve.c:60-71 | the bits that the inversion walks spell 2^255 - 21 |
| Field.Invert | src/noise_curve.c:60-71 | the result is congruent to the base to the power 2^255 - 21 |
| Encoding.TrialDecides | src/noise_curve.c:72-87 | subtracting the prime leaves no borrow exactly when the value is at least the prime, so the limbs chosen are the residue |
| Encoding.Encode | src/noise_curve.c:72-87 | the 32 bytes spell the value's residue modulo 2^255 - 19, the one below the prime |
| Encoding.Decode | src/noise_curve.c:98-100 | the limbs stand for the bytes without bit 255 |
| X25519.DoubleInto | src/noise_curve.c:109-131 | the limb steps of a doubling compute the doubling formula of RFC 7748 on numbers |
| X25519.CombineInto | src/noise_curve.c:109-131 | the limb steps of a differential addition compute its formula |
| X25519.BitMatches | src/noise_curve.c:102-131 | one turn with deferred exchanges matches one turn of the ladder that never exchanges |
| X25519.Ladder | src/noise_curve.c:102-133 | the whole deferred-exchange ladder leaves the point of the exchange-free ladder over the scalar's bits 254 to 0 |
| X25519.Compute | src/noise_curve.c:88-152 | the output bytes spell x times z to the power p - 2 for that point, on the clamped scalar and the public number without bit 255; the return code reports an all-zero output |
| LadderTheory.LadderMultiplies | src/noise_curve.c:102-133 | for every relation between numbers and points that is closed under the doubling and differential addition of the curve with A = 486662, the ladder's point is the scalar's multiple of the input |
| LadderTheory.PrimeIs | src/noise_curve.c:13-28 | the modulus of the limb arithmetic is 2^255 - 19 |
| LadderTheory.DoubleIs | src/noise_curve.c:109-131 | the doubling steps give ((x^2 - z^2)^2 : 4xz(x^2 + 486662xz + z^2)), both modulo the prime |
| LadderTheory.CombineIs | src/noise_curve.c:109-131 | the other steps give (4(xx' - zz')^2 : 4u(xz' - zx')^2), the differential addition over a point with x coordinate u |
| LadderTheory.ClampedScalar | src/noise_curve.c:95-97 | the scalar is a multiple of 8 with bit 254 set and keeps the other bits of the key |
| LadderTheory.DropTopBitValue | src/noise_curve.c:98-100 | the public number is taken modulo 2^255 |
| LadderTheory.PublicResidue | src/noise_curve.c:88-152 | public keys that agree modulo 2^255 - 19 give every private key the same result |
| LadderTheory.CanonicalResult | src/noise_curve.c:72-87 | the output is below the prime, the only 32 bytes that spell its number, and all zero exactly when that number is 0 |
| LadderTheory.InfinityIsZero | src/noise_curve.c:134-152 | a ladder that ends at infinity gives the zero result, which is reported as an error |
| Noise.Party.EncryptHash | src/noise.c:114-125 | the state and output afterwards are those of the specification, with the nonce advanced only when a key is set |
| Noise.Party.DecryptHash | src/noise.c:126-140 | the same for opening |
| Noise.Party.Dh | src/noise.c:141-169 | the token and the role choose the two keys as the specification says |
| Noise.Party.SplitKeys | src/noise.c:170-185 | the last step sets both transport keys by role and leaves no handshake secret; any other step only advances |
| Noise.Party.InitParty | src/noise.c:186-223 | the fresh state, or the wiped one for arguments that are refused |
| Noise.Party.WriteMessage | src/noise.c:224-272 | the state, return code and bytes of the specification, on every path |
| Noise.Party.ReadMessage | src/noise.c:273-328 | the same for a received message |
| Noise.Party.EncryptFrame | src/noise.c:348-367 | the same for a frame sent |
| Noise.Party.DecryptFrame | src/noise.c:368-389 | the same for a frame received |
| Noise.Party.Fail | src/noise.c:17-24 | a failed party is all zero but for its mark |
| NoiseLifecycle.LawsAreConsistent | src/noise.c:25-169 | the assumptions about the primitives can be met together |
| NoiseSuite.SuiteIsAuthentic | src/noise.c:99-113 | with the library's own primitives nothing opens but what was sealed |
| NoiseSuite.HmacIs | src/noise.c:25-47 | two hashes, one inside the other, behind blocks of 64 bytes: the key mixed with 54 and with 92 |
| NoiseSuite.ExchangeInto | src/noise.c:141-169 | what the limb program computes is the exchange on numbers, refused exactly when the secret is zero |
| NoiseSuite.ComputeHmac | src/noise.c:25-47 | the two streamed digests are the HMAC of RFC 2104 |
| NoiseSuite.BytesOpenIffSealed | src/noise.c:85-113 | a box opens to a text exactly when it is that text sealed under the same key, nonce and data |
| NoiseSuite.SuiteIsLawful | src/noise.c:25-169 | the library's own primitives meet every assumption of the Noise theorems, if X25519 commutes |
| NoiseLifecycle.InitSound | src/noise.c:186-223 | a party starts within the lifecycle invariant |
| NoiseLifecycle.WriteKeeps | src/noise.c:224-272 | writing keeps the invariant; a written message is its payload and exactly the overhead of its step |
| NoiseLifecycle.ReadKeeps | src/noise.c:273-328 | reading keeps the invariant, and what is delivered is shorter by exactly that overhead |
| NoiseLifecycle.TablesAddUp | src/noise.c:224-328 | each token table sets a key and adds 48, 96 or 64 bytes (XX) or 48 bytes (KK) |
| NoiseLifecycle.RunKeeps | src/noise.c:170-389 | every run of operations keeps the invariant; once failed, a party stays failed and zero until it is initialised again |
| NoiseLifecycle.ReadyMeansFinished | src/noise.c:170-389 | a ready party has taken its last step, holds no handshake secret, and its peer's key is the pin if there was one |
| NoiseLifecycle.RunKeepsRole | src/noise.c:170-389 | no run changes role, pattern or pin |
| NoiseHandshake.SameSecret | src/noise.c:141-169 | both parties' choices of keys for a token reach the same secret |
| NoiseHandshake.TokenStep | src/noise.c:224-328 | after any token, written and read, both parties hold equal chaining key, hash, key and nonce |
| NoiseHandshake.TokensAgree | src/noise.c:224-328 | the same for a whole table, with exactly the written bytes consumed |
| NoiseHandshake.MessageDelivered | src/noise.c:224-328 | a message delivers its payload and leaves both parties in step |
| NoiseHandshake.XXCompletes | src/noise.c:186-328 | for any payloads an honest XX run delivers each one and ends with both parties ready, their keys crossed |
| NoiseHandshake.KKCompletes | src/noise.c:186-328 | the same for KK |
| NoiseRuns.Starts | src/noise.c:186-223 | set-up: the first chaining key is the protocol's full name, the first hash that of name and prologue and, in KK, of the initiator's key and then the responder's; and exactly when it is refused |
| NoiseWritten.WriteXXFirst | src/noise.c:224-272 | the first XX message is the ephemeral key and a box; `e` is hashed and mixed in; the return code of every call in this place |
| NoiseWritten.WriteXXSecond | src/noise.c:10-10 | the second XX message mixes `e`, `ee`, seals `s`, and mixes `es` and the pre-shared key, in this order, before its payload is sealed |
| NoiseWritten.WriteXXThird | src/noise.c:224-272 | the third XX message seals `s` under nonce 1, mixes `se`, seals the payload, and leaves the two transport keys of its last chaining key |
| NoiseWritten.WriteKKFirst | src/noise.c:11-11 | the first KK message mixes the pre-shared key, `e`, `es` and `ss`, in this order, before its payload is sealed |
| NoiseWritten.WriteKKSecond | src/noise.c:224-272 | the second KK message mixes `e`, `ee` and `se`, seals the payload, and leaves the two transport keys |
| NoiseHeard.ReadXXFirst | src/noise.c:273-328 | a message is taken for the first XX message exactly when it is one under what the reader holds; the same mixes, and the code of every refusal |
| NoiseHeard.ReadXXSecond | src/noise.c:273-328 | the same for the second XX message, with the static key it brings and the pin that key must meet |
| NoiseHeard.ReadXXThird | src/noise.c:273-328 | the same for the third |
| NoiseHeard.ReadKKFirst | src/noise.c:273-328 | the same for the first KK message |
| NoiseHeard.ReadKKSecond | src/noise.c:273-328 | the same for the second |
| NoiseRuns.XXInitiatorRun | src/noise.c:186-328 | everything an XX initiator mixes from start to end, whatever it is sent, if all three calls succeed |
| NoiseRuns.XXResponderRun | src/noise.c:186-328 | the same for the responder |
| NoiseRuns.KKInitiatorRun | src/noise.c:186-328 | the same for a KK initiator |
| NoiseRuns.KKResponderRun | src/noise.c:186-328 | the same for a KK responder |
| NoiseRuns.RunUsesOnce | src/noise.c:85-113 | at every point of every run the message key has sealed or opened nothing before the first message and exactly one text between messages |
| NoiseBinding.XXFirstBinds | src/noise.c:9-11 | equal first XX messages have the same payload and the same past, collisions apart |
| NoiseBinding.XXSecondBinds | src/noise.c:9-11 | equal second XX messages have the same pre-shared key, the same two shared secrets, payload and past, collisions apart |
| NoiseBinding.XXThirdBinds | src/noise.c:9-11 | equal third XX messages have the same shared secret, payload and past |
| NoiseBinding.KKFirstBinds | src/noise.c:9-11 | equal first KK messages have the same pre-shared key, the same two shared secrets, payload and past |
| NoiseBinding.KKSecondBinds | src/noise.c:9-11 | equal second KK messages have the same two shared secrets, payload and past |
| NoiseBinding.XXSecondAgrees | src/noise.c:224-328 | a party that reads the second XX message as another wrote it has the writer's pre-shared key, secrets and past, and gets its payload, collisions apart |
| NoiseBinding.KKFirstAgrees | src/noise.c:224-328 | so does a party that reads the first KK message as another wrote it |
| NoiseTransport.AcceptedIffMessages | src/noise.c:329-347 | the markers let a sequence of frames through exactly when it begins some sequence of whole messages: 0, 1, or 2 or 3, any number of 4, then 5 |
| NoiseTransport.SendKeeps | src/noise.c:348-367 | sending keeps the channel invariant: the nonce counts the frames sent and both ends agree on the open message |
| NoiseTransport.DeliverKeeps | src/noise.c:368-389 | delivering keeps it |
| NoiseTransport.NextFrameOpens | src/noise.c:368-389 | the oldest box under way opens to the next frame sent, if there is room for it |
| NoiseTransport.RunPairKeeps | src/noise.c:348-389 | every run of a pair keeps it in both directions |
| NoiseTransport.FramesArriveInOrder | src/noise.c:348-389 | after any run, what was delivered is a prefix of what was sent, and the counters say how much is under way |
| NoiseTransport.NonceInjective | src/noise.c:79-84 | different counters make different nonces |
| NoiseRuns.EncryptIs | src/noise.c:348-367 | sending: the code of every call, and the box, sealed without associated data under four zero bytes and the counter, highest byte first |
| NoiseRuns.DecryptIs | src/noise.c:368-389 | receiving: the same, and a frame that opens out of place is refused |
| Polynomials.ProductCommutes | src/aes_gcm.c:174-190 | products of polynomials over two elements commute |
| Polynomials.ProductAssociates | src/aes_gcm.c:174-190 | and associate |
| Polynomials.ResidueUnique | src/aes_gcm.c:174-190 | a residue modulo X^128 + X^7 + X^2 + X + 1 has one representative below degree 128 |
| Gf128.DoubledIsShift | src/aes_gcm.c:181-188 | moving down a bit and folding 0xe1 in multiplies by X |
| Gf128.MulIsProduct | src/aes_gcm.c:174-190 | the product block is the product of the polynomials modulo X^128 + X^7 + X^2 + X + 1 |
| Gf128.MulCommutes | src/aes_gcm.c:174-190 | multiplication of blocks commutes |
| Gf128.MulDistributes | src/aes_gcm.c:174-190 | and distributes over exclusive or |
| Gf128.MulAssociates | src/aes_gcm.c:174-190 | and associates |
| GcmMeaning.CoefficientIs | src/aes_gcm.c:174-190 | coefficient i of a block is bit i, each byte's highest first |
| GcmMeaning.TermIff | src/aes_gcm.c:174-190 | a product has a term exactly when an odd number of pairs of terms make it up |
| GcmMeaning.BlockProductIs | src/aes_gcm.c:174-190 | the product block differs from the product of the polynomials by a multiple of the one with exponents 128, 7, 2, 1 and 0 |
| Gf128.DoubleInPlace | src/aes_gcm.c:183-188 | the bytewise shift, from the last byte to the first, is the shift of the block |
| Gf128.Multiply | src/aes_gcm.c:174-190 | the loops compute the product, also over their first operand |
| Gcm.Digester.Update | src/aes_gcm.c:211-223 | the digest takes in the data in blocks of 16, the last one padded with zeros |
| Gcm.GhashIsPolynomial | src/aes_gcm.c:197-235 | the digest of associated data, data and lengths is the polynomial of SP 800-38D, section 6.4, at H |
| GcmMeaning.LengthsCount | src/aes_gcm.c:225-235 | the last block digested spells the bits of the associated data in its first eight bytes and those of the data in its last eight, highest byte first |
| GcmMeaning.GhashIs | src/aes_gcm.c:197-235 | the digest is the polynomial over exactly the blocks of the associated data, those of the data, each filled up with zeros, and the block of both bit counts |
| GcmMeaning.SealIs | src/aes_gcm.c:313-334 | under a nonce of 12 bytes byte i is mixed with the cipher of nonce and number i / 16 + 2, and the digest with that of number 1 |
| GcmMeaning.LongNonce | src/aes_gcm.c:237-252 | under any other nonce counting starts at its own digest |
| Gcm.DeriveCounter | src/aes_gcm.c:237-252 | a nonce of 12 bytes is used as it is, any other is digested |
| Gcm.Increment | src/aes_gcm.c:254-261 | the loop with its carry is the counter step |
| Gcm.Inc32Counts | src/aes_gcm.c:254-261 | the step adds 1 modulo 2^32 to the last four bytes and keeps the others |
| Gcm.CountersDiffer | src/aes_gcm.c:254-278 | within 2^32 - 1 steps no counter block repeats, the one kept for the tag included |
| Gcm.CtrAt | src/aes_gcm.c:263-278 | which counter block masks which byte |
| Gcm.CtrTwice | src/aes_gcm.c:263-278 | counter mode undoes itself, for every length |
| Gcm.RunCtr | src/aes_gcm.c:263-278 | the loop computes counter mode, from one buffer to another or in place |
| Gcm.Compare | src/aes_gcm.c:336-343 | the comparison without early exit decides equality |
| Gcm.Encrypt | src/aes_gcm.c:313-334 | ciphertext and tag are those of the mode, in place too; an empty nonce is refused |
| Gcm.Decrypt | src/aes_gcm.c:345-371 | plaintext is written exactly when the tag matches, and then it is the mode's |
| Gcm.OpensIffSealed | src/aes_gcm.c:313-371 | a box opens to a text exactly when it is the box that sealing this text makes |
| Sha256.Context.Update | src/sha256.c:75-92 | the context stands for all bytes taken in so far, however they were split |
| Sha256.Context.Final | src/sha256.c:94-116 | the result is the fold over the padding of FIPS 180-4, section 5.1.1, of all bytes taken in |
| Sha256.Digest | src/sha256.c:118-124 | the one-shot form gives the same |
| Sha256.PadInjective | src/sha256.c:94-107 | different messages are padded differently |
| HashMeaning.Sha256Is | src/sha256.c:61-116 | from the standard's first state, one compression for each block of the message, a byte 0x80, the fewest zeros and the length in bits, and the eight words of the last state, highest byte first |
| Blake2b.Stream.Update | src/noise_psk.c:88-104 | the context stands for all bytes taken in; a full buffer waits until another byte follows |
| Blake2b.Stream.Final | src/noise_psk.c:105-113 | the result is RFC 7693's hash of all bytes taken in: the last block is padded, counted and marked as such |
| HashMeaning.Blake2bIs | src/noise_psk.c:81-113 | every block with the count of bytes up to its end, the last one marked, and the last state lowest byte first |
| Blake2b.LongHashOf | src/noise_psk.c:121-143 | exactly the requested bytes, as RFC 9106, section 3.3, chains them |
| HashMeaning.LongHashIs | src/noise_psk.c:121-143 | one hash of the length and the message up to 64 bytes; for more, the first half of each link of a chain of hashes, and the rest from the hash of the last link |
| Argon2.Pick | src/noise_psk.c:254-261 | the 32- and 64-bit arithmetic picks the block that RFC 9106, section 3.4.2, selects from its window, with no overflow |
| Argon2.WindowIs | src/noise_psk.c:254-261 | the window holds exactly the blocks written in this pass, or in the last one outside this segment, except the block just written |
| Argon2.ReferenceSafe | src/noise_psk.c:254-264 | for every position and random number the block picked is in range, already written, and neither the current nor the previous one |
| Argon2.FillSegment | src/noise_psk.c:229-265 | a segment is filled as RFC 9106 says, with an address block numbered i / 128 + 1 at position i |
| Argon2.FillMemory | src/noise_psk.c:229-265 | so are all slices of all passes |
| Argon2.OnlySeedsMatter | src/noise_psk.c:222-265 | what the memory held before its first two blocks were set has no influence on the result |
| Argon2Meaning.FirstHalfIgnoresMemory | src/noise_psk.c:231-256 | in the first two slices of the first pass the memory has no say in which block is referred to: the number is word i % 128 of the twice mixed block that counts i / 128 + 1 |
| Argon2Meaning.ElsewhereMemoryDecides | src/noise_psk.c:231-256 | everywhere else it is the first word of the block just written |
| Argon2Meaning.ReferenceIs | src/noise_psk.c:257-262 | the block referred to, in closed form |
| Argon2Meaning.StepIs | src/noise_psk.c:244-265 | a step writes one block, mixed from the one before it and the one referred to, over the old one after the first pass, and no other |
| Argon2Meaning.PositionsInOrder | src/noise_psk.c:244-265 | a segment is its steps in order |
| Argon2Meaning.SegmentsInOrder | src/noise_psk.c:229-266 | the memory is filled by twelve segments in order, the first from its third block on |
| NoisePsk.BlockSpells | src/noise_psk.c:22-33 | a block read from bytes and written out again gives the same bytes |
| NoisePsk.Derive | src/noise_psk.c:194-275 | the 32 bytes are RFC 9106's Argon2id tag of the password, salted with the hash of the node id, whatever the memory held; the blocks used are wiped and those behind them kept; a password too long or memory too small is refused and nothing changes |
| PskMeaning.KeySteps | src/noise_psk.c:207-269 | the key from first to last: the first hash in literal bytes, the two seed blocks, the twelve segments, and 32 bytes hashed from block 65535 |
| JsonParser.Parse | src/json.c:271-286 | tokens and return code are those of the grammar with its depth and token limits, for every text |
| JsonParser.StringEndAt | src/json.c:70-105 | the string scanner finds the closing quote the grammar gives |
| JsonGrammar.WordIff | src/json.c:130-166 | a primitive passes exactly when it is true, false, null, or a sign, digits without a leading zero, a fraction and an exponent put together |
| JsonGrammar.BodyIff | src/json.c:70-105 | a string closes at the quote behind its body exactly when the body is made of plain characters, letters behind a backslash, and \u with four digits; a zero byte behind a backslash passes too |
| JsonRoom.RefusedFor | src/json.c:45-57 | with less room a text gets the same result, or the error for lack of room: surely when it is well-formed and has more tokens |
| JsonPrint.DocumentAccepted | src/json.c:188-286 | every document within the limits, however spaced, is accepted with the tokens of its tree |
| JsonSpelling.AcceptedIff | src/json.c:70-286 | the tokenizer accepts a text, with a certain tree, exactly when the text spells a document of RFC 8259 with that tree, at most 24 levels deep and within the token limit |
| JsonTokens.SkipAt | src/json.c:288-298 | the loop computes the index after a subtree |
| JsonTokens.SkipsTree | src/json.c:288-298 | skipping a token lands one past its subtree |
| JsonTokens.SkipsDocument | src/json.c:288-298 | skipping the root lands at the end |
| JsonTokens.ParentsPrecede | src/json.c:188-286 | every token comes after its parent |
| JsonNesting.ParentsEnclose | src/json.c:188-286 | every token's parent is the last one before it whose subtree, as skipped, it lies in |
| JsonTokens.ObjectGetAt | src/json.c:309-323 | the loop computes the lookup |
| JsonTokens.ObjectGetFinds | src/json.c:309-323 | a lookup gives the value of the first member with the name, or reports it missing |
| JsonMembers.MemberFound | src/json.c:309-323 | in a printed object the value found is the first one printed under the name, in its place |
| JsonScan.ScanMatchesParse | src/json.c:600-687 | where the tokenizer reads a value, the scanner that only balances brackets sees the same kind, span and number of children |
| JsonAgree.ScannerAgrees | src/json.c:600-687 | so it does at the start of every token of an accepted text |
| JsonIterate.ScanAt | src/json.c:600-687 | from any offset, the token and the offset behind it, or the error code; a text too long for an int is refused |
| JsonIterate.ScanKeyAt | src/json.c:689-754 | for any token, the value found or the error code |
| JsonIterate.ScanNextAt | src/json.c:756-792 | for any token and any cursor, the next element, the end or the error code, and where the cursor stands then |
| JsonBalance.WalkIff | src/json.c:600-687 | a container closes where and with as many elements as its brackets balance, whatever else stands in the text |
| JsonBalance.ScanIff | src/json.c:600-687 | the scanner sees a value exactly where one stands behind white space, and with which kind, span and count |
| JsonSteps.ScanKeyIff | src/json.c:689-754 | in any text a lookup by scanning comes through exactly on members in a row between the braces, and gives the first with the name |
| JsonSteps.ScanNextIff | src/json.c:756-792 | in any text a step gives an element exactly where one stands, first or behind a comma, and says the list is over exactly at its closing bracket |
| JsonWalks.ScanKeyFinds | src/json.c:689-754 | on a parsed object the scanner finds the first member with the name, or reports it missing |
| JsonWalks.LookupsAgree | src/json.c:309-323 | scanning for a name and looking it up among the tokens give the same value, for every name, repeated ones included |
| JsonWalks.ScanNextYields | src/json.c:756-792 | stepping from cursor 0 yields each child of a parsed array once, in order, and then the end for ever |
| JsonWalks.WalksAgree | src/json.c:756-792 | so it does from every array token of an accepted text |
| JsonEscape.AppendJsonRange | src/ask.c:23-60 | the literal is written exactly when it and the terminator fit |
| JsonEscape.EscapedIsBody | src/wire.c:62-100 | whatever the text, the literal's body is one the tokenizer accepts |
| JsonUnicode.EscapeIs | src/wire.c:62-100 | how each byte is written: with a letter, with four digits, or as it is |
| JsonEscape.UnescapeAt | src/json.c:391-448 | the loop decodes as the specification does |
| JsonUnicode.Utf8Is | src/json.c:351-380 | a code point becomes the one to four bytes of RFC 3629, section 3, that carry its bits |
| JsonUnicode.PairDecodes | src/json.c:391-448 | two escapes that are the halves of a surrogate pair decode to the bytes of one code point |
| JsonUnicode.UnitDecodes | src/json.c:391-448 | any other escape in four digits decodes to the bytes of its number, even half a pair |
| JsonUnicode.LetterDecodes | src/json.c:391-448 | a backslash and a letter stand for the byte the standard gives |
| JsonUnicode.PlainDecodes | src/json.c:391-448 | anything else stands for itself |
| JsonEscape.LiteralRoundTrip | src/json.c:391-448 | a literal is one token and unescapes to its text, zero bytes included, exactly when text and terminator fit |
| JsonEscape.UnescapeSucceedsIff | src/json.c:391-448 | with a buffer longer than its body, a string the tokenizer accepted unescapes exactly when there is no zero byte in it |
| JsonEscape.UnescapeFitsIff | src/json.c:391-448 | with any other buffer, it gives the same text exactly when text and terminator fit |
| JsonEscape.ZeroEscapeIsAccepted | src/json.c:70-105 | the tokenizer accepts a text that unescaping refuses |
| Wire.Serialize | src/wire.c:112-142 | the whole message is written, or the buffer is too small for it and its terminator |
| WireMeaning.FrameIs | src/wire.c:112-142 | a message is written as one object with eight members in their order, JSON texts as given and strings as literals, and defaults for what is missing |
| Wire.Read | src/wire.c:162-211 | tokenizing, looking up and copying, in the program's order, come to the specified result |
| WireMeaning.ParsedIff | src/wire.c:162-211 | a text parses to a frame exactly when it is an accepted object whose first members with the seven names say that frame: strings that fit, the exact stretches of payload and metadata, and unset where a name is missing or no string |
| Wire.ParseSerialized | src/wire.c:112-211 | a serialized message comes back with every string and the exact texts of payload and metadata, or is refused exactly when a string is too long for its buffer |
| BinaryFrame.EncodeBinary | src/wire.c:517-544 | the bytes of the frame, or the reason there are none |
| BinaryFrame.BitReader.ReadUint | src/wire.c:563-574 | the next bits as a number, or -1 at the end |
| BinaryFrame.DecodeBinary | src/wire.c:576-644 | frame or error are those of decoding the bits |
| BinaryFrame.DecodeIffSpells | src/wire.c:576-644 | the decoder gives a frame exactly when the bits are zeros, the frame's layout with or without a version, and less than a byte more, and both texts fit |
| FrameBits.ReadsIff | src/wire.c:576-644 | the same told by the numbers that stand in the bits: marker, version of at most 1, type, compression, length and both texts |
| FrameBits.UnsupportedIff | src/wire.c:576-644 | bits are reported as unsupported exactly when they have a later version or a complete header that says compressed |
| FrameBits.NoMemoryIff | src/wire.c:576-644 | and as too long exactly when a header is there whose metadata, or else what follows it, does not fit |
| FrameBits.EncodedIs | src/wire.c:517-544 | what is written has no padding and no version |
| FrameBits.BitsAre | src/wire.c:563-574 | each byte's highest bit is read first |
| BinaryFrame.DecodeEncode | src/wire.c:517-644 | an encoded frame behind any number of zero bytes decodes to the message |
| BinaryFrame.TypeNameOfWireType | src/wire.c:23-45 | which type names survive the wire |
| BinaryFrame.TypesAre | src/wire.c:16-45 | the thirteen names in the order of their numbers, and the second name of number 0 |
| Envelope.BinaryOpensIff | src/wire.c:388-433 | a binary envelope opens to a text exactly when it is that text's sealing and the text is not empty and fits |
| Envelope.EmptyNeverOpens | src/wire.c:388-433 | an empty plaintext, sealed, is refused |
| EnvelopeMeaning.BinarySealingIs | src/wire.c:388-409 | the binary form is sixteen bytes of nonce, the ciphertext and sixteen bytes of tag |
| Envelope.EncryptJson | src/wire.c:253-287 | the plaintext is sealed in place and the envelope written, or the buffer lacks the eight bytes of slack that are asked for |
| Envelope.SlackIsAsked | src/wire.c:267-271 | a buffer of 102 bytes holds the envelope of the empty text and its terminator, and is refused; with 110 it is written |
| EnvelopeMeaning.HexEnvelopeIs | src/wire.c:272-287 | the envelope is three members in their order, each value in small digits, at these offsets |
| Envelope.OpenJsonAt | src/wire.c:329-386 | tokenizing, copying, decoding and opening in the caller's buffer come to the specified text and its terminator, or to the specified error |
| EnvelopeMeaning.OpensIff | src/wire.c:329-386 | an envelope opens to a text exactly when it is an accepted object whose nonce, tag and ciphertext strings, in the codec the nonce looks like, spell a sealing of that text that fits |
| EnvelopeMeaning.LooksHexIff | src/wire.c:294-307 | a nonce is taken for hexadecimal exactly when it is the digits, in either case, of 12 or 16 bytes |
| Envelope.HexFieldsOpen | src/wire.c:329-386 | fields in hexadecimal open to the plaintext |
| Envelope.Base64NotHex | src/wire.c:294-307 | a nonce of 12 or 16 bytes in Base64 is never taken for hexadecimal |
| Envelope.SealedEnvelopeOpens | src/wire.c:253-386 | the JSON envelope that is written opens to its plaintext |
| Envelope.PeerEnvelopeOpens | src/wire.c:329-386 | so does one in Base64, with a nonce of either length |
| Codec.HexEncode | src/codec.c:8-22 | the lower-case digits, when they and the terminator fit |
| Codec.HexDecode | src/codec.c:32-50 | the bytes, or which error comes first |
| Codec.UnhexIffHex | src/codec.c:24-50 | a text decodes to data exactly when it is their encoding in either case of letter |
| CodecMeaning.HexAt | src/codec.c:8-22 | each byte takes two digits of the small alphabet, the high one first |
| CodecMeaning.UnhexIff | src/codec.c:24-50 | a text decodes to data exactly when each pair of characters is the two digits of a byte, in either case |
| Codec.Base64Encode | src/codec.c:52-91 | the groups of RFC 4648, section 4, and their padding |
| Codec.Base64Decode | src/codec.c:103-149 | bytes or error, in the program's order of checks, although the accumulator wraps |
| Codec.AccumulatorByte | src/codec.c:133-147 | the wrapped accumulator still holds every bit that is needed |
| CodecMeaning.DigitValueIff | src/codec.c:93-101 | a letter's value is its place in the 64 letters of RFC 4648, section 4 |
| CodecMeaning.EncodeIs | src/codec.c:52-91 | each group of four letters spells three bytes as one number of 24 bits, with equals signs for bytes that are missing |
| CodecMeaning.DecodesIff | src/codec.c:103-149 | a text decodes exactly when it is letters, not one alone behind the last four, and no equals signs or as many as complete the last four |
| CodecMeaning.DecodeIs | src/codec.c:103-149 | and then to the bytes whose bits those letters spell |
| Codec.DecodeEncode | src/codec.c:52-149 | decoding undoes encoding, for all data |
| Codec.EncodeDecode | src/codec.c:52-149 | encoding undoes decoding exactly for padded text with no stray bits |
| Codec.SpareBitsIgnored | src/codec.c:103-149 | two texts that decode alike |
| Speakable.Replace | src/request_helpers.c:9-16 | the stretch is replaced exactly when the result and its terminator fit |
| Sentence.GroupIff | src/request_helpers.c:27-33 | the group found is the first to close, from its innermost opening bracket; none is found exactly when none closes |
| Sentence.AlternativesJoin | src/request_helpers.c:37-45 | the alternatives are the pieces between the bars |
| Sentence.ChooseIs | src/request_helpers.c:35-49 | a group stands for its first alternative that is not blank, trimmed, and goes when none says anything or one does beside blank ones |
| Sentence.SlotIff | src/request_helpers.c:52-58 | a slot is a name of small letters, digits and underscores, not beginning with a digit, between braces |
| Sentence.FillingIs | src/request_helpers.c:58-73 | a name stands for the first slot with it, or for itself with spaces for underscores |
| Sentence.TidyIs | src/request_helpers.c:77-88 | every run of two or more blanks becomes one space and all else is kept; then exactly the spaces and commas at both ends go |
| Speakable.FindGroup | src/request_helpers.c:27-33 | one scan finds the first group to close and its innermost opening bracket |
| Speakable.ChooseIn | src/request_helpers.c:35-49 | one scan finds the first worded alternative, trimmed, or that the group goes |
| Speakable.FillAll | src/request_helpers.c:52-76 | the pass fills every slot once and never looks at a value again, or stops where the buffer is too small |
| Speakable.SqueezeAll | src/request_helpers.c:77-84 | runs of blanks become one space, written behind the place that is read |
| Speakable.Render | src/request_helpers.c:18-90 | the buffer ends up holding the rendering, the loops end, and a call is refused exactly when the pattern is too long or at some moment the text does not fit |
| Speaking.FillFitsIff | src/request_helpers.c:52-76 | filling is refused exactly when, right after some slot's value has gone in, with the slots before it filled and those behind it not, text and terminator do not fit |
| Speaking.FillNeedsRoomBetween | src/request_helpers.c:52-76 | a call that fails although its result would fit |
| PatternTree.OptionsDrop | src/request_helpers.c:24-34 | dropping groups innermost first drops the tree's optional parts, whatever stands around them |
| PatternTree.ChoicesCollapse | src/request_helpers.c:24-51 | collapsing groups innermost first renders the tree's choices |
| PatternTree.SpeakIsRender | src/request_helpers.c:18-90 | rewriting the printed pattern says what the pattern's own rendering says, for every tree and every slots |
| SkillRows.TrimInPlace | src/json.c:450-466 | the text without the blanks around it, moved to the front of the buffer |
| SkillRows.RowAt | src/intents.c:815-876 | what the chain of lookups and comparisons makes of a row, every error included |
| Blanks.BlankIff | src/request_helpers.c:17-17 | the six characters that count as white space |
| SkillSteps.RowIff | src/intents.c:806-876 | a row of any text gives an id exactly when it is an object without another session, whose list of capabilities can be read as far as the one looked for, and that names this id |
| SkillSteps.ListIs | src/intents.c:878-937 | the list is walked element by element, to its closing bracket or to where the scanner gives up |
| SkillTree.RowMeans | src/intents.c:806-876 | read off the tree: a row yields an id exactly when it is an object with a default session, the capability and a string id, and then what the id comes to |
| SkillTree.IdsAre | src/intents.c:878-937 | the ids to deliver are exactly those of the fallback skills among the list's elements, and there is an error exactly when one of these is too long |
| SkillTree.PaddedIdRefused | src/intents.c:868-876 | a fallback skill whose id is one letter behind 63 blanks makes the row an error, although the letter would fit |
| Fallbacks.FindNext | src/intents.c:905-928 | one pass over the text finds the smallest id above the last one, or the first error |
| Fallbacks.LessIff | src/intents.c:915-920 | one id comes before another exactly when it is a proper part of its beginning or has the smaller byte where they first differ |
| Fallbacks.Deliver | src/intents.c:878-937 | the ids delivered are the beginning of the sorted list of distinct ids, all of it unless the caller stops; an error is only possible before the first |
| Fallbacks.DeliveredUnique | src/intents.c:878-937 | only one sequence of ids fits that description |

## Left out

- AES rounds and key schedules, and the compression functions of SHA-256, BLAKE2b and Argon2: fixed tables and bit mixing, kept as function values.
- The group law of the curve, the primality of 2^255 - 19 and every hardness assumption.
- Constant-time behaviour. Wiping is modelled as fields that become zero, and local arrays are not wiped.
- NULL arguments, which the program refuses, are not modelled.
- Noise.Party.WriteMessage: messages and payloads are sequences and a buffer is its capacity, because the layer below copies them whole; the 32-byte fields of a party are sequences for the same reason.
- X25519.Compute: the eighteen temporary limb arrays are allocated where they are used instead of once at the start.
- Argon2.FillMemory: the memory is an array of blocks of 128 words instead of the words themselves.
- NoisePsk.Derive: the size of the memory is therefore given in blocks; whether a hash or a block is wiped from a local array is not modelled.
- Blake2b.LongHashOf: the parameter block of BLAKE2b is the one combination of the first word with the output size, kept abstract.
- Gcm.Encrypt: one model stands for the AES-128 and AES-256 variants, which differ in the block function; buffers that overlap without being the same are not modelled.
- Envelope.OpenJsonAt: the two copied fields are values instead of fixed buffers, and what a failed call leaves in the caller's buffer is not stated.
- Fallbacks.Deliver: the checks of the event before the loop are left out, and the caller's answer is a function of what it has been given.
- SkillTree.IdsAre: is about texts without a zero byte; in others a zero byte behind a backslash can also end the listing with an error, as SkillRows.RowAt and Fallbacks.Deliver, which cover every text, say.
- Wire.Read: the fields of the result are values instead of fixed buffers in one record.
- Speakable.Render: slots with a missing name or value, which the program refuses when it reaches them, are not modelled.
- `thalovant_build_location`, number formatting, boolean and integer coercion, topics, identities, endpoints, event classification, refusals and claims, sockets, timers and callbacks.
