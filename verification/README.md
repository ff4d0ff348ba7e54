# AES-256 engine: proofs

This project models the AEAD engine and the AES-CTR generator of a hardware-only
AES-256 library and proves what its fast, stateful loops compute. Polynomials over
GF(2) are natural numbers; bytes, blocks and buffers are sequences and arrays of
bytes; AES is an arbitrary function of key and block, so every statement holds for
the real cipher and for any other. `dafny verify dfyconfig.toml` checks everything.

| file | subject |
|---|---|
| `Gf2.dfy`, `Field.dfy` | polynomials over GF(2), the POLYVAL field of RFC 8452 and its product `dot` |
| `Lanes.dfy`, `Multiply.dfy` | the aarch64 and x86 multiply and reduce sequences, both equal to `dot` |
| `Polyval.dfy` | Horner accumulation, key powers, GHASH of NIST SP 800-38D and the bridge to POLYVAL |
| `Bytes.dfy`, `Ctr.dfy`, `Absorption.dfy` | blocks, counter mode and hashing as specifications |
| `Backend.dfy`, `Stitched.dfy`, `Hasher.dfy` | the key ladder, the pipelined cipher-and-hash loops, the streaming hashers |
| `Gcm.dfy`, `Siv.dfy` | AES-256-GCM and AES-256-GCM-SIV with envelopes, refusals and wiping |
| `Generator.dfy` | the buffered random generator |
| `Nonce.dfy`, `NonceRuns.dfy` | the generated-nonce sequence, under one base and across draws |
| `KeySchedule.dfy`, `Rounds.dfy` | both vector key expansions and both round sequences against FIPS 197 |

Each mutating object of the library is a class whose methods are proved against a
specification function (`CtrXor`, `Absorb`, `GcmSeal`, `SivSealed`, `Stream`,
`Step`); what the library promises is proved about those functions as lemmas.

One promise does not hold as written. The comment at `src/aes_gcm/nonce.rs:11-14`
says a repeat is never produced; two things can produce one.

- Under one drawn base: if the operating system has no entropy in the call in which
  the 64-bit counter wraps, `next` returns an error but leaves the old base with
  counter zero, and the following call emits the first nonce of that base again
  (`NonceSpec.RepeatAfterFailedWrap`). Under one base nothing else does
  (`NonceSpec.DistinctUnderEachBase`).
- Across draws: a newly drawn base may lie in or near a range already walked, the
  residual that lines 16-19 of the same comment name
  (`NonceRuns.RedrawnBaseMayRepeat`).

`NonceRuns.RunDistinctExactly` states the exact condition for a whole run: all its
nonces are distinct if and only if the first does not happen and the walked ranges
are disjoint.

The two targets share one class with a `Target` value: their bulk loops differ only
in the multiply sequence and in how AES rounds are issued, which are modelled
separately. GHASH and POLYVAL share one hasher class with a byte `Order`.

## Model

| member | source | states |
|---|---|---|
| `Field.ReducedUnique` | src/aes_gcm/ghash.rs:1227-1236 | For any wide product there is at most one polynomial of degree below 128 congruent to it times x^-128; this is what lets two different reduction sequences be compared at all. |
| `Field.DotUnique` | src/aes_gcm/ghash.rs:1177-1188 | Whatever is reduced and congruent to a * b * x^-128 is `dot(a, b)` of section 3 of RFC 8452. |
| `Field.DotCommutes` | src/aes_gcm/ghash.rs:1865-1869 | `dot` is commutative, so the two targets may pass key and data in opposite orders. |
| `Field.DotDistributes` | src/aes_gcm/ghash.rs:609-630 | `dot` is linear over XOR: the fact the multi-block updates rely on. |
| `Field.DotAssociates` | src/aes_gcm/ghash.rs:263-285 | `dot` is associative: the fact the addition chain for the key powers relies on. |
| `Multiply.PartialsAreTheProduct` | src/aes_gcm/ghash.rs:1204-1212 | For all 128-bit operands the aarch64 Karatsuba parts and the x86 `clmul_wide` parts are the same three registers, each fits 128 bits, and together they stand for the exact carryless product. |
| `Multiply.Karatsuba2Recombines` | src/aes_gcm/ghash.rs:1216-1225 | Recombination yields two 128-bit halves whose concatenation is the value the three parts stand for, also when the parts are sums over several blocks. |
| `Multiply.MontReduceIsReduced` | src/aes_gcm/ghash.rs:1229-1236 | The two-fold aarch64 reduction of any 256-bit value is the reduced polynomial congruent to it times x^-128 (each fold adds a multiple of p that clears 64 low bits). |
| `Multiply.ReductionsAgree` | src/aes_gcm/ghash.rs:2028-2066 | The x86 shift-and-XOR reduction of any summed partials equals the aarch64 recombination and reduction, although it keeps garbage in the high lanes. |
| `Multiply.ReduceIsReduced` | src/aes_gcm/ghash.rs:2028-2066 | On either target, reducing any sum of partial products is the field reduction of the value they stand for. |
| `Multiply.MultiplyIsDot` | src/aes_gcm/ghash.rs:1938-1953 | On either target, multiply-and-reduce is `dot` for all pairs of operands. |
| `Multiply.ValueOfSum` | src/aes_gcm/ghash.rs:642-657 | XORing partial products adds the values they stand for and stays within 128-bit registers. |
| `Field.ModulusBits` | src/aes_gcm/ghash.rs:1230-1231 | The modulus used by both reductions is x^128 + x^127 + x^126 + x^121 + 1, bit by bit. |
| `Polyval.HornerIsPowerSum` | src/aes_gcm/ghash.rs:632-636 | For every number of blocks the recurrence equals the polynomial y h^n + x_1 h^n + ... + x_n h. |
| `Polyval.HornerConcat` | src/aes_gcm/ghash.rs:171-203 | The hash of a concatenation is the hash of the second part continued from the hash of the first. |
| `Polyval.PowerAdd` | src/aes_gcm/ghash.rs:263-285 | Powers under `dot` add their exponents. |
| `Polyval.ScaledStep` | src/aes_gcm/ghash.rs:632-637 | One Horner step commutes past the powers still to come; iterated, it turns eight reductions into one. |
| `Polyval.MulxMeaning` | src/aes_gcm/ghash.rs:397-404 | `mulx` multiplies by x modulo p and its result is reduced. |
| `Polyval.GhashMulMeaning` | src/aes_gcm/ghash.rs:397-404 | The bit-serial block product of section 6.3 of NIST SP 800-38D, times x^127, is congruent to the carryless product (loop invariant over its 128 steps). |
| `Polyval.GhashMulIsDot` | src/aes_gcm/ghash.rs:45-57 | For all x and h, the SP 800-38D block product of x and h is `dot(x, mulx(h))`. |
| `Polyval.GhashIsHorner` | src/aes_gcm/ghash.rs:45-57 | GHASH of section 6.4 of NIST SP 800-38D under h equals POLYVAL accumulation under `mulx(h)`, for every number of blocks and starting accumulator. |
| `Bytes.ByteReverseIsReverse` | src/aes_gcm/ghash.rs:1151-1154 | Reversing within 64-bit halves and swapping the halves reverses all sixteen bytes. |
| `Bytes.LoadStore` | src/aes_gcm/ghash.rs:1322-1327 | Blocks and field elements correspond one to one in both byte orders. |
| `Bytes.BitOfLoad` | src/aes_gcm/ghash.rs:180-183 | Bit by bit, how blocks are read: POLYVAL takes byte k as bits 8 k to 8 k + 7, GHASH takes the bytes in the opposite order. |
| `Bytes.BitOfXorBytes` | src/aes_gcm/mod.rs:387-389 | XOR of buffers, bit by bit. |
| `Bytes.ZeroPadAppendsZeros` | src/aes_gcm/ghash.rs:211-216 | Padding keeps the bytes and appends fewer than sixteen zeros, none to whole blocks. |
| `Bytes.PaddedWordsSplit` | src/aes_gcm/ghash.rs:207-218 | Zero-padding touches only the last partial block: the blocks of a + b are the blocks of the aligned a followed by the padded blocks of b. |
| `KeyLadder.Mul` | src/aes_gcm/ghash.rs:1177-1188 | The one-block multiplication used for key powers returns `dot`. |
| `KeyLadder.KeyPowers` | src/aes_gcm/ghash.rs:263-285 | The addition chain produces exactly the powers one to eight of the key. |
| `KeyLadder.InitGhashKey` | src/aes_gcm/ghash.rs:45-74 | The ladder starts at `mulx` of the subkey read in GHASH order, holds its powers, and the subkey buffer is left zeroed. |
| `KeyLadder.AggregateStep` | src/aes_gcm/ghash.rs:642-657 | Adding the next block times the next lower power keeps the unreduced sum congruent to the accumulator times the powers still to come. |
| `KeyLadder.Aggregate` | src/aes_gcm/ghash.rs:1100-1145 | Folding one to eight blocks with a single reduction gives the accumulator that as many one-block Horner steps give. |
| `Stitched.Backend.constructor` | src/aes_gcm/ghash.rs:563-573 | A new backend starts from the zero accumulator with a full ladder. |
| `Stitched.Backend.UpdateBlock` | src/aes_gcm/ghash.rs:601-607 | The accumulator after one block is one Horner step. |
| `Stitched.Backend.UpdateBlocks4` | src/aes_gcm/ghash.rs:614-630 | The four-block update leaves the accumulator of four Horner steps. |
| `Stitched.Backend.UpdateBlocks8` | src/aes_gcm/ghash.rs:637-661 | The eight-block update leaves the accumulator of eight Horner steps. |
| `Stitched.CounterBlocks` | src/aes_gcm/ghash.rs:758-762 | The counter blocks of a batch are consecutive and the caller's counter ends past them. |
| `Stitched.SealLanes` | src/aes_gcm/ghash.rs:784-796 | One two-buffer batch writes counter-mode ciphertext at its place and nowhere else, and keeps the byte-reversed ciphertext as hash input. |
| `Stitched.SealLanesInPlace` | src/aes_gcm/ghash.rs:855-864 | The same over one buffer, where every plaintext block is read before it is overwritten. |
| `Stitched.OpenLanes` | src/aes_gcm/ghash.rs:997-1007 | One two-buffer decrypt batch: plaintext out, and the ciphertext that was read as hash input. |
| `Stitched.OpenLanesInPlace` | src/aes_gcm/ghash.rs:1066-1075 | The same over one buffer: the hash input is the original ciphertext although every block is overwritten. |
| `Stitched.LagFolds` | src/aes_gcm/ghash.rs:780-782 | Folding the held-back batch brings the accumulator up to the hash of everything encrypted so far: the accumulator lags exactly one batch. |
| `Stitched.Backend.SealBulk` | src/aes_gcm/ghash.rs:735-803 | For every number of batches, the pipelined loop leaves the ciphertext, counter and accumulator of serial counter mode over all blocks followed by block-by-block hashing of the ciphertext. |
| `Stitched.Backend.SealInPlaceBulk` | src/aes_gcm/ghash.rs:813-870 | The one-buffer seal loop leaves the same ciphertext, counter and accumulator as the two-buffer loop. |
| `Stitched.Backend.SealInPlaceTailBlocks` | src/aes_gcm/ghash.rs:877-937 | Whole tail blocks, four lanes and then one, also equal serial counter mode and serial hashing. |
| `Stitched.Backend.OpenBulk` | src/aes_gcm/ghash.rs:947-1014 | The pipelined decrypt loop: serial counter mode, and the hash of the ciphertext. |
| `Stitched.Backend.OpenInPlaceBulk` | src/aes_gcm/ghash.rs:1024-1081 | For every batch count the one-buffer decrypt loop ends with the plaintext, counter and ciphertext hash of the two-buffer loop. |
| `Hashing.BitLen` | src/aes_gcm/ghash.rs:387-389 | A bit length exists exactly for lengths below 2^61. |
| `Hashing.Hasher.AbsorbBlocks` | src/aes_gcm/ghash.rs:171-203 | For every block-aligned length, the 8/4/1 chunking equals the one-block-at-a-time fold (in GHASH and POLYVAL order). |
| `Hashing.Hasher.AbsorbPadded` | src/aes_gcm/ghash.rs:207-218 | For every length, the fold over the zero-padded input. |
| `Hashing.Hasher.Finalize` | src/aes_gcm/ghash.rs:224-235 | Fails exactly when a length does not fit, else absorbs the two bit lengths in the order's endianness and stores the accumulator in that order (POLYVAL: lines 345-353). |
| `Hashing.SectionsMakeDigest` | src/aes_gcm/ghash.rs:224-235 | AAD section, data section and length block in sequence give the digest of the whole message. |
| `Absorption.LengthBlockHolds` | src/aes_gcm/ghash.rs:226-227 | The length block holds the AAD bit length first and the data bit length second, big-endian for GHASH and little-endian for POLYVAL (lines 347-348). |
| `Absorption.MessageBytes` | src/aes_gcm/ghash.rs:224-235 | The hash input is padded AAD, padded data and length block, in this order, read block by block. |
| `Absorption.DigestsOfBytes` | src/aes_gcm/ghash.rs:224-235 | Both digests are the hash of exactly those bytes from a zero accumulator. |
| `Absorption.AbsorbConcat` | src/aes_gcm/ghash.rs:167-171 | Any block-aligned cut of the input gives the same accumulator. |
| `Absorption.DigestIsGhash` | src/aes_gcm/ghash.rs:45-57 | The digest under the shifted key is GHASH under the hash subkey as section 7.1 of NIST SP 800-38D assembles it. |
| `Ctr.IncrementCounter` | src/aes_gcm/mod.rs:1734-1739 | inc32: the last four bytes big-endian, plus one modulo 2^32; the other twelve bytes stay. |
| `Ctr.IncrementSivCounter` | src/aes_gcm/siv.rs:154-159 | The first four bytes little-endian, plus one modulo 2^32; the other twelve bytes stay. |
| `Ctr.AdvanceBytes` | src/aes_gcm/mod.rs:1734-1739 | What k increments do to the bytes: which four count, in which order, by how much, and that the other twelve stay (GCM-SIV: siv.rs lines 154-159). |
| `Ctr.AdvanceAdd` | src/aes_gcm/mod.rs:1734-1739 | Increments compose through any number of wraps. |
| `Ctr.AdvanceRepeats` | src/aes_gcm/mod.rs:1734-1739 | Two positions share a counter block if and only if they are a multiple of 2^32 apart, in both layouts. |
| `Ctr.CtrTwice` | src/aes_gcm/siv.rs:161-165 | Counter mode from one start block is its own inverse. |
| `Ctr.CtrConcat` | src/aes_gcm/mod.rs:382-392 | Counter mode may be split at any block boundary with the counter carrying on. |
| `Ctr.XorBlock` | src/aes_gcm/mod.rs:384-391 | XORing the next, possibly partial, keystream block extends counter mode over the original contents by exactly that block. |
| `Gcm.KeyState.constructor` | src/aes_gcm/mod.rs:133-160 | Key setup encrypts the zero block and leaves the ladder of `mulx` of that subkey. |
| `Gcm.KeyState.ApplyCtrSerial` | src/aes_gcm/mod.rs:382-392 | Serial counter mode over a region, rest of the buffer untouched, counter advanced once per started block. |
| `Ctr.ProgressNext` | src/aes_gcm/mod.rs:382-392 | One step of a serial counter-mode loop, in either layout, keeps buffer and counter in step up to the last partial block. |
| `Gcm.KeyState.StartCounter` | src/aes_gcm/mod.rs:304-305 | The first data counter is inc32(J0). |
| `Gcm.KeyState.FinishTag` | src/aes_gcm/mod.rs:327-333 | Length block, reversal and mask give the tag of section 7.1 of NIST SP 800-38D, or None when a length does not fit. |
| `Gcm.KeyState.Seal` | src/aes_gcm/mod.rs:293-334 | For every length: reference ciphertext (block i XORed with E(inc32^(i+1)(J0))) in place, nothing else written, and the reference tag. |
| `Gcm.KeyState.SealInPlace` | src/aes_gcm/mod.rs:339-379 | The bulk, tail-block and partial-block path gives the same ciphertext and tag as the two-buffer path. |
| `Gcm.KeyState.Open` | src/aes_gcm/mod.rs:551-592 | Reference plaintext, and the tag the ciphertext should carry. |
| `Gcm.KeyState.OpenInPlace` | src/aes_gcm/mod.rs:597-626 | The same plaintext and tag with the ciphertext overwritten in place. |
| `Gcm.KeyState.Encrypt` | src/aes_gcm/mod.rs:162-170 | Ciphertext and tag, or the first failing check in the order the code makes them. |
| `Gcm.KeyState.EncryptTo` | src/aes_gcm/mod.rs:262-285 | Writes ciphertext and tag to the front of the buffer only; every refusal leaves the buffer unchanged. |
| `Gcm.KeyState.EncryptEnvelope` | src/aes_gcm/mod.rs:176-196 | Ciphertext, tag and nonce by the in-place path. |
| `Gcm.KeyState.EncryptEnvelopeTo` | src/aes_gcm/mod.rs:198-219 | The same bytes by the two-buffer path into a caller's buffer; refusals leave it unchanged. |
| `Gcm.KeyState.Decrypt` | src/aes_gcm/mod.rs:394-419 | Returns the plaintext exactly when every check and the tag comparison pass. |
| `Gcm.KeyState.DecryptTo` | src/aes_gcm/mod.rs:421-454 | Plaintext in the buffer on success; zeros over the written range on a tag mismatch; an untouched buffer on every earlier refusal. |
| `Gcm.KeyState.DecryptEnvelope` | src/aes_gcm/mod.rs:244-251 | The nonce is the last twelve bytes; short input is refused first. |
| `Gcm.KeyState.DecryptEnvelopeTo` | src/aes_gcm/mod.rs:253-260 | The same into a caller's buffer, with wipe on mismatch and no write on refusal. |
| `GcmSpec.OpenInvertsSeal` | src/aes_gcm/mod.rs:551-626 | Opening returns pt if and only if the input is the sealed form of pt under the same key, nonce and AAD. |
| `GcmSpec.EnvelopeRoundTrip` | src/aes_gcm/mod.rs:244-251 | Every accepted plaintext comes back from its own envelope. |
| `GcmSpec.DataLimitIsExact` | src/aes_gcm/mod.rs:1711-1719 | The data counters count 2, 3, ... without wrapping if and only if the message is within the accepted limit; one more block would wrap. |
| `GcmSpec.CountersDistinct` | src/aes_gcm/mod.rs:1711-1719 | The J0 block that masks the tag and all counter blocks of a message are pairwise distinct if and only if the message has at most 16 bytes more than accepted: the accepted limit is one block tighter than distinctness needs. |
| `GcmSpec.CounterBlockIs` | src/aes_gcm/mod.rs:1725-1739 | The block at position i is the nonce followed by the big-endian number i + 1. |
| `GcmSpec.TagMask` | src/aes_gcm/mod.rs:327-333 | The tag is GHASH of AAD and ciphertext masked with the encryption of the block at position 0, the nonce followed by the number one. |
| `GcmSpec.EmptyTag` | src/aes_gcm/mod.rs:327-333 | With neither AAD nor data the tag is that mask alone. |
| `GcmSpec.DataByteMeets` | src/aes_gcm/mod.rs:382-392 | Data byte j of an accepted message meets byte j mod 16 of the encryption of the block at position 1 + j / 16, which is never position 0. |
| `GcmSpec.SealedParts` | src/aes_gcm/mod.rs:280-284 | Ciphertext first, tag last. |
| `GcmSpec.AcceptedMeansSafe` | src/aes_gcm/mod.rs:1711-1719 | Lengths are accepted if and only if the data counters do not wrap and both bit lengths fit 64 bits. |
| `GcmSpec.OpenFailures` | src/aes_gcm/mod.rs:394-419 | Exactly when opening reports a nonce length, a length limit, or a decryption failure. |
| `GcmSpec.SealRefuses` | src/aes_gcm/mod.rs:269-270 | Exactly when sealing reports a nonce length or a length limit. |
| `GcmSpec.EnvelopeFailures` | src/aes_gcm/mod.rs:244-251 | Exactly when an envelope is too short, and where its nonce is otherwise. |
| `GcmSpec.InputsIdentifyThemselves` | src/aes_gcm/mod.rs:1725-1739 | Over all accepted messages under one key, two tag masks or keystream inputs are the same block if and only if nonce and position are the same. |
| `GcmSpec.SubkeyInputIsApart` | src/aes_gcm/mod.rs:145-147 | No such input is the zero block that is encrypted for the hash subkey. |
| `Siv.DeriveKeys` | src/aes_gcm/siv.rs:92-122 | The running counter yields half-blocks 0-1 for authentication and 2-5 for encryption, as section 4 of RFC 8452 lays them out. |
| `Siv.PolyvalDigest` | src/aes_gcm/siv.rs:137-149 | POLYVAL of AAD, message and little-endian lengths under the unshifted key. |
| `Siv.ComputeTag` | src/aes_gcm/siv.rs:195-206 | Encrypts the digest XORed with the nonce, top bit of the last byte cleared. |
| `Siv.CtrApply` | src/aes_gcm/siv.rs:165-190 | For every length, eight-block batches plus tail equal block-by-block counter mode with the wrapping little-endian counter, and the counter ends one past the last started block. |
| `Siv.SivSeal` | src/aes_gcm/siv.rs:211-236 | The tag is of the plaintext although the buffer ends as ciphertext. |
| `Siv.SivOpen` | src/aes_gcm/siv.rs:241-268 | Decrypts first, hashes the result, and answers whether the recomputed tag is the given one. |
| `Siv.SivKeyState.Encrypt` | src/aes_gcm/siv.rs:289-297 | Sealed form, or the first failing check. |
| `Siv.SivKeyState.EncryptTo` | src/aes_gcm/siv.rs:299-325 | Sealed form at the front of the buffer; every refusal leaves it unchanged. |
| `Siv.SivKeyState.EncryptEnvelope` | src/aes_gcm/siv.rs:375-395 | Sealed form followed by the nonce. |
| `Siv.SivKeyState.EncryptEnvelopeTo` | src/aes_gcm/siv.rs:397-418 | The same bytes into a caller's buffer. |
| `Siv.SivKeyState.Decrypt` | src/aes_gcm/siv.rs:327-345 | Returns the plaintext exactly when every check and the recomputed tag agree. |
| `Siv.SivKeyState.DecryptTo` | src/aes_gcm/siv.rs:347-369 | Plaintext on success, zeros on mismatch, no write on refusal. |
| `Siv.SivKeyState.DecryptEnvelope` | src/aes_gcm/siv.rs:443-446 | Splits off the trailing nonce; short input is refused first. |
| `Siv.SivKeyState.DecryptEnvelopeTo` | src/aes_gcm/siv.rs:448-451 | The same into a caller's buffer, with wipe on mismatch. |
| `SivSpec.AuthKeyByte` | src/aes_gcm/siv.rs:92-113 | Byte j of the authentication key is byte j mod 8 of the encryption of the byte j / 8, three zeros and the nonce. |
| `SivSpec.EncKeyByte` | src/aes_gcm/siv.rs:115-121 | Byte j of the encryption key is byte j mod 8 of the encryption of the byte 2 + j / 8, three zeros and the nonce. |
| `SivSpec.TopBits` | src/aes_gcm/siv.rs:203-203 | Clearing and setting the top bit leave the other seven bits alone. |
| `SivSpec.TagInputBytes` | src/aes_gcm/siv.rs:200-203 | The nonce is XORed into bytes 0 to 11 of the digest, bytes 12 to 14 stay, and the last loses its top bit only. |
| `SivSpec.FirstCounterBytes` | src/aes_gcm/siv.rs:231-232 | The first counter block is the tag with only its top bit set. |
| `SivSpec.TagOfBytes` | src/aes_gcm/siv.rs:195-206 | The tag is the encryption, under the derived key, of the tag input of POLYVAL over padded AAD, padded plaintext and lengths. |
| `SivSpec.SivByteMeets` | src/aes_gcm/siv.rs:165-190 | Data byte j meets byte j mod 16 of the encryption of the tag with its top bit set and j / 16 added modulo 2^32 to its first four bytes. |
| `SivSpec.SivSealedParts` | src/aes_gcm/siv.rs:310-321 | Ciphertext first, tag last. |
| `SivSpec.SivAcceptedMeansSafe` | src/aes_gcm/siv.rs:77-82 | Lengths are accepted if and only if the counter blocks of the message are pairwise distinct and the AAD has at most 2^32 blocks. |
| `SivSpec.SivOpenFailures` | src/aes_gcm/siv.rs:327-345 | Which failure opening reports, in the order of the checks. |
| `SivSpec.SivSealRefuses` | src/aes_gcm/siv.rs:306-307 | Exactly when sealing reports a nonce length or a length limit. |
| `SivSpec.SivOpenInvertsSeal` | src/aes_gcm/siv.rs:211-268 | Opening returns pt if and only if the input is the sealed form of pt, although one side hashes before counter mode and the other after it. |
| `SivSpec.SivEnvelopeRoundTrip` | src/aes_gcm/siv.rs:443-446 | Every accepted plaintext comes back from its own envelope. |
| `SivSpec.TagInputIsNoCounter` | src/aes_gcm/siv.rs:195-236 | For all nonces, digests and tags, the block encrypted for a tag is never a counter block: the top bit of the last byte separates them through every wrap. |
| `SivSpec.SivLimitIsExact` | src/aes_gcm/siv.rs:77-82 | All counter blocks of a message are pairwise distinct, even across a wrap, if and only if it has at most 2^36 bytes. |
| `Generator.AesCtrKeyGenerator.FromSeed` | src/random/mod.rs:222-242 | A seeded generator: key and counter split from the seed, empty buffer, default interval. |
| `Generator.AesCtrKeyGenerator.FillBlock` | src/random/aes_ctr.rs:125-150 | One keystream block of the old counter; the 128-bit counter wraps. |
| `Generator.AesCtrKeyGenerator.DrainBuffer` | src/random/mod.rs:262-277 | Hands out the buffered bytes in order, wipes them, and takes as many as fit. |
| `Generator.AesCtrKeyGenerator.FillWithoutLifecycleChecks` | src/random/mod.rs:362-380 | Buffered bytes, whole blocks and a kept remainder are the next len bytes of the byte-at-a-time source. |
| `Generator.AesCtrKeyGenerator.Reseed` | src/random/mod.rs:285-298 | Follows the reference reseed; buffer, position and count are reset on success; a failed draw changes nothing but the number of attempts. |
| `Generator.AesCtrKeyGenerator.ReseedBlend` | src/random/mod.rs:321-338 | The new seed is three keystream blocks of the old state XORed with the CPU draw. |
| `Generator.AesCtrKeyGenerator.FillChecked` | src/random/mod.rs:340-360 | Refines the byte-at-a-time reference machine, including partial output on a failed reseed and refusal after a fork; the loop terminates for every interval, zero included; wiped prefix and unconsumed tail are kept. |
| `Generator.DefaultInterval` | src/random/mod.rs:38-38 | The default interval is 2^30 bytes. |
| `GeneratorSpec.LimitIsMaximum` | src/random/mod.rs:345-345 | Bytes per seed are the larger of the interval and one. |
| `GeneratorSpec.SeedParts` | src/random/mod.rs:411-420 | A seed is 32 key bytes and then the first block to be encrypted under that key. |
| `GeneratorSpec.KeyBlockInput` | src/random/aes_ctr.rs:125-150 | A keystream block is the encryption of the sixteen little-endian counter bytes. |
| `GeneratorSpec.RefusedDraw` | src/random/entropy.rs:62-76 | A CPU draw is refused if and only if two of its six 64-bit words agree byte for byte. |
| `GeneratorSpec.SourceWins` | src/random/mod.rs:285-292 | An accepted CPU draw is blended whatever the operating system would answer; else that answer seeds as it is; with neither there is no seed. |
| `GeneratorSpec.BlendIsNextKeystream` | src/random/mod.rs:321-338 | A blend XORed with its entropy is the 48 keystream bytes that follow everything emitted or buffered under the old seed. |
| `GeneratorSpec.NextEpochStarts` | src/random/mod.rs:285-298 | A reseed succeeds if and only if a source answers; the next epoch starts with the encryption of the last sixteen seed bytes under the first 32; a failed one changes nothing but the number of attempts. |
| `GeneratorSpec.StreamSplit` | src/random/mod.rs:340-360 | A request of a + b bytes is a request of a followed by one of b. |
| `GeneratorSpec.OnlyTheTotalMatters` | src/random/mod.rs:340-360 | For a caller that goes on after errors, the concatenated output of any sequence of requests is that of one request for the total if and only if, after the first error, none of the attempts at entropy made by the later requests succeeds; key, counter, buffer and count are then left the same, and whether an error was seen never depends on the split. |
| `GeneratorSpec.NothingUnlessAnswered` | src/random/mod.rs:346-348 | At the end of an epoch, requests yield no byte if and only if none of their attempts at entropy succeeds. |
| `GeneratorSpec.AttemptsIgnoreSplit` | src/random/mod.rs:340-360 | With the number of attempts at entropy counted as part of the result, which the generator itself does not store, the split changes nothing if and only if no bytes are asked for after an error. |
| `GeneratorSpec.SuccessIgnoresSplit` | src/random/mod.rs:340-360 | A sequence of requests succeeds throughout if and only if one request for the total succeeds, and then bytes and state are the same. |
| `GeneratorSpec.FailedAtLimit` | src/random/mod.rs:346-348 | A failed request stands at the end of an epoch and has handed out fewer bytes than asked for. |
| `GeneratorSpec.RetryAfterFailure` | src/random/mod.rs:285-298 | The call after an error makes a new attempt from the same key and counter: it continues with the new seed, or fails again without a byte. |
| `GeneratorSpec.RetrySplitMatters` | src/random/mod.rs:340-360 | A concrete entropy source that fails once: two requests of one byte yield a byte, one request of two yields none. |
| `GeneratorSpec.RetrySplitIsReachable` | src/random/mod.rs:222-242 | From a fresh seed, one whole epoch and then two bytes: separately they yield one byte more than at once. |
| `GeneratorSpec.StreamConsistent` | src/random/mod.rs:262-298 | Every state of every run keeps: counter = first counter + blocks drawn, and pending bytes are the tail of the last block. |
| `GeneratorSpec.EmitIsKeystream` | src/random/mod.rs:362-380 | Byte j of an epoch is byte j mod 16 of keystream block j / 16. |
| `GeneratorSpec.StreamIsKeystream` | src/random/mod.rs:340-360 | From any point of an epoch up to its end the output continues that epoch's keystream. |
| `GeneratorSpec.EpochThenReseed` | src/random/mod.rs:342-348 | A fresh seed yields exactly max(interval, 1) bytes of its keystream, and the rest comes from the reseeded state. |
| `GeneratorSpec.RunIsEpochs` | src/random/mod.rs:340-360 | Closed form of a whole run from a fresh seed: byte t is byte t mod L of the keystream of epoch t / L, with L = max(interval, 1), as far as the run gets. |
| `GeneratorSpec.SuccessIsComplete` | src/random/mod.rs:340-360 | A run succeeds if and only if it hands out every byte asked for. |
| `GeneratorSpec.CountersFresh` | src/random/mod.rs:321-338 | Within an epoch no counter is used twice, and the three a blend consumes differ from every one behind emitted or buffered bytes. |
| `NonceSpec.NonceOfBytes` | src/aes_gcm/nonce.rs:86-92 | The twelve bytes of a nonce are its number, least significant byte first. |
| `NonceSpec.QuietNonce` | src/aes_gcm/nonce.rs:56-70 | The n-th nonce of a process that has not forked is base plus n modulo 2^96, counted from zero. |
| `NonceSpec.ForkedNonce` | src/aes_gcm/nonce.rs:57-62 | The first nonce after an observed fork is the newly drawn base, under the new fork generation. |
| `NonceSpec.NoncesEqual` | src/aes_gcm/nonce.rs:86-92 | Nonces of any two bases are equal if and only if base plus counter agree modulo 2^96. |
| `NonceSpec.NonceInjective` | src/aes_gcm/nonce.rs:86-92 | Under one base two counters give the same nonce if and only if they are equal. |
| `NonceSpec.NoncesDistinct` | src/aes_gcm/nonce.rs:56-78 | From any state, as long as no call goes on with a base whose wrap draw failed, nonces of one drawn base are pairwise distinct. |
| `NonceSpec.DistinctUnderEachBase` | src/aes_gcm/nonce.rs:56-78 | Over every run from the constructor, nonces of one drawn base are pairwise distinct if and only if no call goes on with a base whose wrap draw failed. |
| `NonceSpec.NoStaleBase` | src/aes_gcm/nonce.rs:56-78 | Every nonce is emitted under a base drawn in the fork generation of its own call, with no assumption on entropy. |
| `NonceSpec.SpentIsTheOnlyRepeatUnderABase` | src/aes_gcm/nonce.rs:61-67 | A call leaves the next counter new under its base if and only if it does not leave the base spent, that is wrapped with no new base drawn. |
| `NonceSpec.RunsStayNew` | src/aes_gcm/nonce.rs:41-47 | The same over whole runs from the constructor's state, under the base then current. |
| `NonceSpec.FailedWrapRepeats` | src/aes_gcm/nonce.rs:61-67 | A call that goes on with a spent base emits a nonce that was already emitted. |
| `NonceSpec.QuietCallsCount` | src/aes_gcm/nonce.rs:61-62 | Calls without a fork walk the counter: every counter below 2^64 is reached from the constructor. |
| `NonceSpec.RepeatAfterFailedWrap` | src/aes_gcm/nonce.rs:61-67 | A whole run from the constructor: 2^64 - 1 calls, one that fails at the wrap, and one that emits the first nonce of the run again. |
| `NonceRuns.RunIsItsWalks` | src/aes_gcm/nonce.rs:56-78 | What a run hands out is the concatenation of its walks, one for each drawn base and each wrap. |
| `NonceRuns.OverlapExactly` | src/aes_gcm/nonce.rs:16-19 | Two walks reach a common number if and only if one of the two starts lies on the other walk, modulo 2^96. |
| `NonceRuns.RunDistinctIffWalksDisjoint` | src/aes_gcm/nonce.rs:56-78 | From any state and with no assumption on entropy, all nonces of a run are pairwise distinct if and only if no two of its walks overlap. |
| `NonceRuns.RunDistinctExactly` | src/aes_gcm/nonce.rs:11-19 | All nonces of a run from the constructor, across all draws, are pairwise distinct if and only if no call goes on with a base whose wrap draw failed and the ranges walked from the drawn bases are disjoint. |
| `NonceRuns.RedrawnBaseMayRepeat` | src/aes_gcm/nonce.rs:61-67 | A run in which every draw succeeds: after a whole base and one nonce of the next, a nonce is repeated if and only if the new base lies in the old range. |
| `NonceRuns.InputsDistinctIffNonces` | src/aes_gcm/mod.rs:774-777 | Over messages of accepted length under one key, no block cipher input (tag mask or keystream) occurs twice if and only if no nonce does. |
| `NonceRuns.RunInputsDistinctExactly` | src/aes_gcm/mod.rs:774-777 | When a run seals one accepted message with each generated nonce, no block cipher input occurs twice if and only if no spent base is reused and the ranges walked from the drawn bases are disjoint. |
| `NonceGenerator.NonceGen.Resalt` | src/aes_gcm/nonce.rs:72-78 | A failed draw changes nothing; a successful one resets base, counter and fork guard together. |
| `NonceGenerator.NonceGen.Next` | src/aes_gcm/nonce.rs:56-70 | The method takes exactly the step of the step system, in every branch. |
| `KeySchedule.SoftwareKeySchedule` | src/aes_gcm/aes.rs:138-171 | The portable loops compute the round keys of the recurrence of section 5.2 of FIPS 197, for any S-box. |
| `KeySchedule.RconIsPower` | src/aes_gcm/aes.rs:139-139 | Round constant i is x^i (also lines 183 and 611-617). |
| `KeySchedule.WBytes` | src/aes_gcm/aes.rs:152-163 | The recurrence byte by byte: which byte of the word before is substituted, rotated or meets a round constant, and which word it is added to. |
| `KeySchedule.WKeyBytes` | src/aes_gcm/aes.rs:149-151 | The first eight words are the key. |
| `KeySchedule.RoundKeyBytes` | src/aes_gcm/aes.rs:164-169 | Byte j of round key r is byte j mod 4 of word 4 r + j / 4. |
| `KeySchedule.ShiftRowsFrom` | src/aes_gcm/aes.rs:357-361 | Row r of column c comes from row r of column c + r. |
| `KeySchedule.CascadeIsChain` | src/aes_gcm/aes.rs:346-355 | Three shift-XOR steps plus a broadcast word equal the four-word chain of the recurrence. |
| `KeySchedule.AeseIsSubWord` | src/aes_gcm/aes.rs:357-366 | AESE on four equal words with a zero key is SubWord. |
| `KeySchedule.RotateIsRotWord` | src/aes_gcm/aes.rs:327-327 | Rotating the little-endian word right by eight is RotWord. |
| `KeySchedule.XorConstant` | src/aes_gcm/aes.rs:327-327 | XORing the round constant into the word is XORing it into its first byte. |
| `KeySchedule.NextEvenIsRoundKey` | src/aes_gcm/aes.rs:322-332 | From two round keys of the recurrence, the next even key is the next round key of the recurrence. |
| `KeySchedule.NextOddIsRoundKey` | src/aes_gcm/aes.rs:334-344 | The same for odd keys. |
| `KeySchedule.ExpandAarch64` | src/aes_gcm/aes.rs:297-320 | For every key and S-box, all fifteen register-resident round keys equal the recurrence. |
| `KeySchedule.EvenKeyX86` | src/aes_gcm/aes.rs:579-587 | AESKEYGENASSIST, lane 3 and the byte-shift cascade give the next even round key. |
| `KeySchedule.OddKeyX86` | src/aes_gcm/aes.rs:589-599 | AESKEYGENASSIST with a zero constant, lane 2 and the cascade give the next odd round key. |
| `KeySchedule.ExpandX86` | src/aes_gcm/aes.rs:565-618 | All fifteen x86 round keys equal the same recurrence, hence the aarch64 ones. |
| `AesRounds.LaneIsCipherState` | src/aes_gcm/aes.rs:227-249 | After r passes an x86 lane holds the cipher state of section 5.1 of FIPS 197 and an aarch64 lane holds it up to the next key addition. |
| `AesRounds.LaneIsEncipher` | src/aes_gcm/aes.rs:436-457 | Both instruction sequences end in the cipher's output, for any S-box and column mixing. |
| `AesRounds.Aes256.constructor` | src/aes_gcm/aes.rs:565-618 | The schedule kept is the one of section 5.2 for the key, on either target. |
| `AesRounds.Aes256.EncryptLanes` | src/aes_gcm/aes.rs:255-273 | Interleaved chains, all lanes through each round, encrypt every block as if alone (one block: lines 228-249). |
| `AesRounds.CipherUnrolled` | src/aes_gcm/aes.rs:228-249 | AES-256 written out: key addition, thirteen full rounds and a last one without column mixing, each with its own round key of the recurrence. |
| `AesRounds.BatchKeystream` | src/aes_gcm/ghash.rs:764-777 | Interleaved rounds give the keystream lanes of a batch that the bulk loops take from the cipher block by block. |

## Left out

- The AES S-box and column mixing as concrete functions: the proofs hold for any, so fixing them would add nothing.
- In the bulk loops each lane is one application of an arbitrary block cipher; that the interleaved rounds inlined there meet the same contract is `AesRounds.BatchKeystream`. The single-block routine's unrolled rounds are the one-lane case.
- Register lanes of a batch are sequences instead of fixed stack arrays; the data buffers, counters, the generator and the hash state are updated in place.
- Constant-time behaviour, barriers and disassembly checks: not properties of values.
- Hardware feature detection and the failures it causes: the model starts where the features are present, so the branches for a missing backend are absent.
- CPU and operating-system entropy: an oracle that answers each attempt or fails; retries inside it are not modelled. That a CPU draw with two equal 64-bit words is refused is.
- Fork detection: a generation number supplied by the environment; the process-id fallback is not modelled.
- Wiping of keys, key powers and temporaries on drop or after use, except the hash subkey, the generator's buffer and rejected plaintext in a caller's buffer.
- Raw-pointer placement, alignment and thread-safety markers: memory-model concerns.
- The public wrapper types, error formatting, and the detached and nonce-appended variants: they delegate to the operations modelled here.
- `usize` is taken to be 64 bits wide where a length sum can overflow.
- NonceSpec.NoncesDistinct: speaks of one drawn base and assumes that no spent base is reused; NonceSpec.DistinctUnderEachBase and NonceRuns.RunDistinctExactly give the exact conditions.
- NonceSpec.RunsStayNew: speaks of the base then current; newness across draws is NonceRuns.RunDistinctExactly.
- A run of the nonce generator is what one process sees; nonces of a parent and its child are two runs, whose ranges overlap under the condition of NonceRuns.OverlapExactly.
