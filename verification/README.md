# Verified models of the avtalk cores

avtalk vendors libsodium and adds a few components that keep real state of their own. This
project models the algorithmic cores of both in Dafny and proves what they are for. Block
ciphers, keystreams, authenticators, curve arithmetic and hash functions are parameters;
everything built around them follows the C and C++ code branch by branch, with 32- and 64-bit
arithmetic written out where it wraps. Functions give the specification; methods over arrays
and objects follow the loops and in-place updates of the code and are proved against it.
Where model and specification share a function, a further lemma says in other terms what it
computes: the formula of the standard, numbers, or test vectors.

The modules, by group:

- **Argon2 memory filler.** `Argon2Index` (which block is referenced), `Argon2Segment`
  (the RFC 9106 recurrence and every interleaving of the lanes), `Argon2Fill` (the reference
  filler on the flat region, every load checked against the record of writes), `Argon2Ctx`
  (parameter check, sizing, allocation, all passes, finalisation), `BlaMka`, `Argon2Block`, `Argon2Simd` and
  `Argon2Vector` (the scalar round and the SSSE3 and AVX2 forms that refine it).
- **Authenticated encryption.** `Gf128`, `GhashCode`, `Ghash`, `AesGcm`, `AesGcmMessage`
  (AES-256-GCM from the carry-less product up to the detached calls), `SecretStream` (the
  ratchet over whole runs), `Duplex`, `Aegis128l`, `Aegis256` (tail resynchronisation),
  `SecretBox` (two layouts, one keystream).
- **Codecs.** `Base64Chars`, `Base64`, `Base64Decode`, `Base64Laws`, `Decimal`,
  `Argon2Encoding`, `Argon2Strings`, `Scrypt`.
- **Byte-limb arithmetic.** `Limbs`, `Ed25519Scalar`, `Padding`, `Uniform`.
- **avtalk.** `MfStream` (one worker, many submitters, as interleaved steps), `MfMessages`
  (the sealed and signed envelope over a 224-byte header), `MfList` (intrusive circular
  list), `MfSlot` (send queue and reference counts of a connection, as interleaved steps),
  `MfBroker` (the methods that perform these steps on the real list and counter).

`Machine` and `Bytes` hold fixed-width arithmetic, byte strings and bit operations.

## Where a promise does not hold as stated

Each of these is stated exactly, for which inputs the promise holds and for which not, and
with an input for which it does not.

- Base64 (`libsodium/sodium/codecs.c:103-110`): the comparison macros are documented for
  0 to 255, but the decoder passes them a `char`. Where `char` is signed every negative
  character decodes as digit 63, so accepted text is canonical exactly when it has no negative
  character (`Base64Laws.Canonical`, `Base64Laws.NegativeAccepted`; likewise
  `Argon2Encoding.Canonical`).
- Base64 with `=` in the ignore set: padding is swallowed as an ignored character and then
  missed, so padded text that needs padding is rejected (`Base64Laws.RoundTrip`,
  `Base64Laws.PaddingIgnored`).
- scrypt settings: `strchr` finds the terminator of the letter table, so the parser alone takes
  a NUL byte for a digit, and what it accepts is canonical exactly when it has none
  (`Scrypt.SettingParsed`, `Scrypt.TerminatorRead`). No call passes one on: the library parses
  its own settings, or stored strings whose first 101 bytes have been checked to hold no NUL
  (`libsodium/crypto_pwhash/scryptsalsa208sha256/pwhash_scryptsalsa208sha256.c:249,282`). For
  stored strings the canonical form holds without condition (`Scrypt.StoredPrefix`).
- scrypt `pickparams`: the smallest N is 2, so the memory limit is kept exactly from 2048 bytes
  on (`Scrypt.PickedWithinLimits`, `Scrypt.OneByteShort`).
- `sodium_unpad` looks at the last block alone: re-padding restores the buffer exactly when its
  length is a whole number of blocks (`Padding.PadUnpad`, `Padding.NotWholeBlocks`).
- `sodium_pad` compares positions by the top byte of a 64-bit difference, which tells them apart
  only while they are near: it pads exactly when the barrier lies within 2^56 bytes of the end
  and the block within 2^63, one byte more for a barrier in the last place (`Padding.PadsExactly`, `Padding.BarrierTooFar`).
- Ed25519 scalar addition drops the carry out of 32 bytes: it is addition modulo L exactly when
  the sum fits, which it does for reduced scalars (`Ed25519Scalar.SumIsSum`,
  `Ed25519Scalar.ReducedFit`, `Ed25519Scalar.CarryLost`).
- secretstream pads the second authenticated part by another length than section 2.8 of RFC
  8439: the layouts agree exactly when the message length is a multiple of 8
  (`SecretStream.AlignedExactly`, `SecretStream.OneByteUnaligned`). The authenticated bytes
  determine their parts all the same (`SecretStream.MacDataInjective`).
- `argon2_encode_string` is documented to report a buffer that is too small. With valid
  parameters it does so exactly when the buffer ends before the salt or right before the separator behind it; a buffer that
  ends inside the salt or the output makes the Base64 encoder abort (`Argon2Strings.TooSmall`,
  `Argon2Strings.EndsInSalt`).
- `MFMessage_DataEncrypt` fills slack after the payload with random bytes, but places them so
  that they end where the payload ends: slack stays as it was, and the end of the sealed payload
  is overwritten. The payload survives every draw exactly when the message has no slack
  (`MfMessages.SlackSpoils`, `MfMessages.OneByteLost`); messages made by `MFMessage_Alloc` have
  none.
- AES-GCM decryption tests for a null message buffer after the loops have stored through it
  (`libsodium/crypto_aead/aes256gcm/aesni/aead_aes256gcm_aesni.c:841-857`): a null buffer faults
  exactly when the ciphertext is not empty and not too long (`AesGcmMessage.DecryptDetached`);
  the AEGIS modes verify without a buffer at every length.

## Model

| member | source | states |
|---|---|---|
| `Argon2Index.IndexAlphaIsRfc` | libsodium/crypto_pwhash/argon2/argon2-core.h:140-209 | for every parameter set and every 32-bit word, the wrapping arithmetic selects the element of the reference set W that section 3.4.2 of RFC 9106 prescribes |
| `Argon2Index.WindowSize` | libsodium/crypto_pwhash/argon2/argon2-core.h:158-187 | `reference_area_size` never wraps to nothing: it is the size of W, which is not empty |
| `Argon2Index.WindowSafe` | libsodium/crypto_pwhash/argon2/argon2-core.h:145-153 | W holds no block of the running slice except own, earlier ones; never the previous block of the own lane; in the first pass only earlier columns |
| `Argon2Index.WindowIsRfc` | libsodium/crypto_pwhash/argon2/argon2-core.h:151-187 | the set W in numbers: how many columns it has, and that its k-th is the k-th after the running slice, cyclically |
| `Argon2Index.SelectedIsRfc` | libsodium/crypto_pwhash/argon2/argon2-core.h:189-194 | the position in W without a division: size - 1 - y for the largest x, y with x 2^32 <= J1^2 and y 2^32 <= size x |
| `Argon2Index.OffInjective` | libsodium/crypto_pwhash/argon2/argon2-fill-block-ref.c:177-179 | different lane and column pairs have different offsets in the region |
| `Argon2Index.LaneBaseIsProduct` | libsodium/crypto_pwhash/argon2/argon2-fill-block-ref.c:178-178 | the offset of a lane, counted lane by lane, is the product the code forms |
| `Argon2Index.OffIsProduct` | libsodium/crypto_pwhash/argon2/argon2-fill-block-ref.c:177-179 | the offset of a block is lane times lane length plus slice times segment length plus index |
| `Argon2Segment.ReadsAllowed` | libsodium/crypto_pwhash/argon2/argon2-fill-block-ref.c:189-233 | whatever the pseudo-random value: the previous block is another column of the lane, the reference is neither the current nor (in its own lane) the previous block, and inside the running slice it is an own, earlier block |
| `Argon2Segment.NewBlockIsRfc` | libsodium/crypto_pwhash/argon2/argon2-fill-block-ref.c:189-232 | section 3.4.2 of RFC 9106 in numbers: the high word J2 picks the lane, but in the first slice, the low word J1 the element of W, and the new block is the compression of that block and the previous one |
| `Argon2Segment.NewBlockIsFinal` | libsodium/crypto_pwhash/argon2/argon2-fill-block-ref.c:196-232 | a lane builds the block of the RFC recurrence however far the other lanes of the slice have got |
| `Argon2Segment.ProgressedStep` | libsodium/crypto_pwhash/argon2/argon2-fill-block-ref.c:189-233 | building one more block advances that lane by one and leaves every other block as the recurrence has it |
| `Argon2Segment.InterleavingIrrelevant` | libsodium/crypto_pwhash/argon2/argon2-core.c:211-218 | section 3.4 of RFC 9106: every complete interleaving of the lanes of a slice, block by block, leaves the same memory |
| `Argon2Segment.SegmentIndependent` | libsodium/crypto_pwhash/argon2/argon2-core.c:213-217 | a segment has the same result in any two memories that differ only in what other lanes write in the slice |
| `Argon2Segment.SegmentAfterOthers` | libsodium/crypto_pwhash/argon2/argon2-core.c:213-217 | filling a lane after any set of other lanes, in any state of progress, adds exactly that lane to the slice |
| `Argon2Segment.FillersAgree` | libsodium/crypto_pwhash/argon2/argon2-fill-block-ssse3.c:142-237 | two fillers that meet the segment specification from the same memory leave the same memory |
| `Argon2Fill.EachBlockOnce` | libsodium/crypto_pwhash/argon2/argon2-core.c:199-219 | the offsets written in a pass contain each block exactly once, the two seeded blocks of a lane excepted in the first pass |
| `Argon2Fill.RunIsRfc` | libsodium/crypto_pwhash/argon2/argon2-core.c:199-219 | for a whole run: every block a pass writes is the compression of the previous block of its lane and the block J1 and J2 select, each as this pass has it if already written and as the pass before left it if not, with the old block folded in after the first pass |
| `Argon2Fill.SeedsStay` | libsodium/crypto_pwhash/argon2/argon2-core.c:346-368 | the seeded blocks stay through the first pass |
| `Argon2Fill.RunFromSeeds` | libsodium/crypto_pwhash/argon2/argon2-core.c:346-368 | the memory after any positive number of passes depends on the two seed blocks of each lane and on nothing else in the allocated region |
| `Argon2Fill.CurrentOffset` | libsodium/crypto_pwhash/argon2/argon2-fill-block-ref.c:177-179 | the three 32-bit sums do not wrap and stay in the region |
| `Argon2Fill.FirstPrevious` | libsodium/crypto_pwhash/argon2/argon2-fill-block-ref.c:181-187 | the first previous block of a segment is the cyclic predecessor in the lane |
| `Argon2Fill.RotationNeeded` | libsodium/crypto_pwhash/argon2/argon2-fill-block-ref.c:191-194 | `prev_offset` is rotated in column 1 only, and to the predecessor |
| `Argon2Fill.NextOffsets` | libsodium/crypto_pwhash/argon2/argon2-fill-block-ref.c:189-190 | advancing both offsets never wraps at 32 bits and keeps the predecessor, column 0 apart |
| `Argon2Fill.Region.FillFirstBlocks` | libsodium/crypto_pwhash/argon2/argon2-core.c:346-368 | the two seed blocks of every lane, and the record of those writes |
| `Argon2Fill.Region.GenerateAddresses` | libsodium/crypto_pwhash/argon2/argon2-fill-block-ref.c:111-141 | one address word per block as section 3.4.1.2 of RFC 9106 defines it, 128 to a generated block |
| `Argon2Fill.Region.ReferenceOffset` | libsodium/crypto_pwhash/argon2/argon2-fill-block-ref.c:207-225 | the reference lane and column for a 64-bit word, and that this block has been written |
| `Argon2Fill.Region.FillBlock` | libsodium/crypto_pwhash/argon2/argon2-fill-block-ref.c:196-232 | one store, of the block the recurrence defines; previous, reference and (in later passes) old current block are all loaded from places already written |
| `Argon2Fill.Region.FillNext` | libsodium/crypto_pwhash/argon2/argon2-fill-block-ref.c:189-233 | one iteration keeps the offsets and the built part of the segment |
| `Argon2Fill.Region.FillSegment` | libsodium/crypto_pwhash/argon2/argon2-fill-block-ref.c:143-234 | the segment is the recurrence's, every load is of a block already written, and the writes are the columns of the segment in order |
| `Argon2Fill.Region.FillSlice` | libsodium/crypto_pwhash/argon2/argon2-core.c:211-218 | all lanes one after the other give the slice result |
| `Argon2Fill.Region.FillMemoryBlocks` | libsodium/crypto_pwhash/argon2/argon2-core.c:199-219 | one pass gives the pass result and makes every block readable for the next one |
| `Argon2Ctx.SizeIsValid` | libsodium/crypto_pwhash/argon2/argon2.c:43-61 | for checked parameters the region has 4p floor(m/4p) blocks (section 3.2 of RFC 9106), segments have at least two blocks, and no 32-bit step of the sizing wraps |
| `Argon2Ctx.ValidExactly` | libsodium/crypto_pwhash/argon2/argon2-core.c:222-343 | the parameters that pass the check, in numbers |
| `Argon2Ctx.AddressingByType` | libsodium/crypto_pwhash/argon2/argon2-fill-block-ref.c:154-165 | Argon2i addresses independently of the data throughout, Argon2id in the first half of the first pass only |
| `Argon2Ctx.Ctx` | libsodium/crypto_pwhash/argon2/argon2.c:26-83 | the error code of every parameter set and of a failed allocation; on success the memory after all passes is the recurrence's, whatever the allocator handed out, and the output is the tag of its last column |
| `Argon2Ctx.AddLastBlocks` | libsodium/crypto_pwhash/argon2/argon2-core.c:165-197 | the final block is the sum of the last blocks of all lanes |
| `Argon2Ctx.LastColumnIs` | libsodium/crypto_pwhash/argon2/argon2-core.c:170-180 | the last blocks of the lanes by their offsets, added up from lane 0 on |
| `Argon2Ctx.AnySeededMemory` | libsodium/crypto_pwhash/argon2/argon2.c:62-82 | two memories with the same seed blocks give the same tag |
| `BlaMka.VectorRotations` | libsodium/crypto_pwhash/argon2/blamka-round-ssse3.h:7-22 | the shuffles and the shift-add-xor are the rotations by 32, 24, 16 and 63, for all words |
| `BlaMka.MulLowIsRfc` | libsodium/crypto_pwhash/argon2/blamka-round-ref.h:8-13 | the product of fBlaMka sees the low 32 bits of its factors only, and is their product |
| `BlaMka.LaneIsLow` | libsodium/crypto_pwhash/argon2/blamka-round-ssse3.h:24-29 | a lane of `_mm_mul_epu32`, defined by shifts, is that product |
| `BlaMka.SumIs` | libsodium/crypto_pwhash/argon2/blamka-round-ref.h:8-13 | sum, doubling and exclusive or as 64-bit operations |
| `BlaMka.RotationsAre` | libsodium/crypto_pwhash/argon2/blamka-round-ref.h:15-25 | the four rotations are rotations to the right by 32, 24, 16 and 63 |
| `BlaMka.GIsRfc` | libsodium/crypto_pwhash/argon2/blamka-round-ref.h:15-25 | the eight steps of GB in section 3.6 of RFC 9106 |
| `BlaMka.GExamples` | libsodium/crypto_pwhash/argon2/blamka-round-ref.h:8-25 | values of fBlaMka and G for given words |
| `BlaMka.Ssse3IsScalar` | libsodium/crypto_pwhash/argon2/blamka-round-ssse3.h:107-118 | the diagonalised two-word round equals the scalar `BLAKE2_ROUND_NOMSG` for all inputs |
| `BlaMka.Avx2Round1IsScalar` | libsodium/crypto_pwhash/argon2/blamka-round-avx2.h:124-135 | `BLAKE2_ROUND_1` equals two scalar rounds, one per register set |
| `BlaMka.Avx2Round2IsScalar` | libsodium/crypto_pwhash/argon2/blamka-round-avx2.h:137-148 | `BLAKE2_ROUND_2` equals two scalar rounds, one per register half |
| `Argon2Block.XorInto` | libsodium/crypto_pwhash/argon2/argon2-core.h:80-88 | `xor_block`: the word-wise sum of the old content and the source |
| `Argon2Block.PIsRfc` | libsodium/crypto_pwhash/argon2/blamka-round-ref.h:27-38 | P is the eight applications of GB of section 3.6 of RFC 9106 on sixteen words in place, in the order listed there |
| `Argon2Block.RowsAndColumns` | libsodium/crypto_pwhash/argon2/argon2-fill-block-ref.c:35-55 | which words make up row and column i |
| `Argon2Block.CompressIsRfc` | libsodium/crypto_pwhash/argon2/argon2-fill-block-ref.c:23-101 | section 3.5 of RFC 9106: for any Q and Z that are P on the rows of R = X xor Y and P on the columns of Q, the compression is Z xor R |
| `Argon2Block.PermuteBlock` | libsodium/crypto_pwhash/argon2/argon2-fill-block-ref.c:35-55 | the two loops of in-place rounds are the permutation P on all rows, then on all columns (section 3.5 of RFC 9106) |
| `Argon2Block.FillBlock` | libsodium/crypto_pwhash/argon2/argon2-fill-block-ref.c:23-59 | the compression G of section 3.5 of RFC 9106 |
| `Argon2Block.FillBlockWithXor` | libsodium/crypto_pwhash/argon2/argon2-fill-block-ref.c:61-101 | the compression folded into the old block, as section 3.4 of RFC 9106 has it for later passes |
| `Argon2Simd.PermuteState` | libsodium/crypto_pwhash/argon2/argon2-fill-block-ssse3.c:49-59 | the register loops of the SSSE3 filler perform the same two permutations on the block they hold |
| `Argon2Simd.FillBlockSsse3` | libsodium/crypto_pwhash/argon2/argon2-fill-block-ssse3.c:38-65 | stores the reference compression and leaves the registers holding the stored block |
| `Argon2Simd.FillBlockWithXorSsse3` | libsodium/crypto_pwhash/argon2/argon2-fill-block-ssse3.c:67-97 | the same with the old block folded in |
| `Argon2Simd.WideRoundIsP` | libsodium/crypto_pwhash/argon2/argon2-fill-block-avx2.c:54-62 | each AVX2 round macro is the permutation P on two rows or two columns at once |
| `Argon2Simd.FillBlockAvx2` | libsodium/crypto_pwhash/argon2/argon2-fill-block-avx2.c:43-68 | stores the reference compression and leaves the registers holding the stored block |
| `Argon2Simd.FillBlockWithXorAvx2` | libsodium/crypto_pwhash/argon2/argon2-fill-block-avx2.c:70-98 | the same with the old block folded in |
| `Argon2Vector.GenerateAddresses` | libsodium/crypto_pwhash/argon2/argon2-fill-block-ssse3.c:99-140 | the address words of the reference filler |
| `Argon2Vector.InputIsRfc` | libsodium/crypto_pwhash/argon2/argon2-fill-block-ref.c:119-127 | the seven words of the input block in their order, and zeros after them |
| `Argon2Vector.AddressIsRfc` | libsodium/crypto_pwhash/argon2/argon2-fill-block-ref.c:129-137 | an address block is G(ZERO, G(ZERO, Z)) (section 3.4.1.2 of RFC 9106) |
| `Argon2Vector.LoadState` | libsodium/crypto_pwhash/argon2/argon2-fill-block-ssse3.c:189-190 | the block loaded before the loop has been written, and is the cyclic predecessor whenever there is a block to build |
| `Argon2Vector.FillNext` | libsodium/crypto_pwhash/argon2/argon2-fill-block-ssse3.c:192-236 | `state` is the block at the cyclic predecessor again after each iteration |
| `Argon2Vector.FillSegment` | libsodium/crypto_pwhash/argon2/argon2-fill-block-ssse3.c:142-237 | the SSSE3 filler and, with wide registers, the AVX2 filler (argon2-fill-block-avx2.c:143-239) meet the specification of the reference filler: same memory, same writes |
| `Gf128.MulDistributes` | libsodium/crypto_aead/aes256gcm/aesni/aead_aes256gcm_aesni.c:355-364 | the product of section 6.3 of SP 800-38D distributes over addition on both sides |
| `Gf128.MulCommutative` | libsodium/crypto_aead/aes256gcm/aesni/aead_aes256gcm_aesni.c:635-641 | the product is commutative |
| `Gf128.MulAssociative` | libsodium/crypto_aead/aes256gcm/aesni/aead_aes256gcm_aesni.c:635-641 | the product is associative, so the chained powers are powers |
| `Gf128.Determined` | libsodium/crypto_aead/aes256gcm/aesni/aead_aes256gcm_aesni.c:272-313 | a map that respects addition and turns a shift into a multiplication by x is multiplication by its value at one |
| `GhashCode.ReduceIsWhole` | libsodium/crypto_aead/aes256gcm/aesni/aead_aes256gcm_aesni.c:283-310 | the lane-wise shifts and carries of the reduction are whole-register shifts |
| `GhashCode.ReduceLinear` | libsodium/crypto_aead/aes256gcm/aesni/aead_aes256gcm_aesni.c:374-407 | the reduction respects addition, so summed products need one reduction |
| `GhashCode.MulvShr` | libsodium/crypto_aead/aes256gcm/aesni/aead_aes256gcm_aesni.c:273-313 | shifting the first factor of `mulv` by one place multiplies the result by x |
| `GhashCode.MulvOne` | libsodium/crypto_aead/aes256gcm/aesni/aead_aes256gcm_aesni.c:273-313 | `mulv` of the field's one and b is b |
| `GhashCode.MulvIsMul` | libsodium/crypto_aead/aes256gcm/aesni/aead_aes256gcm_aesni.c:272-313 | `mulv`, carry-less products and shift reduction included, is the field multiplication for all pairs of blocks |
| `Ghash.HashConcat` | libsodium/crypto_aead/aes256gcm/aesni/aead_aes256gcm_aesni.c:643-661 | hashing a list in two parts is hashing it whole |
| `Ghash.AddMulReduceIsStep` | libsodium/crypto_aead/aes256gcm/aesni/aead_aes256gcm_aesni.c:208-270 | `addmulreduce` is one step of GHASH (section 6.4 of SP 800-38D) |
| `Ghash.KaratsubaMid` | libsodium/crypto_aead/aes256gcm/aesni/aead_aes256gcm_aesni.c:355-372 | the middle product by Karatsuba is the sum of the two cross products |
| `Ghash.AggregateIsDot` | libsodium/crypto_aead/aes256gcm/aesni/aead_aes256gcm_aesni.c:339-407 | adding the partial products and reducing once is the sum of the field products |
| `Ghash.DotIsHash` | libsodium/crypto_aead/aes256gcm/aesni/aead_aes256gcm_aesni.c:326-329 | Horner's rule: the sum weighted with falling powers of H is the block-by-block iteration |
| `Ghash.ManyIsHash` | libsodium/crypto_aead/aes256gcm/aesni/aead_aes256gcm_aesni.c:330-501 | the 4-way and 8-way steps with powers of H equal that many steps of GHASH |
| `AesGcm.BlocksConcat` | libsodium/crypto_aead/aes256gcm/aesni/aead_aes256gcm_aesni.c:643-700 | cutting a whole number of blocks off the front does not change the blocks |
| `AesGcm.TagCounterIsOne` | libsodium/crypto_aead/aes256gcm/aesni/aead_aes256gcm_aesni.c:622-624 | the unshuffled word 0x01000000 is the counter block with counter 1 |
| `AesGcm.CounterBlockInjective` | libsodium/crypto_aead/aes256gcm/aesni/aead_aes256gcm_aesni.c:105-112 | different counter values give different blocks |
| `AesGcm.CounterBlockIsStandard` | libsodium/crypto_aead/aes256gcm/aesni/aead_aes256gcm_aesni.c:105-112 | a counter block is the nonce and the 32-bit big-endian counter |
| `AesGcm.CountersDistinct` | libsodium/crypto_aead/aes256gcm/aesni/aead_aes256gcm_aesni.c:619-621 | within the length limit no data block reuses a counter block and none uses the tag's, the 32-bit wrap included |
| `AesGcm.LengthBlockIsStandard` | libsodium/crypto_aead/aes256gcm/aesni/aead_aes256gcm_aesni.c:625-631 | the two swapped words are the 64-bit big-endian bit lengths |
| `AesGcm.CryptIsStandard` | libsodium/crypto_aead/aes256gcm/aesni/aead_aes256gcm_aesni.c:663-705 | section 6.5 of SP 800-38D: block i is masked with the encryption of counter 2 + i, a last incomplete block with its leading bits |
| `AesGcm.TagIsStandard` | libsodium/crypto_aead/aes256gcm/aesni/aead_aes256gcm_aesni.c:707-711 | sections 6.4 and 7.1 of SP 800-38D: the tag is the encryption of counter 1 added to GHASH of A, zeros, C, zeros and both lengths |
| `AesGcm.CryptTwice` | libsodium/crypto_aead/aes256gcm/aesni/aead_aes256gcm_aesni.c:688-690 | the keystream applied twice restores the message |
| `AesGcm.PowerTableIsPowers` | libsodium/crypto_aead/aes256gcm/aesni/aead_aes256gcm_aesni.c:632-641 | the chained table holds H to the powers 1 to 8 |
| `AesGcm.AddMulReducePart` | libsodium/crypto_aead/aes256gcm/aesni/aead_aes256gcm_aesni.c:208-270 | one step on at most 16 bytes, zero-filled |
| `AesGcm.HashRemainder` | libsodium/crypto_aead/aes256gcm/aesni/aead_aes256gcm_aesni.c:653-661 | the remainder loop hashes the remaining blocks, the last one zero-filled |
| `AesGcm.HashAd` | libsodium/crypto_aead/aes256gcm/aesni/aead_aes256gcm_aesni.c:643-661 | the accumulator after the associated data is GHASH of its blocks, for every length |
| `AesGcmMessage.XorInto` | libsodium/crypto_aead/aes256gcm/aesni/aead_aes256gcm_aesni.c:688-690 | the xor loop, also in place |
| `AesGcmMessage.EncryptLoops` | libsodium/crypto_aead/aes256gcm/aesni/aead_aes256gcm_aesni.c:663-705 | for every length, the ciphertext is counter mode from counter 2 and the accumulator is GHASH over the ciphertext blocks |
| `AesGcmMessage.DecryptLoops` | libsodium/crypto_aead/aes256gcm/aesni/aead_aes256gcm_aesni.c:804-841 | for every length and also in place, the plaintext is counter mode and the accumulator is GHASH over the ciphertext as it was |
| `AesGcmMessage.TagAssembled` | libsodium/crypto_aead/aes256gcm/aesni/aead_aes256gcm_aesni.c:707-711 | the masked accumulator is the authentication value of section 7.1 of SP 800-38D |
| `AesGcmMessage.WriteTag` | libsodium/crypto_aead/aes256gcm/aesni/aead_aes256gcm_aesni.c:709-711 | the 16 tag bytes |
| `AesGcmMessage.SameTag` | libsodium/crypto_aead/aes256gcm/aesni/aead_aes256gcm_aesni.c:843-853 | the accumulating comparison is equality of tags |
| `AesGcmMessage.OpenSealed` | libsodium/crypto_aead/aes256gcm/aesni/aead_aes256gcm_aesni.c:733-860 | a sealed message opens to itself and any other tag is rejected |
| `AesGcmMessage.EncryptDetached` | libsodium/crypto_aead/aes256gcm/aesni/aead_aes256gcm_aesni.c:596-716 | ciphertext and tag of SP 800-38D, or an abort that writes nothing |
| `AesGcmMessage.DecryptDetached` | libsodium/crypto_aead/aes256gcm/aesni/aead_aes256gcm_aesni.c:733-860 | the plaintext exactly when the tag is right, zeros otherwise; a null message buffer faults exactly when there is something to store |
| `SecretStream.PullAfterPush` | libsodium/crypto_secretstream/xchacha20poly1305/secretstream_xchacha20poly1305.c:110-261 | a chunk pulled in the state it was pushed from gives message and tag back, and both sides move to the same state |
| `SecretStream.RunRecovered` | libsodium/crypto_secretstream/xchacha20poly1305/secretstream_xchacha20poly1305.c:110-261 | over any run of pushes and rekeys the receiver recovers every message and tag in order and ends in the sender's state |
| `SecretStream.StatesAgree` | libsodium/crypto_secretstream/xchacha20poly1305/secretstream_xchacha20poly1305.c:110-261 | the two states agree after every prefix of the run |
| `SecretStream.RejectedIgnored` | libsodium/crypto_secretstream/xchacha20poly1305/secretstream_xchacha20poly1305.c:179-261 | a rejected chunk anywhere leaves the rest of the run as it was |
| `SecretStream.ChunkIs` | libsodium/crypto_secretstream/xchacha20poly1305/secretstream_xchacha20poly1305.c:135-148 | the chunk byte by byte: the tag under block 1 of the keystream, the message under blocks 2 on |
| `SecretStream.AuthenticatorIs` | libsodium/crypto_secretstream/xchacha20poly1305/secretstream_xchacha20poly1305.c:126-161 | the end of the chunk is the authenticator of associated data, tag block and ciphertext under the first half of block 0 |
| `SecretStream.AcceptedExactly` | libsodium/crypto_secretstream/xchacha20poly1305/secretstream_xchacha20poly1305.c:179-243 | any chunk is taken exactly when its end is the authenticator of the rest |
| `SecretStream.RatchetIs` | libsodium/crypto_secretstream/xchacha20poly1305/secretstream_xchacha20poly1305.c:164-172 | the state after a push from the end of the chunk: without a key change the inner nonce is the old one with the first eight bytes of the authenticator mixed in; with one, key and inner nonce are what block 0 under the incremented counter makes of the old key and that nonce |
| `SecretStream.RatchetSeparates` | libsodium/crypto_secretstream/xchacha20poly1305/secretstream_xchacha20poly1305.c:164-172 | two pushes from one state that keep the key and whose authenticators differ in their first eight bytes lead to different states |
| `SecretStream.AfterCounter` | libsodium/crypto_secretstream/xchacha20poly1305/secretstream_xchacha20poly1305.c:166-172 | the counter grows by one until the key changes, and is never 0 after a step, the wrap at 2^32 included |
| `SecretStream.EpochCounts` | libsodium/crypto_secretstream/xchacha20poly1305/secretstream_xchacha20poly1305.c:166-172 | between two key changes the counter counts the chunks and the key stays |
| `SecretStream.CounterNeverZero` | libsodium/crypto_secretstream/xchacha20poly1305/secretstream_xchacha20poly1305.c:26-33 | a counter that starts nonzero is nonzero after every run |
| `SecretStream.InitialCounter` | libsodium/crypto_secretstream/xchacha20poly1305/secretstream_xchacha20poly1305.c:42-80 | an initialised state has counter 1 |
| `SecretStream.InitialIs` | libsodium/crypto_secretstream/xchacha20poly1305/secretstream_xchacha20poly1305.c:42-80 | the key derived from 16 bytes of the header; counter 1 and the other eight bytes as nonce |
| `SecretStream.NeverZeroFromStart` | libsodium/crypto_secretstream/xchacha20poly1305/secretstream_xchacha20poly1305.c:42-177 | from an initialised state the counter is nonzero after every run |
| `SecretStream.RekeyedCounter` | libsodium/crypto_secretstream/xchacha20poly1305/secretstream_xchacha20poly1305.c:82-108 | a rekey leaves the counter at 1 |
| `SecretStream.MacDataInjective` | libsodium/crypto_secretstream/xchacha20poly1305/secretstream_xchacha20poly1305.c:135-156 | the authenticated bytes determine associated data, tag block and ciphertext, although the second padding is computed from another length than the first |
| `SecretStream.AlignedExactly` | libsodium/crypto_secretstream/xchacha20poly1305/secretstream_xchacha20poly1305.c:135-156 | the authenticated bytes are in the layout of section 2.8 of RFC 8439 exactly when the message length is a multiple of 8 |
| `SecretStream.OneByteUnaligned` | libsodium/crypto_secretstream/xchacha20poly1305/secretstream_xchacha20poly1305.c:149-151 | a message of one byte: 14 zeros fewer than that layout has |
| `SecretStream.StreamBlocksDistinct` | libsodium/crypto_secretstream/xchacha20poly1305/secretstream_xchacha20poly1305.c:126-147 | within the length limit message blocks are numbered from 2 without meeting blocks 0 and 1 again |
| `SecretStream.State.constructor` | libsodium/crypto_secretstream/xchacha20poly1305/secretstream_xchacha20poly1305.c:42-80 | both initialisations derive the same state from key and header |
| `SecretStream.State.ResetCounter` | libsodium/crypto_secretstream/xchacha20poly1305/secretstream_xchacha20poly1305.c:26-33 | counter bytes 1,0,0,0 and the inner nonce untouched |
| `SecretStream.State.RekeyNow` | libsodium/crypto_secretstream/xchacha20poly1305/secretstream_xchacha20poly1305.c:82-108 | new key and inner nonce from the keystream, counter 1 |
| `SecretStream.State.Advance` | libsodium/crypto_secretstream/xchacha20poly1305/secretstream_xchacha20poly1305.c:164-172 | inner nonce mixed with the authenticator, counter incremented, rekey when the tag asks or the counter wraps |
| `SecretStream.State.PushChunk` | libsodium/crypto_secretstream/xchacha20poly1305/secretstream_xchacha20poly1305.c:110-177 | the chunk and the next state, or an abort that changes nothing |
| `SecretStream.State.PullChunk` | libsodium/crypto_secretstream/xchacha20poly1305/secretstream_xchacha20poly1305.c:179-261 | what the chunk opens to; every rejected chunk leaves the state as it was |
| `Duplex.DecryptedEncrypted` | libsodium/crypto_aead/aegis128l/aesni/aead_aegis128l_aesni.c:163-171 | for every length, decryption from the same state undoes encryption |
| `Duplex.EncryptedDecrypted` | libsodium/crypto_aead/aegis128l/aesni/aead_aegis128l_aesni.c:233-254 | every string is the encryption of its decryption |
| `Duplex.TailCancels` | libsodium/crypto_aead/aegis128l/aesni/aead_aegis128l_aesni.c:242-254 | the keystream tail decoded from zero-filled bytes cancels against the fix-up exactly, for both block sizes |
| `Duplex.Continued` | libsodium/crypto_aead/aegis128l/aesni/aead_aegis128l_aesni.c:155-171 | whole blocks first, the rest after: states and outputs compose |
| `Duplex.AbsorbedIs` | libsodium/crypto_aead/aegis128l/aesni/aead_aegis128l_aesni.c:155-162 | whole blocks are absorbed one by one, a last incomplete one zero-filled |
| `Duplex.EncryptedIs` | libsodium/crypto_aead/aegis128l/aesni/aead_aegis128l_aesni.c:163-171 | every byte of the ciphertext is the byte of the message under the keystream of the state that has absorbed the blocks before |
| `Duplex.EncryptedStep` | libsodium/crypto_aead/aegis128l/aesni/aead_aegis128l_aesni.c:163-171 | one more block encrypted and stored keeps the loop of every mode going, also in place |
| `Duplex.DecryptedStep` | libsodium/crypto_aead/aegis128l/aesni/aead_aegis128l_aesni.c:233-241 | one more block decrypted and stored keeps the loop of every mode going, also in place |
| `Aegis128l.RoundTrip` | libsodium/crypto_aead/aegis128l/aesni/aead_aegis128l_aesni.c:141-270 | what was sealed opens to the message, and no other tag is accepted for it |
| `Aegis128l.StreamParts` | libsodium/crypto_aead/aegis128l/aesni/aead_aegis128l_aesni.c:121-138 | the order in which the decoder adds registers gives the keystream of the encoder |
| `Aegis128l.PatchAbsorbs` | libsodium/crypto_aead/aegis128l/aesni/aead_aegis128l_aesni.c:249-253 | adding a block to the registers after an update is absorbing the sum |
| `Aegis128l.UpdatedIsAegis` | libsodium/crypto_aead/aegis128l/aesni/aead_aegis128l_aesni.c:30-47 | with the round key added last in the AES round, the update is the one of the AEGIS specification, the message going in with the round key |
| `Aegis128l.StreamIs` | libsodium/crypto_aead/aegis128l/aesni/aead_aegis128l_aesni.c:99-118 | the keystream byte by byte |
| `Aegis128l.Fibonacci` | libsodium/crypto_aead/aegis128l/aesni/aead_aegis128l_aesni.c:49-73 | the constants are the Fibonacci numbers modulo 256 |
| `Aegis128l.InitialIs` | libsodium/crypto_aead/aegis128l/aesni/aead_aegis128l_aesni.c:49-73 | the initialisation state by state from the first one |
| `Aegis128l.LengthsAre` | libsodium/crypto_aead/aegis128l/aesni/aead_aegis128l_aesni.c:75-97 | the length block holds the bit length of the associated data, then that of the message |
| `Aegis128l.TagIs` | libsodium/crypto_aead/aegis128l/aesni/aead_aegis128l_aesni.c:75-97 | the tag: seven updates with the lengths added to register 2, then the sum of the registers |
| `Aegis128l.SealedIs` | libsodium/crypto_aead/aegis128l/aesni/aead_aegis128l_aesni.c:140-182 | associated data first, then the message; the tag is that of the state after both |
| `Aegis128l.Registers.constructor` | libsodium/crypto_aead/aegis128l/aesni/aead_aegis128l_aesni.c:49-73 | the initial state of key and nonce |
| `Aegis128l.Registers.Update` | libsodium/crypto_aead/aegis128l/aesni/aead_aegis128l_aesni.c:30-47 | the in-place update of the registers, the last one first, is the simultaneous one |
| `Aegis128l.Registers.Enc` | libsodium/crypto_aead/aegis128l/aesni/aead_aegis128l_aesni.c:99-118 | one block encrypted with the keystream and absorbed |
| `Aegis128l.Registers.Dec` | libsodium/crypto_aead/aegis128l/aesni/aead_aegis128l_aesni.c:120-138 | one block decrypted and its plaintext absorbed |
| `Aegis128l.Registers.Mac` | libsodium/crypto_aead/aegis128l/aesni/aead_aegis128l_aesni.c:75-97 | the tag of state and lengths |
| `Aegis128l.Registers.AbsorbAd` | libsodium/crypto_aead/aegis128l/aesni/aead_aegis128l_aesni.c:155-162 | the state after the associated data, for every length |
| `Aegis128l.Registers.EncryptMessage` | libsodium/crypto_aead/aegis128l/aesni/aead_aegis128l_aesni.c:163-171 | ciphertext and state after every message, also in place |
| `Aegis128l.Registers.EncryptTail` | libsodium/crypto_aead/aegis128l/aesni/aead_aegis128l_aesni.c:166-171 | the partial last block goes through a zero-filled buffer and only its own bytes come out |
| `Aegis128l.Registers.DecryptMessage` | libsodium/crypto_aead/aegis128l/aesni/aead_aegis128l_aesni.c:233-254 | plaintext of every ciphertext, also in place, and the state the encrypting side reached, also without a message buffer |
| `Aegis128l.Registers.DecryptTail` | libsodium/crypto_aead/aegis128l/aesni/aead_aegis128l_aesni.c:242-254 | the partial last block leaves both sides in the same state before the tag, with or without a message buffer |
| `Aegis128l.Registers.FixUp` | libsodium/crypto_aead/aegis128l/aesni/aead_aegis128l_aesni.c:249-253 | which registers take the tail |
| `Aegis128l.EncryptDetached` | libsodium/crypto_aead/aegis128l/aesni/aead_aegis128l_aesni.c:140-182 | ciphertext and tag of the mode |
| `Aegis128l.DecryptDetached` | libsodium/crypto_aead/aegis128l/aesni/aead_aegis128l_aesni.c:207-270 | accepted exactly when the tag is right; the buffer, if there is one, then holds the plaintext, zeros otherwise |
| `Aegis256.RoundTrip` | libsodium/crypto_aead/aegis256/aesni/aead_aegis256_aesni.c:131-258 | what was sealed opens to the message, and no other tag is accepted for it |
| `Aegis256.StreamParts` | libsodium/crypto_aead/aegis256/aesni/aead_aegis256_aesni.c:115-128 | the order in which the decoder adds registers gives the keystream of the encoder |
| `Aegis256.PatchAbsorbs` | libsodium/crypto_aead/aegis256/aesni/aead_aegis256_aesni.c:239-241 | adding a block to the register after an update is absorbing the sum |
| `Aegis256.UpdatedIsAegis` | libsodium/crypto_aead/aegis256/aesni/aead_aegis256_aesni.c:30-42 | with the round key added last in the AES round, the update is the one of the AEGIS specification, the message going in with the round key |
| `Aegis256.StreamIs` | libsodium/crypto_aead/aegis256/aesni/aead_aegis256_aesni.c:97-112 | the keystream byte by byte |
| `Aegis256.Fibonacci` | libsodium/crypto_aead/aegis256/aesni/aead_aegis256_aesni.c:44-72 | the constants are the Fibonacci numbers modulo 256 |
| `Aegis256.InitialIs` | libsodium/crypto_aead/aegis256/aesni/aead_aegis256_aesni.c:44-72 | the initialisation state by state from the first one |
| `Aegis256.LengthsAre` | libsodium/crypto_aead/aegis256/aesni/aead_aegis256_aesni.c:74-95 | the length block holds the bit length of the associated data, then that of the message |
| `Aegis256.TagIs` | libsodium/crypto_aead/aegis256/aesni/aead_aegis256_aesni.c:74-95 | the tag: seven updates with the lengths added to register 3, then the sum of the registers |
| `Aegis256.SealedIs` | libsodium/crypto_aead/aegis256/aesni/aead_aegis256_aesni.c:130-172 | associated data first, then the message; the tag is that of the state after both |
| `Aegis256.Registers.constructor` | libsodium/crypto_aead/aegis256/aesni/aead_aegis256_aesni.c:44-72 | the initial state of key and nonce |
| `Aegis256.Registers.Update` | libsodium/crypto_aead/aegis256/aesni/aead_aegis256_aesni.c:30-42 | the in-place update of the registers, the last one first, is the simultaneous one |
| `Aegis256.Registers.Enc` | libsodium/crypto_aead/aegis256/aesni/aead_aegis256_aesni.c:97-112 | one block encrypted with the keystream and absorbed |
| `Aegis256.Registers.Dec` | libsodium/crypto_aead/aegis256/aesni/aead_aegis256_aesni.c:114-128 | one block decrypted and its plaintext absorbed |
| `Aegis256.Registers.Mac` | libsodium/crypto_aead/aegis256/aesni/aead_aegis256_aesni.c:74-95 | the tag of state and lengths |
| `Aegis256.Registers.AbsorbAd` | libsodium/crypto_aead/aegis256/aesni/aead_aegis256_aesni.c:145-152 | the state after the associated data, for every length |
| `Aegis256.Registers.EncryptMessage` | libsodium/crypto_aead/aegis256/aesni/aead_aegis256_aesni.c:153-161 | ciphertext and state after every message, also in place |
| `Aegis256.Registers.EncryptTail` | libsodium/crypto_aead/aegis256/aesni/aead_aegis256_aesni.c:156-161 | the partial last block goes through a zero-filled buffer and only its own bytes come out |
| `Aegis256.Registers.DecryptMessage` | libsodium/crypto_aead/aegis256/aesni/aead_aegis256_aesni.c:223-242 | plaintext of every ciphertext, also in place, and the state the encrypting side reached, also without a message buffer |
| `Aegis256.Registers.DecryptTail` | libsodium/crypto_aead/aegis256/aesni/aead_aegis256_aesni.c:232-242 | the partial last block leaves both sides in the same state before the tag, with or without a message buffer |
| `Aegis256.Registers.FixUp` | libsodium/crypto_aead/aegis256/aesni/aead_aegis256_aesni.c:239-241 | which registers take the tail |
| `Aegis256.EncryptDetached` | libsodium/crypto_aead/aegis256/aesni/aead_aegis256_aesni.c:130-172 | ciphertext and tag of the mode |
| `Aegis256.DecryptDetached` | libsodium/crypto_aead/aegis256/aesni/aead_aegis256_aesni.c:197-258 | accepted exactly when the tag is right; the buffer, if there is one, then holds the plaintext, zeros otherwise |
| `MfStream.ConstructedStarts` | mfstream/mfstream-impl.cpp:251-282 | a constructed stream satisfies the invariant |
| `MfStream.Kept` | mfstream/mfstream-impl.cpp:306-363 | no step of any submitter, the worker or Close breaks the invariant |
| `MfStream.Always` | mfstream/mfstream-impl.cpp:306-363 | the invariant holds after every interleaving |
| `MfStream.CounterExact` | mfstream/mfstream-impl.cpp:306-317 | with the lock free, the pending count is the listed operations plus the one in hand, and the event is set exactly when it is zero |
| `MfStream.NoLostWakeup` | mfstream/mfstream-impl.cpp:313-314 | a listed operation has a token that is available, just consumed by the worker, or about to be released |
| `MfStream.FinishedInOrder` | mfstream/mfstreamop-impl.cpp:46-77 | operations finish in insertion order, none twice |
| `MfStream.DeletedWhenReleased` | mfstream/mfstreamop-impl.cpp:29-43 | the count of a record is zero exactly when its caller and the stream have both released it |
| `MfStream.OnlyLiveRecordsUsed` | mfstream/mfstream-impl.cpp:331-357 | no step reads or writes a deleted record |
| `MfStream.AnswerIsOwn` | mfstream/mfstream-impl.cpp:117-126 | a call that waited returns what the callback reported for its own operation |
| `MfStream.SetMeansFinished` | mfstream/mfstream-impl.cpp:309-311 | while the event is set every operation whose insertion is complete is finished |
| `MfStream.FlushWaitsForAll` | mfstream/mfstream-impl.cpp:230-237 | a returning Flush implies that every operation inserted before it is finished |
| `MfStream.RankDrops` | mfstream/mfstream-impl.cpp:331-357 | every step of old work brings the stream closer to rest |
| `MfStream.StuckIsIdle` | mfstream/mfstream-impl.cpp:331-357 | an open stream on which no step is possible has finished everything |
| `MfStream.Drains` | mfstream/mfstream-impl.cpp:331-357 | left alone, an open stream finishes all its operations in boundedly many steps |
| `MfStream.WakesAlways` | mfstream/mfstream-impl.cpp:241-246 | a closed stream whose worker sleeps has a token for it or a Close about to post one, after every interleaving |
| `MfStream.CloseEnds` | mfstream/mfstream-impl.cpp:284-290 | after Close the worker ends: every run of old work is short, and where it cannot go on the thread has ended, as the destructor waits for |
| `Base64Chars.EqTable` | libsodium/sodium/codecs.c:103-110 | `EQ` on every signed character: correct from 0 on, true for every negative character |
| `Base64Chars.GtTable` | libsodium/sodium/codecs.c:111-114 | `GT` is correct for all differences below 256 |
| `Base64Chars.ByteToCharIsAlphabet` | libsodium/sodium/codecs.c:116-144 | both encoder maps are the alphabets of sections 4 and 5 of RFC 4648 |
| `Base64Chars.AlphabetIsRfc` | libsodium/sodium/codecs.c:116-144 | tables 1 and 2 of RFC 4648 |
| `Base64Chars.CharToByteIsDigit` | libsodium/sodium/codecs.c:125-156 | both decoder maps invert the alphabet, give 0xFF outside it, and give 63 for every negative character |
| `Base64Chars.VariantsAre` | libsodium/sodium/codecs.c:159-168 | the four variants by their numbers, and no others |
| `Base64.LengthsAgree` | libsodium/include/sodium/utils.h:80-83 | the encoder's length and the macro with its bit tricks count the characters written, plus the terminator |
| `Base64.GroupIsNumber` | libsodium/sodium/codecs.c:205-217 | section 4 of RFC 4648: the 24 bits of three bytes are the 24 bits of four digits |
| `Base64.VectorFo` | libsodium/sodium/codecs.c:178-239 | a test vector of section 10 of RFC 4648 |
| `Base64.NextDigit` | libsodium/sodium/codecs.c:209-212 | each digit is the next six bits of the data, although the 32-bit accumulator wraps |
| `Base64.WriteDigits` | libsodium/sodium/codecs.c:205-229 | the digits of the data, as many as the length says |
| `Base64.Finish` | libsodium/sodium/codecs.c:230-236 | padding up to the length and terminators to the end of the buffer; the assertion holds |
| `Base64.Bin2Base64` | libsodium/sodium/codecs.c:178-239 | the encoding of sections 4 and 5 of RFC 4648 with its terminators, or an abort that writes nothing, for all four variants |
| `Base64Decode.SkipPadding` | libsodium/sodium/codecs.c:241-263 | the padding skipper against its specification |
| `Base64Decode.NextDigitRead` | libsodium/sodium/codecs.c:296-306 | each byte is the next eight bits of the digits, although the accumulator wraps |
| `Base64Decode.ReadDigits` | libsodium/sodium/codecs.c:282-308 | the digits read, where reading stops, the bytes written and the bits left in the accumulator |
| `Base64Decode.Base642Bin` | libsodium/sodium/codecs.c:265-333 | result, length, end pointer and bytes for every input, ignore set and capacity |
| `Base64Decode.DecodedFits` | libsodium/sodium/codecs.c:265-333 | the bytes reported never exceed the capacity |
| `Base64Laws.BytesOfSextets` | libsodium/sodium/codecs.c:206-216 | cutting bytes into digits and joining them again gives the bytes and leaves no bits over |
| `Base64Laws.SextetsOfBytes` | libsodium/sodium/codecs.c:309-310 | digits without leftover bits are the digits of their bytes |
| `Base64Laws.RoundTrip` | libsodium/sodium/codecs.c:178-333 | decoding an encoding gives the bytes back exactly when there is room and `=` is not to be ignored where padding is due |
| `Base64Laws.PaddingIgnored` | libsodium/sodium/codecs.c:241-263 | one padded byte, with `=` to be ignored, is rejected |
| `Base64Laws.RoundTripWithin` | libsodium/sodium/codecs.c:323-325 | unpadded text inside longer text decodes to the bytes and stops at its end |
| `Base64Laws.Canonical` | libsodium/sodium/codecs.c:265-333 | with no ignore set and full consumption, accepted text is the encoding of its bytes exactly when no character is negative |
| `Base64Laws.IgnoredCharacters` | libsodium/sodium/codecs.c:265-333 | decoding with characters to ignore, letters and `=` not among them, is decoding the text without them: same verdict, same bytes |
| `Base64Laws.SpaceIgnored` | libsodium/sodium/codecs.c:290-295 | a text with an ignored space decodes |
| `Base64Laws.WantEndIs` | libsodium/sodium/codecs.c:309-333 | whether the end pointer is asked for changes the verdict only, which otherwise also requires that the whole text was consumed; a failure reports no bytes |
| `Base64Laws.FullStops` | libsodium/sodium/codecs.c:296-307 | in a buffer that is too small reading ends at the letter that would have completed the next byte |
| `Base64Laws.NegativeAccepted` | libsodium/sodium/codecs.c:278-288 | a concrete text with a negative character is accepted and is not canonical |
| `Base64Laws.EncodedIsPlain` | libsodium/sodium/codecs.c:116-144 | the encoder writes characters 1 to 127 only |
| `Decimal.DecodeDecimal` | libsodium/crypto_pwhash/argon2/argon2-encoding.c:38-67 | reads exactly the minimal decimal numbers that fit an `unsigned long` |
| `Decimal.U32ToString` | libsodium/crypto_pwhash/argon2/argon2-encoding.c:211-226 | prints the decimal digits, at most ten |
| `Decimal.DecIsDecimal` | libsodium/crypto_pwhash/argon2/argon2-encoding.c:211-226 | decimal notation: one more digit for ten times as much |
| `Decimal.ReadPrinted` | libsodium/crypto_pwhash/argon2/argon2-encoding.c:38-67 | reading a printed number gives it back |
| `Decimal.PrintRead` | libsodium/crypto_pwhash/argon2/argon2-encoding.c:38-67 | printing what was read gives the digits that were read |
| `Argon2Encoding.RoundTrip` | libsodium/crypto_pwhash/argon2/argon2-encoding.c:93-306 | decoding the text of a hash returns its costs, lanes, salt and output |
| `Argon2Encoding.HashStringIs` | libsodium/crypto_pwhash/argon2/argon2-encoding.c:228-306 | the encoded form with version 19 and all its separators, binary parts in unpadded Base64 |
| `Argon2Encoding.Canonical` | libsodium/crypto_pwhash/argon2/argon2-encoding.c:93-209 | accepted text is the text of what it was read as exactly when no character is negative |
| `Argon2Encoding.TypesSeparate` | libsodium/crypto_pwhash/argon2/argon2-encoding.c:163-174 | text accepted for one type is rejected for the other |
| `Argon2Encoding.WrongVersion` | libsodium/crypto_pwhash/argon2/argon2-encoding.c:155-174 | another version or an unknown type is an incorrect type |
| `Argon2Strings.ReadField` | libsodium/crypto_pwhash/argon2/argon2-encoding.c:130-138 | a prefix and a number within 32 bits |
| `Argon2Strings.ReadBin` | libsodium/crypto_pwhash/argon2/argon2-encoding.c:140-153 | a separator and unpadded Base64, written to the buffer |
| `Argon2Strings.ReadCosts` | libsodium/crypto_pwhash/argon2/argon2-encoding.c:163-190 | type, version and costs |
| `Argon2Strings.DecodeString` | libsodium/crypto_pwhash/argon2/argon2-encoding.c:93-209 | result code and context for every string; on success both buffers hold the hash, and a buffer that is not reached is untouched |
| `Argon2Strings.RejectedContext` | libsodium/crypto_pwhash/argon2/argon2-encoding.c:153-209 | whatever the result, both lengths stay within the capacities; a rejected string leaves an output length only if its fields could all be read |
| `Argon2Strings.AppendText` | libsodium/crypto_pwhash/argon2/argon2-encoding.c:244-253 | text and terminator appended when both fit, a report and an untouched buffer otherwise |
| `Argon2Strings.AppendCosts` | libsodium/crypto_pwhash/argon2/argon2-encoding.c:288-296 | the cost fields, or a report that they do not fit |
| `Argon2Strings.PiecesMakeText` | libsodium/crypto_pwhash/argon2/argon2-encoding.c:276-300 | the pieces printed one by one are the text of the hash |
| `Argon2Strings.EncodeString` | libsodium/crypto_pwhash/argon2/argon2-encoding.c:240-306 | error, abort or text by the space available; on success the buffer holds the text and terminators |
| `Argon2Strings.TooSmall` | libsodium/crypto_pwhash/argon2/argon2-encoding.c:240-306 | a buffer too small for the text is reported exactly when it ends before the salt or right before the separator behind it; everywhere else the encoder aborts |
| `Argon2Strings.EndsInSalt` | libsodium/crypto_pwhash/argon2/argon2-encoding.c:266-303 | a text of 60 characters: 25 bytes are reported, 30 bytes abort |
| `Argon2Strings.EncodeThenDecode` | libsodium/crypto_pwhash/argon2/argon2-encoding.c:93-306 | what the encoder wrote the decoder accepts exactly when the context it is read into passes the parameter check, and then costs, lanes, salt and output are the same |
| `MfMessages.LawsAreConsistent` | libsodium/crypto_box/crypto_box_seal.c:23-62 | the laws assumed of boxes and signatures can be met |
| `MfMessages.LayoutIs` | include/mfmessages.h:11-31 | the header fields in their order and sizes, and the flag bits |
| `MfMessages.SealOpens` | libsodium/crypto_box/crypto_box_seal.c:23-62 | the recipient opens what was sealed to its public key |
| `MfMessages.SealIs` | libsodium/crypto_box/crypto_box_seal.c:23-45 | a sealed box is the ephemeral public key, then the box under the nonce of both public keys |
| `MfMessages.AllocatedIsPlain` | mfmessages/mfmessages.c:12-37 | a new message has the plain shape and carries type, payload, source and destination |
| `MfMessages.AllocatedIs` | mfmessages/mfmessages.c:12-37 | every byte of a new message |
| `MfMessages.NumberedIsPlain` | mfmessages/mfmessages.c:134-147 | setting counter or context keeps the shape and everything else |
| `MfMessages.SealedFrame` | mfmessages/mfmessages.c:48-116 | an in-place seal touches its own region and the flag bytes only |
| `MfMessages.SealedRegions` | mfmessages/mfmessages.c:48-116 | what the two seals put where |
| `MfMessages.OpenAfterSeal` | mfmessages/mfmessages.c:64-131 | opening a sealed region restores it whatever changed elsewhere, and touches its own region and flags only |
| `MfMessages.SignedVerifies` | mfmessages/mfmessages.c:80-105 | a signed message verifies, and signing touches flags and signature only |
| `MfMessages.SignatureCovers` | mfmessages/mfmessages.c:80-90 | the signature covers the whole message with the signed flag set and zeros in its own place |
| `MfMessages.VerificationCovers` | mfmessages/mfmessages.c:93-105 | verification is of the signature field over the message with zeros in that field |
| `MfMessages.Outgoing` | mfmessages/mfmessages.c:48-116 | the flags after each outgoing step are those the next step asserts, and the sealed regions stay |
| `MfMessages.Envelope` | mfmessages/mfmessages.c:12-131 | encrypt data, encrypt header, sign, verify, decrypt header, decrypt data: every assertion holds and payload, type, size, counter, context, source and destination come back byte for byte |
| `MfMessages.Exchange` | mfmessages/mfmessages.c:12-131 | the six operations run in order on one buffer: every flag the code asserts is as it must be, the signature verifies, both layers open, fields and payload are as they were |
| `MfMessages.SlackSpoils` | mfmessages/mfmessages.c:48-61 | for every amount of slack, up to header and payload together: the sealed payload survives every draw of random bytes exactly when there is no slack |
| `MfMessages.OneByteLost` | mfmessages/mfmessages.c:48-77 | one byte of payload and one of slack: a draw of 7 is what the receiver reads instead of 0 |
| `MfMessages.SlackStays` | mfmessages/mfmessages.c:55-57 | the slack itself is never filled |
| `MfMessages.Alloc` | mfmessages/mfmessages.c:12-37 | the new message; no message without memory, and a fault exactly when the total size does not fit 32 bits |
| `MfMessages.Message.constructor` | mfmessages/mfmessages.c:20-32 | the buffer of a new message whose size fits |
| `MfMessages.Message.SetCounter` | mfmessages/mfmessages.c:142-147 | the counter field alone changes |
| `MfMessages.Message.SetContext` | mfmessages/mfmessages.c:134-139 | the context field alone changes |
| `MfMessages.Message.DataEncrypt` | mfmessages/mfmessages.c:48-61 | payload sealed in place, the random bytes meant for slack ending where the payload ends, one flag set, the signed flag dropped; a fault exactly when those bytes would start before the buffer |
| `MfMessages.Message.HeaderEncrypt` | mfmessages/mfmessages.c:108-116 | the second half of the header sealed in place |
| `MfMessages.Message.Sign` | mfmessages/mfmessages.c:80-90 | signature over the buffer with a zeroed signature field |
| `MfMessages.Message.Verify` | mfmessages/mfmessages.c:93-105 | the answer, and a buffer that is as before |
| `MfMessages.Message.HeaderDecrypt` | mfmessages/mfmessages.c:119-131 | the opened header, or no change at all |
| `MfMessages.Message.DataDecrypt` | mfmessages/mfmessages.c:64-77 | the opened payload, or no change at all |
| `MfList.Init` | mflist/mflist.c:6-12 | an empty ring |
| `MfList.Empty` | mflist/mflist.c:15-18 | true exactly for the empty ring |
| `MfList.InsertTail` | mflist/mflist.c:21-29 | the ring over the entries with the new one at the end |
| `MfList.InsertHead` | mflist/mflist.c:32-40 | the ring over the entries with the new one in front |
| `MfList.Remove` | mflist/mflist.c:43-50 | the ring without the entry, the others in order, and the entry a ring of its own |
| `MfSlot.UnusedStarts` | mfbroker/mfbroker.c:96-112 | an unused slot satisfies the accounting |
| `MfSlot.Kept` | mfbroker/mfbroker.c:253-612 | no step of a sender, a worker, a guest, a clearing or a releasing thread breaks the accounting: one reference for the owner, one for each guest and for each message arriving, listed or taken off and not released |
| `MfSlot.Always` | mfbroker/mfbroker.c:253-612 | the accounting holds after every interleaving |
| `MfSlot.ClosingAlone` | mfbroker/mfbroker.c:602-612 | from the moment the count is zero no step of the model is possible but the freeing: the thread that dropped it closes the slot undisturbed, and its list is empty |
| `MfSlot.LoopIsHeld` | mfbroker/mfbroker.c:252-284 | every access of the send loop to the list, its return to the lock after a release included, happens while a reference is held: that release is never the last one |
| `MfSlot.FreeMeansUnreferenced` | mfbroker/mfbroker.c:602-612 | a slot becomes free at count zero only, and no message refers to it |
| `MfSlot.Conserved` | mfbroker/mfbroker.c:539-556 | with no call half done the count is one more than the messages listed and being sent |
| `MfSlot.InOrder` | mfbroker/mfbroker.c:252-284 | over every run messages leave in the order they were listed, and none is forgotten |
| `MfSlot.FirstInFirstOut` | mfbroker/mfbroker.c:252-284 | over every interleaving of senders, guests and the send loop: what the loop takes off, followed by what is still listed, is what was listed followed by what was added |
| `MfSlot.ClearedAtOnce` | mfbroker/mfbroker.c:581-599 | a clearing nobody interferes with gives back one reference for each listed message and empties the list |
| `MfBroker.Connection.constructor` | mfbroker/mfbroker.c:96-112 | an unused slot |
| `MfBroker.Connection.Open` | mfbroker/mfbroker.c:96-112 | the owner holds the only reference and the list is empty |
| `MfBroker.Connection.SetKey` | mfbroker/mfbroker.c:615-621 | the step that establishes the connection |
| `MfBroker.Connection.AddRef` | mfbroker/mfbroker.c:559-564 | one more holder |
| `MfBroker.Connection.Prepare` | mfbroker/mfbroker.c:544-549 | the message takes its reference before it is listed |
| `MfBroker.Connection.Enqueue` | mfbroker/mfbroker.c:550-552 | the ring refines the queue with the message at the end |
| `MfBroker.Connection.Look` | mfbroker/mfbroker.c:253-254 | the send loop enters the lock and tests the list |
| `MfBroker.Connection.SendAsync` | mfbroker/mfbroker.c:539-556 | with no other thread between its two steps: the message is queued with one reference, or nothing changes |
| `MfBroker.Connection.Pop` | mfbroker/mfbroker.c:255-257 | the first message leaves the ring and keeps its reference |
| `MfBroker.Connection.Clear` | mfbroker/mfbroker.c:581-599 | every listed message gives its reference back and the ring is empty |
| `MfBroker.Connection.DropRef` | mfbroker/mfbroker.c:604-604 | one holder less, and whether it was the last |
| `MfBroker.Connection.Release` | mfbroker/mfbroker.c:602-612 | one holder less; the slot is freed exactly when the count reaches zero |
| `MfBroker.Connection.FreeSlot` | mfbroker/mfbroker.c:604-609 | at zero the list is already empty, and the slot becomes free |
| `MfBroker.Connection.SendFirst` | mfbroker/mfbroker.c:254-280 | with no other thread between its two steps: one message sent and released, everything else kept |
| `MfBroker.Connection.Drain` | mfbroker/mfbroker.c:252-284 | nothing goes out when the result carried into the loop is not zero; otherwise, with nothing added meanwhile, messages go out from the front in order, up to and including the first that fails |
| `Scrypt.PickParams` | libsodium/crypto_pwhash/scryptsalsa208sha256/pwhash_scryptsalsa208sha256.c:18-53 | the parameters of every pair of limits |
| `Scrypt.PickedWithinLimits` | libsodium/crypto_pwhash/scryptsalsa208sha256/pwhash_scryptsalsa208sha256.c:18-53 | for all limits r = 8, p >= 1, r p < 2^30 and 4 N r p within max(opslimit, 32768); 128 N r is within memlimit exactly when memlimit >= 2048 |
| `Scrypt.PickedIsLargest` | libsodium/crypto_pwhash/scryptsalsa208sha256/pwhash_scryptsalsa208sha256.c:18-53 | N is the largest power of two within its limit; where the memory decides, p is the largest number within the operations limit and below 2^30 / r |
| `Scrypt.OneByteShort` | libsodium/crypto_pwhash/scryptsalsa208sha256/pwhash_scryptsalsa208sha256.c:18-53 | with a memory limit of 2047 bytes the limit is exceeded, whatever the operations limit |
| `Scrypt.EncodeWord` | libsodium/crypto_pwhash/scryptsalsa208sha256/crypto_scrypt-common.c:33-47 | five letters, six bits each, lowest first |
| `Scrypt.LettersAre` | libsodium/crypto_pwhash/scryptsalsa208sha256/crypto_scrypt-common.c:28-29 | the letters are `./0-9A-Za-z` |
| `Scrypt.DecodeWord` | libsodium/crypto_pwhash/scryptsalsa208sha256/crypto_scrypt-common.c:73-106 | the value of five letters, or failure |
| `Scrypt.DecodeEncode` | libsodium/crypto_pwhash/scryptsalsa208sha256/crypto_scrypt-common.c:33-106 | reading printed letters gives the number |
| `Scrypt.EncodeDecode` | libsodium/crypto_pwhash/scryptsalsa208sha256/crypto_scrypt-common.c:73-106 | letters that were read are the printed form of their value exactly when no terminator was read as a digit |
| `Scrypt.ParseSetting` | libsodium/crypto_pwhash/scryptsalsa208sha256/crypto_scrypt-common.c:108-134 | parsing a printed setting gives the parameters, whatever follows |
| `Scrypt.SettingExample` | libsodium/crypto_pwhash/scryptsalsa208sha256/crypto_scrypt-common.c:211-228 | the prefix of N = 2^14, r = 8, p = 1 is `$7$C6..../....` |
| `Scrypt.EncodeBytesIs` | libsodium/crypto_pwhash/scryptsalsa208sha256/crypto_scrypt-common.c:49-71 | three bytes are the digits of a 24-bit number, first byte lowest, one or two at the end of a shorter one |
| `Scrypt.SettingParsed` | libsodium/crypto_pwhash/scryptsalsa208sha256/crypto_scrypt-common.c:108-134 | an accepted prefix is the printed form of its parameters exactly when it contains no terminator |
| `Scrypt.TerminatorRead` | libsodium/crypto_pwhash/scryptsalsa208sha256/crypto_scrypt-common.c:73-84 | a concrete prefix with a terminator that the parser alone takes for an exponent of 64 |
| `Scrypt.StoredPrefix` | libsodium/crypto_pwhash/scryptsalsa208sha256/pwhash_scryptsalsa208sha256.c:269-296 | a stored string that gets as far as being parsed and is accepted has the printed form of its parameters as prefix, without further condition |
| `Scrypt.StoredStringMatches` | libsodium/crypto_pwhash/scryptsalsa208sha256/pwhash_scryptsalsa208sha256.c:269-296 | the salt is never refused; a stored string needs no rehash exactly when the new limits pick the same parameters, so never under its own limits |
| `Limbs.Increment` | libsodium/sodium/utils.c:302-306 | plus one modulo 256^n |
| `Limbs.Add` | libsodium/sodium/utils.c:351-355 | the sum modulo 256^n |
| `Limbs.Sub` | libsodium/sodium/utils.c:394-398 | the difference modulo 256^n and the borrow that leaves the top |
| `Limbs.Compare` | libsodium/sodium/utils.c:219-248 | -1, 0 or 1 by little-endian value |
| `Limbs.IsZero` | libsodium/sodium/utils.c:250-260 | true exactly for the zero string |
| `Limbs.Memcmp` | libsodium/sodium/utils.c:179-201 | 0 exactly for equal strings, -1 otherwise |
| `Ed25519Scalar.OrderBounds` | libsodium/crypto_core/ed25519/core_ed25519.c:185-190 | the order lies strictly between 16 and 17 times 256^31 |
| `Ed25519Scalar.OrderIs` | libsodium/crypto_core/ed25519/core_ed25519.c:185-190 | the order is 2^252 + 27742317777372353535851937790883648493 |
| `Ed25519Scalar.Difference` | libsodium/crypto_core/ed25519/core_ed25519.c:200-207 | the 64-byte borrow chain never underflows, for every 32-byte s |
| `Ed25519Scalar.Negate` | libsodium/crypto_core/ed25519/core_ed25519.c:192-208 | -s modulo L |
| `Ed25519Scalar.Complement` | libsodium/crypto_core/ed25519/core_ed25519.c:210-228 | 1 - s modulo L |
| `Ed25519Scalar.Add` | libsodium/crypto_core/ed25519/core_ed25519.c:230-243 | the 32-byte sum, its carry dropped, modulo L |
| `Ed25519Scalar.Sub` | libsodium/crypto_core/ed25519/core_ed25519.c:245-253 | the sum with the negation |
| `Ed25519Scalar.SumIsSum` | libsodium/crypto_core/ed25519/core_ed25519.c:237-242 | addition is x + y modulo L exactly when x + y < 2^256 |
| `Ed25519Scalar.CarryLost` | libsodium/crypto_core/ed25519/core_ed25519.c:237-242 | 2^255 plus 2^255 gives zero, and 2^256 is no multiple of L |
| `Ed25519Scalar.ReducedFit` | libsodium/crypto_core/ed25519/core_ed25519.c:237-242 | for reduced scalars the carry is never lost |
| `Ed25519Scalar.AddNegate` | libsodium/crypto_core/ed25519/core_ed25519.c:192-243 | x + (-x) = 0 |
| `Ed25519Scalar.SubAfterAdd` | libsodium/crypto_core/ed25519/core_ed25519.c:230-253 | (x + y) - y = x |
| `Ed25519Scalar.AddComplement` | libsodium/crypto_core/ed25519/core_ed25519.c:210-243 | s + (1 - s) = 1 |
| `Padding.MaskIsRemainder` | libsodium/sodium/utils.c:749-750 | when b and b - 1 share no bit, masking with b - 1 is the remainder modulo b |
| `Padding.BarrierMaskIs` | libsodium/sodium/utils.c:767-768 | the mask is all ones at the barrier and zero elsewhere, for distances below 2^56 |
| `Padding.PadsExactly` | libsodium/sodium/utils.c:761-771 | the masked loop turns every last block into the padded one exactly when the barrier lies within 2^56 bytes of the end and the block within 2^63 (one byte more for a barrier in the last place) |
| `Padding.BarrierTooFar` | libsodium/sodium/utils.c:766-770 | with the barrier more than 2^56 bytes from the end, the byte next to the last keeps some of what was there |
| `Padding.PadLength` | libsodium/sodium/utils.c:748-753 | the filler that completes the block, power of two or not |
| `Padding.PadOutcomeIs` | libsodium/sodium/utils.c:745-760 | padding succeeds exactly when the next whole number of blocks fits, and aborts when it does not fit 64 bits |
| `Padding.WriteTail` | libsodium/sodium/utils.c:761-771 | the byte the loop leaves at every distance of the last block, and every other byte kept |
| `Padding.Pad` | libsodium/sodium/utils.c:734-773 | the padded data for every size at which the loop pads, the bytes outside the last block kept, or a failure that writes nothing |
| `Padding.PaddedExamples` | libsodium/sodium/utils.c:734-773 | padded data for given buffers |
| `Padding.IsBarrierIs` | libsodium/sodium/utils.c:794-795 | the bit test is true exactly at the last nonzero byte when it is 0x80 |
| `Padding.Unpad` | libsodium/sodium/utils.c:775-803 | accepts exactly the last blocks that end in 0x80 and zeros, and finds the length; the length stored for every other block |
| `Padding.BarrierUnique` | libsodium/sodium/utils.c:792-800 | there is at most one such place |
| `Padding.UnpadPad` | libsodium/sodium/utils.c:734-803 | unpadding undoes padding for every length and block size |
| `Padding.PadUnpad` | libsodium/sodium/utils.c:734-803 | re-padding what was unpadded restores the buffer exactly when it was a whole number of blocks |
| `Padding.NotWholeBlocks` | libsodium/sodium/utils.c:775-803 | a concrete buffer that is unpadded and not restored by padding |
| `Uniform.ThresholdIsRemainder` | libsodium/randombytes/randombytes.c:155-156 | `(1U + ~b) % b` is 2^32 modulo b |
| `Uniform.EveryResidueAlike` | libsodium/randombytes/randombytes.c:144-165 | every residue class has the same number of accepted 32-bit values |
| `Uniform.FirstIsFirst` | libsodium/randombytes/randombytes.c:157-163 | the draw taken is the first that is not rejected |
| `Uniform.Draw` | libsodium/randombytes/randombytes.c:144-165 | the answer of the implementation's own `uniform` if it has one, otherwise the remainder of the first draw that is not rejected |
| `SecretBox.LayoutsAgree` | libsodium/crypto_secretbox/xsalsa20poly1305/secretbox_xsalsa20poly1305.c:6-23 | padded(0^32 and then m) = 0^16 and then easy(m) |
| `SecretBox.SplitIsBody` | libsodium/crypto_secretbox/crypto_secretbox_easy.c:45-68 | 32 bytes through block 0 and the rest from block 1 on are one continuous keystream |
| `SecretBox.BodyTwice` | libsodium/crypto_secretbox/crypto_secretbox_easy.c:127-143 | the keystream applied twice restores the message |
| `SecretBox.EasyIs` | libsodium/crypto_secretbox/crypto_secretbox_easy.c:16-88 | the box in terms of the Salsa20 blocks under the derived key: block 0 gives the authenticator key and covers the first 32 bytes of the message |
| `SecretBox.EasyOpens` | libsodium/crypto_secretbox/crypto_secretbox_easy.c:149-160 | an easy box opens to its message and any other tag is rejected |
| `SecretBox.NaClOpens` | libsodium/crypto_secretbox/xsalsa20poly1305/secretbox_xsalsa20poly1305.c:25-47 | a padded box opens to 32 zeros and its message |
| `SecretBox.ThroughBlock0` | libsodium/crypto_secretbox/crypto_secretbox_easy.c:51-63 | what passes through the 64-byte block |
| `SecretBox.SplitXor` | libsodium/crypto_secretbox/crypto_secretbox_easy.c:127-143 | both parts of the split equal the keystream of the specification, also in place |
| `SecretBox.Detached` | libsodium/crypto_secretbox/crypto_secretbox_easy.c:16-76 | ciphertext and tag for every way the two buffers may overlap |
| `SecretBox.SealEasy` | libsodium/crypto_secretbox/crypto_secretbox_easy.c:78-88 | tag and ciphertext in one buffer, also over the message itself, or the misuse that ends the program |
| `SecretBox.OpenDetached` | libsodium/crypto_secretbox/crypto_secretbox_easy.c:90-147 | accepted exactly when the tag is right; then the message, for every overlap of the buffers or without a buffer; otherwise nothing changes |
| `SecretBox.UnsealEasy` | libsodium/crypto_secretbox/crypto_secretbox_easy.c:149-160 | accepted exactly when long enough and rightly tagged; then the message, also in the buffer of the box or without one |
| `SecretBox.SealPadded` | libsodium/crypto_secretbox/xsalsa20poly1305/secretbox_xsalsa20poly1305.c:6-23 | the padded box, or -1 and an untouched output for fewer than 32 bytes |
| `SecretBox.OpenPadded` | libsodium/crypto_secretbox/xsalsa20poly1305/secretbox_xsalsa20poly1305.c:25-47 | 32 zeros and the message, or -1 and an untouched output |

## Left out

- AES rounds, Poly1305, Salsa20 and ChaCha20 keystreams, BLAKE2b, curve arithmetic and `crypto_box` itself: parameters of the models, with only the laws a proof needs.
- `blake2b_long` and the initial hash of Argon2: the seed blocks and the hash of the final block are parameters.
- Argon2 AVX-512 filler: the same scheme as the two vector fillers that are modelled.
- `Argon2Ctx.Ctx`: byte contents of password, salt, secret and associated data enter through the seed blocks only; clearing of buffers is left out.
- AES key expansion and the attached wrappers of the AEAD calls: forwarding only.
- AEGIS-128L for ARM: another file with another tag computation, not compared.
- Hexadecimal codecs, HKDF, PBKDF2, size getters, dispatch wrappers, guarded allocation, constant-time claims: easy or not about results.
- Inline assembly in `libsodium/sodium/utils.c`: the C loops are modelled.
- Lengths near the limit of `size_t` in Base64: lengths are unbounded naturals.
- `Ed25519Scalar.Negate`: `sc25519_reduce` is taken as reduction modulo L.
- `Argon2Strings.DecodeString`: the bytes a failed Base64 field leaves in its buffer are not described; callers discard them.
- `Uniform.Draw`: the loop is modelled for a sequence of draws that contains an accepted value.
- Scrypt: decoding of the salt and the key derivation itself.
- `MfStream.Drains`: no claim for operations still queued at Close; the start-up handshake on the same semaphore comes before the initial state.
- mfstream: the maximum of the semaphore, the 32-bit range of the counters, the completion callback, EndRead and EndWrite, and failures to create a record.
- `MfMessages.Message.constructor`: payloads whose total size does not fit 32 bits are `MfMessages.Alloc`'s, which faults on them.
- `MfMessages.Message.DataEncrypt`: a stated size below header and payload is excluded; the amount of slack would wrap.
- Broker: sockets, polling, callbacks, the worker partition, the receive list and the listening thread; sending a message is a predicate that says whether it succeeds.
- `MfBroker.Connection.Clear`: a caller other than the last release holds a reference of its own; without one the code would clear the same list again from inside.
- `MfBroker.Connection.SendAsync`: described without another thread between its two steps; all interleavings of the steps are `MfSlot`'s (`MfSlot.FirstInFirstOut`).
- `MfBroker.Connection.SendFirst`: the same, between taking the message off the list and releasing it.
- `MfBroker.Connection.Drain`: the same, with nothing added to the list while the loop runs.
- `MfBroker.Connection.Release`: the `Connection` pointer of a listed message is identified with the connection whose list holds it. The owner's reference is given back once, by the worker of the connection outside its send loop (`mfbroker/mfbroker.c:207,245`) or after the workers have ended (529).
- mfcap, mfplay, mfsession, mfgen, mfcapc, mfcrypto and the rest of the COM layer: input, output and foreign calls.
