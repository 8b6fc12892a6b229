# Models of the OP-TEE crypto core, event ring, ELF loader and CPU operating points

This project models parts of OP-TEE that keep state across calls and proves what they promise over every
input, every way of cutting that input into calls, and every run.

| area | modules | what is modelled |
|---|---|---|
| GF(2^128) | `Gf128`, `GfWords`, `GfTables` | the block product of section 6.3 of NIST SP 800-38D, the bit-by-bit multiplier, Shoup's 4-bit tables |
| AES-GCM | `GcmSpec`, `GcmCode`, `Gcm`, `GcmNist`, `GcmCarry`, `GcmRuns`, `GcmFacts` | the streaming state machine, its own one-shot meaning, NIST SP 800-38D, whole runs |
| SM4 | `Bits32`, `Linear32`, `Words32`, `Sm4`, `Sm4Facts`, `BlockModes`, `Xts`, `Sm4Modes`, `Sm4Runs`, `Sm4Ctr` | the cipher for any S-box, CBC, CTR, and XTS with ciphertext stealing and a resumable IV |
| AES-CTS | `Cts` | CBC-CS3 of the Addendum to NIST SP 800-38A |
| CBC-MAC | `CbcMac`, `CbcMacFacts` | buffering, bundling of blocks, PKCS5 padding |
| SM3 | `Sm3`, `Sm3Facts` | streaming hash and HMAC over any compression function |
| Fortuna | `FortunaRing`, `FortunaQueue`, `FortunaSpec`, `FortunaFacts`, `Fortuna` | the event ring and its drains as interleaved atomic steps; the generator with failing crypto calls |
| Loader | `Loader`, `Segments`, `Symbols`, `Resolve`, `Lookups` | dependency worklist, segment merging, hashed symbol look-up |
| DVFS | `Dvfs` | clock and regulator changes that can fail, with roll-back |

Objects of the source whose fields are updated in place are classes. A method's contract ties its result or its
new state to a specification function, and lemmas and whole-run methods (`...Run`, `RoundTrip`, `XtsResume`,
`Ldelf`) prove what those functions promise. The `...Facts` modules, `FortunaQueue` and `Lookups` say what the
specification functions come to in bytes, bits, constants and single symbols, without their definitions. `Bytes`,
`BigEndian`, `ByteValues` and `Arithmetic` hold what the models share.
The block ciphers, the S-box, the hash and the SM3 compression function are arbitrary functions. Failures of
hardware, of the crypto library and of `malloc()` are arbitrary oracles.

Where the code and its documentation, or an expected law, disagree, the code is modelled and the exact condition
is proved:

- GCM counts with a 128-bit increment where NIST SP 800-38D has inc32. `GcmCarry.StreamsAgreeIff` says exactly when
  the key streams agree whatever the cipher, `GcmCarry.CarryCiphertext` is a nonce and a plaintext at which the
  ciphertexts differ, and `GcmNist.RoomFor96BitNonces` shows that 96-bit nonces are safe.
- GCM length fields are computed in 32 bits. `GcmNist.CodeLenIff`: they are right exactly below 2^29 bytes.
- An empty GCM payload call closes the AAD but is not remembered, so later AAD is accepted. `GcmRuns.LateAad` shows
  what is then hashed, `GcmRuns.LateAadIff` exactly when that is still the hash input of the joined AAD.
- `adjust_segments()` compares only low bits before merging. `Segments.MisplacedMerge` is a list it accepts although
  a segment ends up with the wrong file offset; `Segments.MergedShiftIff` says exactly when the place is kept.
- `stm32_cpu_opp_set_level()` updates `current_opp` after the hardware, so just before the update the clock or the
  voltage can be on the wrong side of the remembered operating point (`Dvfs.StaleWindow`). A request passes through
  no such instant exactly when it moves nothing or goes down at equal voltage (`Dvfs.CpuOpp.SetLevel`), and a run
  exactly when all its requests do (`Dvfs.Run`). The voltage carries the clock at every instant in any case.
- A request for the current level succeeds without touching the hardware, even when a failed roll-back has left it
  elsewhere (`Dvfs.StrandedClock`). `Dvfs.StrandedIff` says exactly which requests leave it there.
- The comment above `ta_elf_resolve_sym()` promises a search in the given module, or in all modules if none is
  given, for global symbols, then weak ones, then the zero of a weak undefined one. The code takes these steps module
  by module, and goes on to the queue when the given module is silent. `Resolve.WeakHidesGlobal`,
  `Resolve.ZeroHidesDefined` and `Resolve.SilentFallsThrough` are instances of the three ways to differ, and
  `Resolve.DocumentedIff` is the exact condition.
- SM3 counts bytes in two 32-bit words and notices the carry by comparing with a wider length. `Sm3.CountIff` says
  exactly for which lengths of one piece the count is right.
- The newest accepted ring event stays unread until another one is accepted: the unread queue has at least one
  entry, starting with the all-zero slot (`FortunaRing.RunSafe`). Popping that slot ends the first drain, which hands
  nothing on (`FortunaRing.FirstDrainStops`).

## Model

| member | source | states |
|---|---|---|
| Gf128.ProductCommutes | core/crypto/aes-gcm.c:523-548 | the block product of section 6.3 is commutative, which lets both multipliers take their operands in either order |
| Gf128.SumSwap | core/crypto/aes-gcm.c:523-548 | multiplying by x and multiplying by y are commuting linear maps, from any start bits |
| Gf128.SumUnit | core/crypto/aes-gcm.c:523-548 | multiplying the unit by y gives y back |
| Gf128.SumXor | core/crypto/aes-gcm.c:523-548 | the product is linear in the operand that is shifted |
| GfWords.ShiftIsNext | core/crypto/aes-gcm.c:540-543 | shifting two 64-bit words right with the 0xe1 reduction is one step V to V.P of the standard |
| GfWords.BytesOfBitsOf | core/crypto/aes-gcm.c:523-548 | bytes to bits and back is the identity, so the big-endian word view loses nothing |
| GfWords.BlockMulCommutes | core/crypto/aes-gcm-sw.c:24-35 | the product of blocks does not depend on which operand is the subkey |
| GfWords.GfMul | core/crypto/aes-gcm.c:523-548 | the 128-step loop computes the block product of the standard for every pair of blocks |
| GfTables.Last4Bit | core/crypto/aes-gcm-ghash-tbl.c:98-103 | every entry of the last4 table is the reduction of the four bits that are shifted out, bit by bit |
| GfTables.Shift4IsNext4 | core/crypto/aes-gcm-ghash-tbl.c:127-138 | one table look-up and a shift by four do the work of four single reduction steps |
| GfTables.SumByNibble | core/crypto/aes-gcm-ghash-tbl.c:109-145 | four bits of an operand together contribute one table entry plus the shifted rest (Horner's rule by nibbles) |
| GfTables.GhashKey.constructor | core/crypto/aes-gcm-ghash-tbl.c:49-91 | every one of the 16 entries is its index times the hash subkey |
| GfTables.GhashKey.Powers | core/crypto/aes-gcm-ghash-tbl.c:59-78 | entries 8, 4, 2 and 1 are the subkey and its one, two and three times shifted forms, entry 0 is zero |
| GfTables.GhashKey.Sums | core/crypto/aes-gcm-ghash-tbl.c:80-90 | all other entries follow as sums, and none already made is disturbed |
| GfTables.GhashKey.Row | core/crypto/aes-gcm-ghash-tbl.c:80-90 | entries i+1 to 2i-1 are completed from entry i without disturbing the others |
| GfTables.GhashKey.FoldByte | core/crypto/aes-gcm-ghash-tbl.c:122-141 | one byte of the operand takes the accumulator eight bits further, and only four for the last byte, whose low nibble started it |
| GfTables.GhashKey.Mult | core/crypto/aes-gcm-ghash-tbl.c:109-145 | with a table of h, the result is the block product with h: the same as the bit-by-bit multiplier, for every x |
| GcmSpec.GhashAppend | core/crypto/aes-gcm-sw.c:37-51 | hashing a and then b is hashing a + b, for whole blocks a |
| Gcm.State.IncCtr | core/crypto/aes-gcm.c:346-356 | the hand-made carry between two 64-bit words is an increment modulo 2^128 |
| Gcm.State.CtrBlockIsCounter | core/crypto/aes-gcm.c:346-356 | the two words in big-endian order are the 16-byte form of the counter number |
| Gcm.State.GhashUpdateBlock | core/crypto/aes-gcm-sw.c:24-35 | one block is folded into the hash by the standard's product, with either multiplier |
| Gcm.State.GhashUpdate | core/crypto/aes-gcm-sw.c:37-51 | an optional head block and any number of blocks are hashed as their concatenation |
| Gcm.State.GhashUpdatePadZero | core/crypto/aes-gcm.c:27-55 | whatever the alignment, the data is hashed as if padded with zeros to whole blocks |
| Gcm.State.GhashUpdateLengths | core/crypto/aes-gcm.c:57-67 | the two length fields are hashed, each 8 times the length in 32 bits |
| Gcm.State.SetKey | core/crypto/aes-gcm-sw.c:13-22 | the subkey is the encrypted zero block, and the table, if used, belongs to it |
| Gcm.State.LoadNonce | core/crypto/aes-gcm.c:84-93 | the counter becomes the pre-counter block of the nonce, of 12 bytes or of any other length |
| Gcm.State.StartKeyStream | core/crypto/aes-gcm.c:95-119 | the tag mask is the encrypted pre-counter block, and the key stream starts one block later, one block ahead when encrypting |
| Gcm.State.Init | core/crypto/aes-gcm.c:69-122 | a tag length above 16 is refused with nothing changed; otherwise the state is valid with nothing hashed and nothing encrypted |
| Gcm.State.UpdateAad | core/crypto/aes-gcm.c:140-181 | refused while the 32-bit payload count is not zero; otherwise exactly the new bytes join what was hashed, for every address and fill level |
| Gcm.State.HashAad | core/crypto/aes-gcm.c:153-178 | the loop hashes every byte once, although `head` keeps its value from one round to the next |
| Gcm.State.EncryptBlock | core/crypto/aes-gcm-sw.c:53-66 | the block is encrypted under the key stream at its position, its ciphertext is hashed, and the key stream is again one block ahead |
| Gcm.State.DecryptBlock | core/crypto/aes-gcm-sw.c:92-105 | the block is decrypted under the key stream at its position and its ciphertext is hashed |
| Gcm.State.UpdatePayloadBlocks | core/crypto/aes-gcm-sw.c:131-143 | any number of whole blocks is transformed under the key stream from its position on and its ciphertext is hashed |
| Gcm.State.FillBuffers | core/crypto/aes-gcm.c:211-225 | the output is the key stream slice at its position, unused key bytes survive, and the hash buffer receives the ciphertext in either direction |
| Gcm.State.PartialPayload | core/crypto/aes-gcm.c:211-243 | at most the rest of one block goes under the right key stream bytes, and the hash buffer holds the ciphertext |
| Gcm.State.CryptPayload | core/crypto/aes-gcm.c:210-252 | the loop transforms any source under the key stream from its position on and hashes its ciphertext |
| Gcm.State.TakePayload | core/crypto/aes-gcm.c:208-254 | once the AAD is closed, source, byte count and hash input advance together |
| Gcm.State.FinishAad | core/crypto/aes-gcm.c:200-206 | a partial AAD block is padded with zeros before the first payload byte |
| Gcm.State.UpdatePayload | core/crypto/aes-gcm.c:189-255 | the output is the key stream slice at the number of bytes done before, and the hash input grows by the ciphertext, in both directions |
| Gcm.State.FinishTag | core/crypto/aes-gcm.c:277-285 | the truncated tag is that of everything hashed, padded, and of both byte counts |
| Gcm.State.OperationFinal | core/crypto/aes-gcm.c:266-288 | the last payload piece is processed like any other and the tag covers everything |
| Gcm.State.EncFinal | core/crypto/aes-gcm.c:290-308 | a short tag buffer changes nothing; otherwise ciphertext and tag of the whole stream |
| Gcm.State.DecFinal | core/crypto/aes-gcm.c:318-336 | a tag of another length changes nothing; otherwise success exactly when the tag is that of the whole stream |
| GcmCode.KeyFinish | core/crypto/aes-gcm.c:227-243 | when a block is used up, one increment restores the relation between counter and key stream buffer, which differs between the two directions |
| GcmCode.CryptSplit | core/crypto/aes-gcm.c:189-255 | the key stream of x + y is that of x followed by that of y further on, so cutting does not matter |
| GcmNist.CounterIsInc32 | core/crypto/aes-gcm.c:346-356 | the 128-bit counter is inc32 of section 6.2 while the low word does not wrap |
| GcmNist.CarryDiffers | core/crypto/aes-gcm.c:346-356 | where the low word of a pre-counter block wraps, the code's counter block differs from the standard's |
| GcmNist.CountersAgreeIff | core/crypto/aes-gcm.c:346-356 | the first m counter blocks all agree with the standard if and only if the low word of the pre-counter block has room for m |
| GcmNist.CodeLenIff | core/crypto/aes-gcm.c:57-67 | below 2^61 bytes a length field is the standard's if and only if the length is below 2^29 bytes |
| GcmNist.CryptIsGctr | core/crypto/aes-gcm.c:189-255 | the code's key stream is GCTR of section 6.5 when the counters have room |
| GcmNist.PreCounterAgrees | core/crypto/aes-gcm.c:84-93 | the pre-counter block is that of section 7.1 step 2 for nonces of any length below 2^29 bytes |
| GcmNist.CodeIsNist | core/crypto/aes-gcm.c:69-308 | ciphertext and tag are those of section 7.1 for lengths below 2^29 bytes and counters with room |
| GcmFacts.TagOfTwoBlocks | core/crypto/aes-gcm.c:277-285 | for a 96-bit nonce, one block of AAD and one of ciphertext the tag is three products with the subkey, of AAD, ciphertext and their two bit lengths in this order, under the encrypted nonce with counter one |
| GcmFacts.TagOfAad | core/crypto/aes-gcm.c:57-67 | with AAD alone its bit length is the first of the two |
| GcmFacts.FirstByte | core/crypto/aes-gcm.c:95-119 | the first ciphertext byte is under the encryption of the nonce with counter two |
| GcmNist.RoomFor96BitNonces | core/crypto/aes-gcm.c:84-86 | with a 96-bit nonce and less than 2^29 bytes there always is room |
| GcmCarry.StreamsAgreeIff | core/crypto/aes-gcm.c:189-255 | n bytes from a pre-counter block are encrypted as GCTR says under every cipher if and only if its low word has room for their blocks |
| GcmCarry.StreamsDiffer | core/crypto/aes-gcm.c:346-356 | without room some cipher makes the two key streams differ |
| GcmCarry.CarryPreCounter | core/crypto/aes-gcm.c:84-93 | a 16-byte nonce and a cipher whose pre-counter block ends in a word of ones |
| GcmCarry.CarryCiphertext | core/crypto/aes-gcm.c:69-308 | with them, one byte of plaintext gets different ciphertexts from the code and from section 7.1 |
| GcmRuns.FeedAad | core/crypto/aes-gcm.c:140-181 | any number of AAD calls hashes the concatenation |
| GcmRuns.FeedPayload | core/crypto/aes-gcm.c:189-255 | any number of payload calls, empty ones too, transforms and hashes the concatenation |
| GcmRuns.EncryptRun | core/crypto/aes-gcm.c:69-308 | ciphertext and tag of a run depend only on the concatenations, not on cuts, alignment or multiplier |
| GcmRuns.EncryptRunIsNist | core/crypto/aes-gcm.c:69-308 | every such run with a 96-bit nonce and lengths below 2^29 bytes is section 7.1 of NIST SP 800-38D |
| GcmRuns.DecryptRun | core/crypto/aes-gcm.c:69-336 | a decrypting run succeeds exactly on the tag of its concatenations, and its output depends only on them |
| GcmRuns.DecryptRunIsNist | core/crypto/aes-gcm.c:69-336 | every such run with a 96-bit nonce and lengths below 2^29 bytes succeeds exactly on the tag of section 7.2, and its output is GCTR of the ciphertext |
| GcmRuns.RoundTrip | core/crypto/aes-gcm.c:69-336 | decrypting an encrypted message with its tag succeeds and returns the plaintext, with different cuts and multipliers on the two sides |
| GcmRuns.LateAad | core/crypto/aes-gcm.c:140-206 | after an empty payload call more AAD is accepted, behind zero padding |
| GcmRuns.LateAadIff | core/crypto/aes-gcm.c:140-206 | what is then hashed equals the joined AAD if and only if the first part was whole blocks, or nothing followed, or only zeros that padding would supply |
| Sm4.RoundUndoes | core/crypto/sm4.c:118-122 | a round on the reversed register undoes that round, for every S-box and round key |
| Sm4.RoundsUndo | core/crypto/sm4.c:163-184 | all rounds with the keys backwards undo all rounds, for any number of rounds |
| Sm4.BlockInverse | core/crypto/sm4.c:163-201 | the reversed schedule decrypts every block, whatever the S-box and the keys |
| Sm4.Context.SetKey | core/crypto/sm4.c:140-161 | the 32 round keys are those of the recursive key register of GM/T 0002-2012 |
| Sm4.Context.SetKeyEnc | core/crypto/sm4.c:186-190 | an encryption context holds the schedule |
| Sm4.Context.SetKeyDec | core/crypto/sm4.c:192-201 | sixteen swaps in place leave the schedule backwards |
| Sm4.Context.OneRound | core/crypto/sm4.c:163-184 | the 36-word buffer computes all rounds of the Feistel register, with the round keys in order, and writes it out backwards |
| Sm4.RoundsFirst | core/crypto/sm4.c:176-178 | the rounds take their keys from the first to the last |
| Sm4Facts.CryptIs | core/crypto/sm4.c:163-184 | for words X that start with the block and go on by the round function, one for each round key, the result is the last four in reverse, in big-endian bytes |
| Sm4Facts.KeyEnters | core/crypto/sm4.c:118-122 | round key and middle words enter the round function only through their sum, and the first word is added to its result, for every S-box |
| Sm4Facts.SboxEnters | core/crypto/sm4.c:102-138 | the S-box is applied to each of the four bytes of that sum, in the round function and in the key schedule |
| Sm4Facts.FOn | core/crypto/sm4.c:115 | behind the S-box every bit is the sum of the bits 0, 2, 10, 18 and 24 places below it, cyclically |
| Sm4Facts.FBits | core/crypto/sm4.c:102-122 | with the identity for an S-box, bit n of a round key reaches exactly the bits n, n+2, n+10, n+18 and n+24 modulo 32 |
| Linear32.MixedFourOn | core/crypto/sm4.c:115 | four times the linear part is a rotation by eight bits |
| Linear32.MixedInjective | core/crypto/sm4.c:115 | so different words stay different under the linear part |
| Sm4Facts.RoundKeyMatters | core/crypto/sm4.c:118-122 | with an injective S-box different round keys take every register to different registers |
| Sm4Facts.KeyBits | core/crypto/sm4.c:124-138 | with the identity for an S-box, bit n of a constant reaches exactly the bits n, n+13 and n+23 modulo 32 of the key word |
| Sm4Facts.ScheduleIs | core/crypto/sm4.c:140-161 | for words K that start with the key under the system parameter and go on by the key function and the constants, the round keys are all but the first four |
| Sm4Facts.CkWords | core/crypto/sm4.c:84-93 | byte j of constant i is (4 i + j) * 7 modulo 256, for all 32 constants |
| Words32.GetWeights | core/crypto/sm4.c:19-25 | a word is its four bytes weighed by 2^24, 2^16, 2^8 and 1 |
| Words32.PutWeights | core/crypto/sm4.c:27-33 | the four bytes written for a word, so weighed, are the word |
| BlockModes.CbcEncAppend | core/crypto/sm4.c:216-247 | encrypting s and then t from the last ciphertext block is encrypting s + t |
| BlockModes.CbcDecAppend | core/crypto/sm4.c:216-247 | the same for decryption |
| BlockModes.CbcEncBytes | core/crypto/sm4.c:224-234 | ciphertext block j is the encryption of plaintext block j under the ciphertext block before it, or under the IV |
| BlockModes.CbcDecBytes | core/crypto/sm4.c:235-246 | plaintext block j is the decryption of ciphertext block j under the ciphertext block before it, or under the IV |
| BlockModes.CbcRoundTrip | core/crypto/sm4.c:216-247 | CBC decryption undoes encryption over any block permutation |
| Sm4Modes.CipherUndoes | core/crypto/sm4.c:186-201 | encryption and decryption contexts of one key undo each other, both ways round |
| Sm4Modes.CryptCbc | core/crypto/sm4.c:216-247 | the output buffer is CBC of the input in the context's direction, and the IV left behind is the last ciphertext block |
| Sm4Modes.CbcEncrypt | core/crypto/sm4.c:224-234 | the encrypting loop writes CBC of the whole input |
| Sm4Modes.CbcDecrypt | core/crypto/sm4.c:235-246 | the decrypting loop writes the CBC decryption of the whole input |
| Sm4Runs.CbcCalls | core/crypto/sm4.c:216-247 | several calls that pass the IV on compute CBC of the concatenation |
| Sm4Runs.CbcRoundTripRun | core/crypto/sm4.c:140-247 | decryption returns the plaintext with independent block-boundary splits on each side |
| Sm4Ctr.IncIsNext | core/crypto/sm4.c:263-265 | the byte-wise carry is an increment of the big-endian number, at any length |
| Sm4Ctr.IncCounter | core/crypto/sm4.c:263-265 | the loop adds one modulo 2^128 |
| Sm4Ctr.CryptCtr | core/crypto/sm4.c:249-270 | the output is CTR of the input, and the counter left behind is the number of blocks further on |
| Sm4Ctr.CtrAppend | core/crypto/sm4.c:249-270 | CTR of a + b is CTR of a followed by CTR of b from the counter that a leaves |
| Sm4Ctr.CtrBytes | core/crypto/sm4.c:249-270 | byte i of block j is under byte i of the encrypted counter j further on |
| Sm4Ctr.CtrTwice | core/crypto/sm4.c:249-270 | CTR is its own inverse over any block function |
| Sm4Ctr.CtrRoundTripRun | core/crypto/sm4.c:249-270 | two passes with the same counter return the plaintext, each cut into calls at block boundaries of its own |
| Xts.MulIsDoubling | core/crypto/sm4.c:272-285 | the tweak update multiplies by the generator modulo x^128 + x^7 + x^2 + x + 1 |
| Xts.TweakNext | core/crypto/sm4.c:304-324 | block 0 has the tweak itself and every further block the double of the tweak before |
| Sm4Modes.XtsMulti | core/crypto/sm4.c:272-285 | the carrying pass over the bytes computes that update |
| Xts.StealUndoes | core/crypto/sm4.c:326-350 | decryption of the last block and a bit undoes their encryption, with the tweaks in swapped order |
| Xts.RoundTrip | core/crypto/sm4.c:295-351 | XTS decryption undoes encryption at every length of at least 16 bytes |
| Xts.EncryptBytes | core/crypto/sm4.c:308-324 | byte 16 j + i of the ciphertext of whole blocks is byte i of the encrypted sum of block j and tweak j, plus byte i of tweak j |
| Xts.DecryptBytes | core/crypto/sm4.c:308-324 | the same for decryption |
| Xts.EncryptTailBytes | core/crypto/sm4.c:326-337 | of the last two blocks the full one comes from the partial plaintext completed by the end of block m, under tweak m + 1, and the partial one is the start of block m under tweak m; the blocks before are as above |
| Xts.DecryptTailBytes | core/crypto/sm4.c:338-350 | the same for decryption, with tweak m + 1 first and tweak m second |
| Xts.EncryptAppend | core/crypto/sm4.c:304-324 | encryption of whole blocks a, then of b from the next tweak, is encryption of a + b |
| Xts.DecryptAppend | core/crypto/sm4.c:304-324 | the same for decryption |
| Sm4Modes.XexBlock | core/crypto/sm4.c:309-311 | byte i of the result is byte i of the transformed sum of block and tweak, plus byte i of the tweak |
| Sm4Modes.XtsLoop | core/crypto/sm4.c:308-324 | the loop transforms all whole blocks, block m between two additions of tweak m (`Xts.EncryptBytes`) |
| Sm4Modes.StealTailEnc | core/crypto/sm4.c:326-337 | the in-place tail of an encryption completes the data unit |
| Sm4Modes.StealTailDec | core/crypto/sm4.c:338-350 | the tail of a decryption completes the data unit, also when no block came before |
| Sm4Modes.CryptXts | core/crypto/sm4.c:295-351 | the output is XTS of the input in the context's direction, with the encrypted IV as first tweak; the saved IV is the block decryption of the next tweak for whole blocks, and unchanged otherwise |
| Sm4Runs.XtsRoundTrip | core/crypto/sm4.c:295-351 | for every key pair, IV and length of at least 16 bytes the plaintext comes back |
| Sm4Runs.XtsResume | core/crypto/sm4.c:304-324 | two calls joined by the saved IV write what one call on the concatenation writes, in both directions |
| Cts.RoundTrip | core/crypto/aes-cts.c:93-187 | decryption undoes encryption at every length above 16 bytes, full or partial last block, over any block permutation |
| Cts.EncryptAppend | core/crypto/aes-cts.c:104-138 | a call on whole blocks that is not the last, then a last call, encrypt the concatenation |
| Cts.DecryptAppend | core/crypto/aes-cts.c:104-185 | the same for decryption |
| Cts.EncryptIs | core/crypto/aes-cts.c:116-138 | the ciphertext is CBC of the zero-padded plaintext with the last two blocks swapped and the second of them cut to length |
| Cts.DecryptIs | core/crypto/aes-cts.c:139-185 | the plaintext is CBC decryption of the ciphertext with the partial block completed from the decrypted full one and the two swapped back, cut to length |
| Cts.Context.CbcUpdate | core/tee/tee_cryp_utl.c:99-154 | whole blocks go through CBC into the buffer and advance the chain; other lengths are refused with nothing changed |
| Cts.Context.Update | core/crypto/aes-cts.c:93-187 | each combination of last flag, length and direction gives the mode's result or the stated error with nothing changed |
| Cts.Context.EncryptTail | core/crypto/aes-cts.c:116-138 | the overlapping copies in the output buffer leave the swapped and truncated ciphertext |
| Cts.Context.DecryptTail | core/crypto/aes-cts.c:139-185 | completing the last block and decrypting in swapped order gives the plaintext |
| Cts.RoundTripRun | core/crypto/aes-cts.c:93-196 | encryption in two calls and decryption in two calls, cut at different blocks, return the plaintext |
| CbcMac.CbcEnd | core/crypto/cbc-mac.c:101-113 | the last block of CBC over a bundle is the chaining value after it |
| CbcMac.Split | core/crypto/cbc-mac.c:57-125 | cutting a message anywhere and carrying the rest over does not change chaining value or rest |
| CbcMac.Context.constructor | core/crypto/cbc-mac.c:42-55 | a new context has absorbed the empty message under a zero IV |
| CbcMac.Context.FillBlock | core/crypto/cbc-mac.c:67-81 | a completed buffered block is absorbed and the buffer is empty |
| CbcMac.Context.Bundle | core/crypto/cbc-mac.c:88-114 | one round absorbs at least a block, for every bundle size and malloc() outcome, and the digest is current when the loop ends |
| CbcMac.Context.Remember | core/crypto/cbc-mac.c:116-120 | less than a block is kept in the buffer behind what is there |
| CbcMac.Context.Update | core/crypto/cbc-mac.c:57-125 | exactly the new data joins the absorbed message |
| CbcMac.Context.PadLast | core/crypto/cbc-mac.c:132-144 | padding goes through update again and completes the message by section 6.3 of RFC 5652 |
| CbcMac.Context.Final | core/crypto/cbc-mac.c:127-153 | padded: always success; not padded: success exactly on positive multiples of the block length; the digest is the last CBC block |
| CbcMac.MacRun | core/crypto/cbc-mac.c:42-153 | result and digest depend only on the message, not on cuts, bundle size or malloc(), for every block length up to 16 |
| CbcMacFacts.PadBytes | core/crypto/cbc-mac.c:132-144 | the padding is one to n bytes, each of them of the value of their number, and completes a block |
| CbcMacFacts.FoldInTurn | core/crypto/cbc-mac.c:57-125 | one more block is added to the chaining value, byte by byte, and enciphered |
| CbcMacFacts.MacInTurn | core/crypto/cbc-mac.c:42-125 | the MAC of a single block is its encipherment, and that of one more block the encipherment of its sum with the MAC so far |
| CbcMacFacts.MacPadded | core/crypto/cbc-mac.c:132-144 | with padding the MAC is that of the message followed by p bytes of value p |
| Sm3.Split | core/crypto/sm3.c:176-208 | cutting a message anywhere and carrying the rest over does not change state or rest |
| Sm3.CountIff | core/crypto/sm3.c:188-191 | a carry noticed by comparing with the 64-bit addend is right if and only if the addend is below 2^32 or the low word carries once |
| Sm3.BitLength | core/crypto/sm3.c:223-227 | the bitwise or of the shifted words, written out, is the bit length in 64 bits |
| Sm3.Context.Init | core/crypto/sm3.c:38-51 | the context has absorbed nothing |
| Sm3.Context.ProcessBlocks | core/crypto/sm3.c:162-174 | the compression function is folded over the blocks |
| Sm3.Context.Count | core/crypto/sm3.c:188-191 | both words together count the bytes modulo 2^64 if and only if that condition holds, for every length of a piece |
| Sm3.Context.Update | core/crypto/sm3.c:176-208 | exactly the new bytes join the absorbed message |
| Sm3.Context.Final | core/crypto/sm3.c:217-243 | the digest is the fold over the message padded by section 5.2 of GM/T 0004-2012 |
| Sm3.OneShot | core/crypto/sm3.c:245-254 | the one-call form is the hash |
| Sm3.Context.HmacInit | core/crypto/sm3.c:256-279 | long keys are hashed, short ones filled with zeros, and the inner pad is absorbed |
| Sm3.Context.HmacFinal | core/crypto/sm3.c:286-297 | the outer hash over the outer pad and the inner digest |
| Sm3.HashRun | core/crypto/sm3.c:162-243 | however a message is cut into pieces below 2^32 bytes, SM3 is the fold over the padded message, at any total length |
| Sm3.HmacRun | core/crypto/sm3.c:256-309 | however a text is cut, the result is HMAC of section 2 of RFC 2104, for short, block-sized and long keys |
| Sm3Facts.FoldInTurn | core/crypto/sm3.c:162-174 | one more block takes the state through the compression function once more |
| Sm3Facts.PadBytes | core/crypto/sm3.c:217-233 | the padded message is the message, 0x80, fewer than 64 zeros, and eight bytes that read as the bit length modulo 2^64 |
| Sm3Facts.SerializeWord | core/crypto/sm3.c:235-242 | word i of a state stands at byte 4 i, big-endian |
| Sm3Facts.HashWord | core/crypto/sm3.c:38-51 | word i of the digest is word i of the state that the padded message leads to from the initial value |
| Sm3Facts.HmacIs | core/crypto/sm3.c:256-297 | the result is the hash of the key block under 0x5c followed by the hash of the key block under 0x36 and the text; the key block is the key or its digest with zeros behind |
| Sm3Facts.LongKey | core/crypto/sm3.c:261-265 | a key of more than 64 bytes stands for its digest |
| FortunaRing.WriterSlotIsFree | core/crypto/rng_fortuna.c:185-194 | the slot a writer fills is none of the unread ones |
| FortunaRing.PublishKeeps | core/crypto/rng_fortuna.c:194 | publishing begin makes exactly the filled slot the newest unread one |
| FortunaRing.AdvanceKeeps | core/crypto/rng_fortuna.c:209-217 | advancing end removes exactly the slot that was read |
| FortunaRing.NextInv | core/crypto/rng_fortuna.c:175-220 | every atomic step of either side, torn slot writes included, keeps the invariant and only extends what was accepted and popped; `FortunaQueue` says by what |
| FortunaRing.RunSafe | core/crypto/rng_fortuna.c:175-220 | in every state of every interleaving 1 to 8 slots are unread, and popped events followed by unread ones are the zero slot followed by the accepted events, once each and in order |
| FortunaRing.DrainsKept | core/crypto/rng_fortuna.c:248-265 | only the last event of a drain can be empty, whatever ends it |
| FortunaRing.RunDelivers | core/crypto/rng_fortuna.c:175-265 | in every state of every run the drains together have handed on a prefix of the non-empty accepted events, in order and without a gap |
| FortunaRing.FirstDrainStops | core/crypto/rng_fortuna.c:200-265 | the first drain that pops anything pops the all-zero slot, ends there and hands nothing on |
| FortunaQueue.PushTakes | core/crypto/rng_fortuna.c:178-192 | a push gives up if and only if all eight slots are unread, and otherwise goes on with its own source, pool and first min(4, n) bytes |
| FortunaQueue.PublishAppends | core/crypto/rng_fortuna.c:194 | publishing appends exactly that event to what was accepted and to the queue |
| FortunaQueue.Push | core/crypto/rng_fortuna.c:175-198 | from every state with an idle writer and a slot to spare there are the three steps that get the event accepted |
| FortunaQueue.PendingComes | core/crypto/rng_fortuna.c:175-220 | in every run, whatever the reader does, a push under way is still to come or was the next one accepted |
| FortunaQueue.AcceptedWasPushed | core/crypto/rng_fortuna.c:175-198 | in every run every accepted event is that of an earlier push into a ring that was not full |
| FortunaQueue.PopTakes | core/crypto/rng_fortuna.c:206-207 | a drain stops looking if and only if a single slot is unread |
| FortunaQueue.PopRemoves | core/crypto/rng_fortuna.c:209-219 | a pop takes the first event of the queue and no other, and the drain goes on unless that event is empty or was not taken |
| FortunaQueue.Pop | core/crypto/rng_fortuna.c:200-265 | from every state in which a drain looks at a ring with begin != end there are the three steps of a pop |
| FortunaSpec.RingReachesPools | core/crypto/rng_fortuna.c:175-265 | what a drain of any run leaves in the pools are exactly its non-empty events, all of them accepted by the ring |
| FortunaSpec.BitDecides | core/crypto/rng_fortuna.c:420-430 | once 2^(n-1) divides the count, one bit decides whether 2^n does |
| FortunaSpec.ExactlyDue | core/crypto/rng_fortuna.c:420-430 | the pools before the first one that is not due are exactly those whose power of two divides the count |
| Fortuna.Generator.IncCounter | core/crypto/rng_fortuna.c:74-79 | the two words count modulo 2^128 all increments since initialisation |
| Fortuna.Generator.EncryptCounter | core/crypto/rng_fortuna.c:315-338 | every encryption, failing or not, is recorded with its key and moves the counter on |
| Fortuna.Generator.GenerateBlocks | core/crypto/rng_fortuna.c:315-338 | on success the counter stream of the current key, on failure at most that many uses |
| Fortuna.Generator.GenerateRandomData | core/crypto/rng_fortuna.c:341-359 | on success exactly blen bytes of the counter stream |
| Fortuna.Generator.RestartPool | core/crypto/rng_fortuna.c:395-418 | the pool goes on from its own digest and the others are untouched |
| Fortuna.Generator.DrainPools | core/crypto/rng_fortuna.c:450-461 | exactly the pools n with 2^n dividing the count are drained, the rest untouched, and with 32-byte digests that of pool n stands at 32 n of the seed |
| Fortuna.Generator.MaybeReseed | core/crypto/rng_fortuna.c:432-474 | nothing changes when pool 0 is short or the rate is limited; otherwise the whole state is that of a reseed, and its key is unused |
| Fortuna.Generator.ReseedNow | core/crypto/rng_fortuna.c:444-473 | the new key is the hash of the digests of exactly the due pools, that of pool n at 32 n, each due pool goes on from its own digest, and the others are untouched |
| FortunaFacts.DigestsPrefix | core/crypto/rng_fortuna.c:450-461 | a further pool adds its digest behind the others |
| FortunaFacts.DigestAt | core/crypto/rng_fortuna.c:450-461 | with 32-byte digests that of pool n starts at byte 32 n |
| FortunaFacts.ReseedUses | core/crypto/rng_fortuna.c:444-473 | for any seed that has the digests of the due pools at 0, 32, 64 and so on: the new key is its hash, the count is one more modulo 2^32, the due pools go on from their digests, the others stay, and nothing counts for pool 0 |
| FortunaFacts.ReseedExists | core/crypto/rng_fortuna.c:444-461 | at every count at least one pool is due, those due are the first ones, and such a seed exists |
| FortunaFacts.RefreshedIff | core/crypto/rng_fortuna.c:432-443 | nothing is reseeded if and only if fewer than 64 bytes count for pool 0 or the rate is limited |
| FortunaFacts.RecordedBytes | core/crypto/rng_fortuna.c:226-236 | an event leaves a byte of source, a byte of length and at most 32 bytes of data |
| FortunaFacts.AbsorbedIs | core/crypto/rng_fortuna.c:222-246 | it goes to its own pool only, and its bytes count if that is pool 0 and 32 bits hold the sum |
| FortunaFacts.AbsorbInTurn | core/crypto/rng_fortuna.c:248-265 | events are absorbed one after the other |
| Fortuna.Generator.AddEvent | core/crypto/rng_fortuna.c:222-246 | a bad pool number changes nothing; on success the event joins its own pool only, and the length of pool 0 saturates instead of wrapping |
| Fortuna.Generator.DrainRing | core/crypto/rng_fortuna.c:248-265 | on success every event before the first empty one is in its pool |
| Fortuna.Generator.Draw | core/crypto/rng_fortuna.c:489-503 | output and next key are consecutive slices of one counter stream, and the next key is unused |
| Fortuna.Generator.FortunaRead | core/crypto/rng_fortuna.c:476-512 | the output is the counter stream under the reseeded or the old key; afterwards key, counter, pools and count are those of reseed, re-keying and drain in this order; the generator stays ready exactly on success |
| Fortuna.Generator.RngRead | core/crypto/rng_fortuna.c:514-531 | bytes and final state are those of the chain of parts, each of at most 1 MiB; a read on a generator that is not ready is refused and uses no key |
| FortunaSpec.PartsChain | core/crypto/rng_fortuna.c:476-531 | the first key of a read is the current one or that of a reseed, each further one the two blocks behind the part before or that of a reseed, and counter ranges do not overlap |
| FortunaFacts.PartByte | core/crypto/rng_fortuna.c:315-359 | byte 16 i + k of a part is byte k of the encrypted counter i further on, modulo 2^128, under the key of the part |
| FortunaFacts.PartsCover | core/crypto/rng_fortuna.c:514-531 | the parts of a read add up to its length, and all but the last are of 1 MiB |
| FortunaFacts.ReadOrder | core/crypto/rng_fortuna.c:476-512 | the reseed comes before the output, the next key is the two blocks behind it, and the events of the ring come last |
| Fortuna.Generator.Init | core/crypto/rng_fortuna.c:130-173 | refused on a ready generator; otherwise ready exactly on success, with the hash of the seed as unused key, counter one, empty pools and empty record |
| FortunaSpec.NoCounterTwice | core/crypto/rng_fortuna.c:74-79 | with at most 2^128 increments all encrypted counter values differ |
| Fortuna.Run | core/crypto/rng_fortuna.c:130-531 | over any run of reads and events with any failures: no counter value encrypted twice, at most 65538 blocks per key, and after a failing read every later one is refused |
| Loader.ElfQueue.FindElf | ldelf/ta_elf.c:90-99 | found exactly when the UUID is queued |
| Loader.ElfQueue.QueueElf | ldelf/ta_elf.c:62-88 | appended exactly when it was not queued |
| Loader.ElfQueue.AddDependencies | ldelf/ta_elf.c:1029-1092 | afterwards everything the binary needs is queued behind the old entries in the order in which it is needed, and nothing unreachable was added |
| Loader.AppendedExtends | ldelf/ta_elf.c:1029-1092 | old entries stay in place, new ones come from the list, once each, in the order of their first mention |
| Loader.ElfQueue.LoadDependency | ldelf/ta_elf.c:1305-1327 | the dependencies of the entry are queued, for the main binary because they were before |
| Loader.ClosedFollows | ldelf/main.c:154-165 | a closed list holds the end of every dependency path that starts in it |
| Loader.ExactClosure | ldelf/main.c:154-165 | a closed list of reachable binaries that holds the roots is exactly their transitive closure |
| Loader.ElfQueue.LoadFrom | ldelf/main.c:159-160 | the loop over the list it extends ends for every finite, also cyclic, graph and leaves the list closed |
| Loader.ElfQueue.Ldelf | ldelf/main.c:137-165 | the queue holds exactly the transitive DT_NEEDED closure of the main binary, each UUID once, main first |
| Loader.ElfQueue.AddLibrary | ldelf/ta_elf.c:1599-1630 | the old queue stays a prefix, and the new queue is the closure of the old roots and the library |
| Segments.ImageMerge | ldelf/ta_elf.c:672-692 | merging keeps order, sizes, flags union, coverage and the shift of the first original |
| Segments.ImageAlign | ldelf/ta_elf.c:694-711 | aligning a separate segment keeps all of these and its own vaddr minus offset |
| Segments.Elf.Merge | ldelf/ta_elf.c:672-692 | case 1 either extends the image by the merged original or meets exactly a failing assert |
| Segments.Elf.Align | ldelf/ta_elf.c:694-711 | case 2 and the alignment either extend the image by a segment of its own or meet exactly a failing assert |
| Segments.OneOwner | ldelf/ta_elf.c:620-714 | a non-empty original range lies in one result segment only |
| Segments.MergedShiftIff | ldelf/ta_elf.c:672-692 | a merged original keeps its vaddr minus offset if and only if it had that of the first original of its segment |
| Segments.Elf.SanityCheck | ldelf/ta_elf.c:629-649 | passes exactly on lists that are aligned alike, congruent, ordered in memory and file, and not overflowing |
| Segments.Elf.AdjustSegments | ldelf/ta_elf.c:620-714 | it ends; it succeeds exactly on sane lists without a merge across low bits or a zero-initialised tail and without a read-only page mapped twice; the result is ordered, page-aligned after the first, covers every original, with the flags union, filesz <= memsz, unmerged shifts unchanged, the remapping mark exactly where a page is mapped twice, and start, end, zero-initialised tail and alignment those of its first and last original |
| Segments.ResultUnique | ldelf/ta_elf.c:620-714 | for a given list there is only one result, and one assignment of originals to segments, that meets all this |
| Segments.SharedFilePage | ldelf/ta_elf.c:694-711 | two segments with a page of the file in common: accepted if and only if the second is writeable, which is then mapped from the start of that page and marked |
| Segments.LowBitsDecide | ldelf/ta_elf.c:672-692 | two segments on one page, k pages further apart in the file than in memory and aligned to 64 KiB: accepted if and only if k is a multiple of 16 |
| Segments.MisplacedMerge | ldelf/ta_elf.c:672-692 | a concrete list that passes every assert although its second segment moves in the file |
| Symbols.ComputeGnuHash | ldelf/ta_elf_rel.c:35-44 | the shift-and-add loop is h * 33 + c modulo 2^32 folded over the name |
| Symbols.ComputeElfHash | ldelf/ta_elf_rel.c:19-33 | the loop is the gABI hash folded over the name; its top four bits are always clear |
| Lookups.ElfHashIs | ldelf/ta_elf_rel.c:19-33 | one more character: 16 h + c in 32 bits, whose top four bits are cleared and added to bits 4 to 7 |
| Lookups.GnuHashIs | ldelf/ta_elf_rel.c:35-44 | one more character: 33 h + c modulo 2^32, from 5381 on |
| Symbols.BloomSound | ldelf/ta_elf_rel.c:150-168 | a name the bloom filter rejects is not found by a linear scan either |
| Symbols.BucketSound | ldelf/ta_elf_rel.c:171-173 | a scan from symoffset arrives at the bucket's entry, or the name is not there |
| Symbols.LinkSound | ldelf/ta_elf_rel.c:182-188 | a link that does not answer is passed over by the scan too |
| Symbols.LastLink | ldelf/ta_elf_rel.c:189 | behind the end mark of the bucket the scan finds nothing |
| Symbols.ResolveGnu | ldelf/ta_elf_rel.c:140-189 | for a well-formed DT_GNU_HASH table the outcome is that of a linear scan from symoffset, with the same first match |
| Symbols.ResolveSysv | ldelf/ta_elf_rel.c:190-209 | for every acyclic DT_HASH table the outcome is the first answer along the chain of the name's bucket |
| Symbols.SysvExact | ldelf/ta_elf_rel.c:190-209 | for a well-formed DT_HASH table that chain answers with a match exactly when some symbol matches |
| Lookups.FoundIff | ldelf/ta_elf_rel.c:46-132 | a look-up answers with symbol n and value v if and only if n is the first in order with the name, an allowed binding and something to stand for, and v is zero if it is weak undefined, its offset if thread-local, and otherwise its address within the module |
| Lookups.AbortIff | ldelf/ta_elf_rel.c:46-90 | it fails for good if and only if that first symbol has an unsupported type or lies beyond the module |
| Lookups.NotFoundIff | ldelf/ta_elf_rel.c:134-212 | it finds nothing if and only if no listed symbol has the name, an allowed binding and something to stand for |
| Lookups.OrderHasAll | ldelf/ta_elf_rel.c:134-212 | whichever hash table is used, the order has every listed symbol of the name and only listed ones |
| Lookups.OnlyOne | ldelf/ta_elf_rel.c:134-212 | a symbol that is alone with its name and binding is found with its value |
| Lookups.BloomNeedsBoth | ldelf/ta_elf_rel.c:150-158 | the filter for "f" with shift 6 asks for bits 11 and 24 of the word, and for both |
| Lookups.SysvSingleFound | ldelf/ta_elf_rel.c:190-209 | a concrete DT_HASH module whose data symbol is found at its load address |
| Resolve.ResolveSymHelper | ldelf/ta_elf_rel.c:134-212 | a module answers by its DT_GNU_HASH table, else by DT_HASH, else not at all |
| Resolve.ResolveSym | ldelf/ta_elf_rel.c:222-248 | the given module and then the queue are asked in order; the first that answers decides, with a global symbol if it has one |
| Lookups.FirstModuleIs | ldelf/ta_elf_rel.c:222-248 | the first module that is not silent decides, with its global symbol if it has one and else with its weak one |
| Lookups.UnresolvedIff | ldelf/ta_elf_rel.c:222-248 | the search fails if and only if every module is silent |
| Resolve.DescribedIff | ldelf/ta_elf_rel.c:214-248 | over a list of modules this is the documented order of three tiers if and only if, from the first module on that answers, no weak symbol comes before a global one and no weak undefined one before a defined one |
| Resolve.DocumentedIff | ldelf/ta_elf_rel.c:214-248 | with the documented scope as well: a silent given module must be followed by a silent queue |
| Resolve.TierTwo | ldelf/ta_elf_rel.c:59-67 | a module's weak answer is that of its defined symbols unless it is the zero of a weak undefined one |
| Resolve.LastTierIsZero | ldelf/ta_elf_rel.c:214-220 | when neither a global nor a defined symbol exists, the documented answer is zero or none |
| Resolve.WeakHidesGlobal | ldelf/ta_elf_rel.c:214-248 | two concrete modules where the weak symbol of the first hides the global one of the second |
| Resolve.ZeroHidesDefined | ldelf/ta_elf_rel.c:214-248 | two concrete modules where the weak undefined symbol of the first hides the one that the second defines |
| Resolve.SilentFallsThrough | ldelf/ta_elf_rel.c:214-248 | a given module without the symbol, which the code then finds in the queue |
| Dvfs.CpuOpp.SetClockThenVoltage | core/drivers/stm32_cpu_opp.c:158-187 | going down, state and every recorded instant are those of a failed first call, a roll-back that may fail, or the move |
| Dvfs.CpuOpp.SetVoltageThenClock | core/drivers/stm32_cpu_opp.c:189-219 | the same going up, with the voltage restored when the clock does not follow |
| Dvfs.CpuOpp.SetLevel | core/drivers/stm32_cpu_opp.c:512-548 | refused exactly for unknown levels; an error only after a failing call and with the current operating point kept; after success the hardware is in step exactly if it moved or was in step before; every instant is at rest if and only if the move is none or down at equal voltage |
| Dvfs.WindowIff | core/drivers/stm32_cpu_opp.c:537-543 | between hardware and software commit the rest condition holds exactly for a move down at equal voltage |
| Dvfs.InstantsRest | core/drivers/stm32_cpu_opp.c:158-219 | whatever fails, all instants of a request are at rest except the arrival of a move, and that one exactly when the move is quiet |
| Dvfs.StrandedIff | core/drivers/stm32_cpu_opp.c:158-219 | a request takes the hardware out of step if and only if the second call and the roll-back both fail after something changed |
| Dvfs.StrandedClock | core/drivers/stm32_cpu_opp.c:158-187 | a concrete request for the current level that succeeds with the clock at the lower rate |
| Dvfs.StaleWindow | core/drivers/stm32_cpu_opp.c:537-543 | a plain step up passes through an instant where it does not hold |
| Dvfs.Run | core/drivers/stm32_cpu_opp.c:158-548 | over any sequence of levels and failures the voltage carries the clock at every instant and the end is at rest; every instant is at rest if and only if all requests that go through are quiet |

## Left out

- Buffers: outputs of GCM, CBC-MAC, SM3 and Fortuna are returned as values, so overlap of source and destination, which the code does not support for partial blocks, is not modelled.
- SM4 modes and CTS write into an output array that is distinct from the input; the IV or counter that the code updates in place is returned.
- AES, the SM4 S-box contents and the SM3 compression function: arbitrary functions; the theorems hold for all of them.
- GCM key expansion and its failure, `internal_aes_gcm_dec_ctr()`, copying and freeing of contexts, and the accelerated back ends.
- Gcm.State.UpdatePayload: the direction is fixed at initialisation; the per-call mode argument of the code is required to agree with it.
- GcmNist.CodeIsNist: one direction; that the conditions are also necessary is proved separately for counters (CountersAgreeIff) and for lengths (CodeLenIff), because equal tags can coincide.
- SM4 ECB and the wrappers around the SM4 and SM3 functions.
- Cts.Context.CbcUpdate: the AES-CBC context below `tee_do_cipher_update()` belongs to another library and is taken by its specification.
- Cipher errors inside CTS and CBC-MAC: the block cipher does not fail there; `int` overflow of the block count in CTS.
- Sm3.Context.Update: pieces of 2^32 bytes or more, whose block count times 64 overflows the code's 32-bit product, are excluded, and so in OneShot, HmacInit and HmacRun.
- FortunaRing.RunSafe: sequentially consistent steps; the reader's reads of one slot are a single step, and the writer's stores may be torn arbitrarily.
- Fortuna.Generator.FortunaRead: the events of the drain and the rate limiter are parameters; `FortunaSpec.RingReachesPools` says which events a drain of the ring supplies. `get_next_pnum()` is left out.
- Fortuna.Run: events are added to a ready generator only; without its hash contexts the code has nothing to add them to.
- Loader.ElfQueue.AddLibrary: errors of the later init/fini and program header updates, which do not touch the queue, are not modelled.
- Loader: parsing of dynamic sections, mapping, relocation, TLS and `err()`, which ends the loading.
- Segments.Elf.AdjustSegments: bitwise and with the alignment mask is an arbitrary function, since only the asserts and the remapping mark depend on it.
- Symbols.ResolveGnu: 32-bit wrap of symbol indices is not modelled; a table whose size does not fit its chain reads one arbitrary word past the end, as the bound of the code allows.
- Dvfs: device-tree initialisation, power management resume and the MPU_RAM_LOW_SPEED bit; every failing clock or regulator call leaves the hardware as it was.
- Constant-time behaviour, zeroisation, speculation barriers, allocation failure other than in CBC-MAC and the library queue, drivers that only access registers, and the Python scripts.
