# A verified model of a vendor U-Boot

The repository is a boot loader. Most of it drives registers; this project models the parts that
carry algorithms and state, and proves what they are for:

- the secure-boot check: Montgomery RSA on word arrays (`Montgomery.dfy`, `Rsa.dfy`), the key
  maker of the signing script (`SignKey.dfy`), SHA-256 streaming over a hardware engine
  (`Sha256.dfy`), and the whole two-image run over a memory image (`SecureVerify.dfy`);
- the NAND bad-block layer: the relocation table (`Relocation.dfy`), reading, writing, erasing, the
  rotating table slots and their reloading on a device whose programs, erases and reads may fail in any pattern
  (`NandDriver.dfy`, with six runs in `NandRuns.dfy`), and the one-bit ECC decoder (`NandEcc.dfy`);
- CRC-32 in its align/word/tail form against the bit-serial definition (`Crc32.dfy`) and the literal
  table (`CrcTable.dfy`);
- the GPT writer and reader down to the bytes on disk (`GptFormat.dfy`, `GptLayout.dfy`,
  `Gpt.dfy`) and GUID text (`Uuid.dfy`);
- number formatting, parsing and 64-bit division (`NumberText.dfy`, `Vsprintf.dfy`, `Div64.dfy`).

`BigNum.dfy` holds multi-word numbers and congruences. `dafny verify dfyconfig.toml` checks
everything. What the specification functions mean is pinned from outside where a standard or a second
reader allows it: check values, residues, published constants, byte offsets, and texts that must read back.
Code that works in place stays in place: word arrays, byte buffers, digit buffers,
the flash device, the disk, the hash context and the verifier's globals are arrays or classes, and
each such method is tied to a specification function or to the property itself.

## Main results

1. `Rsa.ModPow`: for every key and every input string, even one whose value is not below the modulus,
   `modpow` computes one number, and with the right `n0inv` and `rr` and `R/2 <= n < R` that number is
   `s^e mod n` (RSAVP1, section 5.2.2 of RFC 8017). `SignKey.DumpKey` makes such keys for every odd
   modulus whose bit length is a multiple of 32.
2. `SecureVerify.Verifier.Run`: over a whole run and for every memory content, acceptance is equivalent
   to the checks holding on both images, and if the fuses name a good key record, an accepted image
   carries that record and is signed with its key, or a digest collision is exhibited.
   `SecureVerify.SignedImageVerifies` joins key maker, file layout, RSA and SHA-256 end to end.
3. `NandDriver.Nand.Write` with `Read`: whatever operations fail, a successful write to blank logical
   pages reads back through the table and leaves every other page as it was, or blank if its block
   moved; without a failure nothing moves. `Relocation.FindRealBlock` terminates at the true chain end
   although it restarts at index 1.
4. `NandDriver.Nand.WriteBbt` and `LoadTable`: while the last erase of block 0 has not failed, no slot is
   programmed again after a successful program until block 0 is erased; recycling block 0 keeps its data;
   and a restart finds the position in the slots again, and the table exactly if it is still the first one
   saved since block 0 was erased (`Relocation.ReloadExact`).
5. `Crc32.ComputeCrc32`, `Crc32.CrcDetectsBurst`: the fast code is the bit-serial CRC (section 8 of
   RFC 1952) for every alignment and length, with the computed and with the literal table, and any
   change confined to 32 consecutive bits is detected; `Crc32.Residue` and `Crc32.CheckValue` fix its constants.
6. `Gpt.RestoredIsValid`, `Gpt.RestoredInfo`, `Gpt.RestoredSpan`: what `gpt_restore` writes is
   accepted at both header addresses and looked up as requested. `GptLayout.AcceptedExactly` says which
   requests are accepted and `Gpt.SealedExactly` which headers; `Gpt.HeaderDamageWindow` and
   `Gpt.TableDamageRejected` carry the CRC result up to the partition table.
7. `Sha256.Hasher.HashPieces`: every way of cutting a message into updates gives the digest of the
   padded message (section 5.1.1 of FIPS 180-4), up to the length at which the engine restarts, which
   `Sha256.DigestExactly` gives in bytes.
8. `NumberText.FieldReads`, `NumberText.FieldRoundTrip`, `Vsprintf.PutDec`, `Div64.Div64By32`: printing and
   parsing are inverse, signs and blanks included, the reciprocal-multiply digit code is exact, and division
   never wraps.
9. `NandEcc.UndamagedAccepted` to `NandEcc.TwoDataBits`: what the decoder accepts, repairs, ignores and reports.

## Where the code does less than one would expect

Each of these comes with a concrete case and with the exact condition under which the code is right.

- A `0X` prefix (alternate form, base 16, capitals) is not read back: `NumberText.FieldRoundTrip` holds if
  and only if that combination is not used.
- The key maker writes as many words as the bit length has whole words: for a length that is no multiple of 32
  the modulus loses its top bits, and exactly then: `SignKey.DumpKey`, `SignKey.LostTopBit`.
- `updateNum` is 32 bits wide, so after 2^32 blocks the engine restarts from the initial value:
  `Sha256.EngineIsChainExactly`, `Sha256.WrapIsVisible`. In bytes, digests are right up to 64*2^32 - 9:
  `Sha256.DigestExactly`.
- The length of a hash is an `int`: from 2^31 bytes on another string than the padded message is hashed,
  and exactly from there: `Sha256.HashedExactly`.
- The first relocation table is built with the default reserve of 127 entries and the reserve is narrowed
  afterwards; two logical blocks then share a physical one exactly when the table reached below the
  narrower area: `Relocation.NarrowedInjective`, `Relocation.NarrowingCollides`.
- A failed write replays only the pages of the call. If every page outside the run in a touched block is
  blank, in particular for whole blocks, nothing is lost whatever fails (`NandDriver.Nand.NothingLost`,
  `NandDriver.Nand.WholeBlocks`). Otherwise some page is lost when the first program to fail is that of a
  page of the run in its block (`NandDriver.Nand.SomethingBeside`, `NandDriver.Nand.NeighbourLost`), and
  with a spare left a single fault of this kind does not make the write fail (the `Recovers` clause of
  `Write`); `NandRuns.LosesNeighbour` is such a run.
- `nand_erase` erases physical block 0. A successful erase from block 0 blanks logical block 0 outside the
  slots if and only if no table entry has moved it, or it was blank already (`NandDriver.Nand.NandErase`);
  `NandRuns.EraseMissesZero` is a run in which it does not.
- `nand_erase` resets the next slot before it erases block 0. While that erase has failed a slot may be
  programmed again: `NandRuns.SlotReused`; in all other states `NandDriver.Nand.WriteBbt` excludes it.
- When the program of a slot fails, `bbt_slot` stays, and the next save programs the torn page again:
  `NandRuns.TornSlot`. A save that reports success has stored the table if the page of its slot was blank
  before, as it is in every state with `TableReady`; otherwise the device decides what the page holds.
- `load_bbt` copies the header of each later table but not its entries, so after a restart the table has
  the newest total and the oldest entries. Every block is looked up as before the restart if and only if the
  table has not grown since it was first saved after the last erase of block 0: `Relocation.ReloadExact`,
  `NandDriver.Nand.LoadTable`. `NandRuns.ReloadForgets` is a run in which a saved relocation is forgotten.
- `gpt_fill_pte` keeps its offset in 32 bits: an accepted request is laid out as asked if and only if no
  offset wraps: `GptLayout.LayoutExact`, `GptLayout.WrapAccepted`.
- Four damaged bytes of a GPT header that take in the CRC field can pass: `Gpt.HeaderDamageSlips`. A change
  within four bytes that leaves the header size alone is accepted if and only if it changes the CRC field,
  and into the old checksum changed by the image of the change (`Gpt.HeaderDamageWindow`), which is one
  stepped word (`Gpt.ChangedCrcByWord`). `Gpt.HeaderDamageExact` is the same for any change of bytes 16 to 23.
- Two flipped data bits whose addresses differ in exactly six bits pass the ECC check with wrong
  data: `NandEcc.TwoDataBits`, `NandEcc.TwoBitsSlipThrough`.

## Model

| member | source | states |
|---|---|---|
| Montgomery.SubM | secure_verify/rsa.c:32-41 | the array's value drops by the modulus, modulo R when it would go negative |
| Montgomery.GeM | secure_verify/rsa.c:44-53 | true exactly when the array's value is at least the modulus |
| BigNum.ValueLess | secure_verify/rsa.c:47-51 | the most significant differing word decides the order of two equally long numbers |
| Montgomery.FirstColumn | secure_verify/rsa.c:60-62 | the first column sets up the loop state, up to the low word that is dropped; with n0inv = -1/n[0] that word is zero |
| Montgomery.NextColumn | secure_verify/rsa.c:65-69 | one inner turn keeps, for every key: words written plus outstanding carries, shifted by one word, plus the dropped word equal c + a*b + d0*n over the columns done; no sum leaves 64 bits |
| Montgomery.LastColumn | secure_verify/rsa.c:71-77 | the words and the carry out are the quotient of c + a*b + d0*n by 2^32; with a carry the words are below n |
| Montgomery.OneSubtractionSuffices | secure_verify/rsa.c:71-77 | (c + a*b + d0*n)/2^32 is below R + n when c and b are below R, so one subtraction brings it below R |
| Montgomery.MontMulAdd | secure_verify/rsa.c:56-78 | for every key the array's value becomes `Step`: (c + a*b + d0*n) / 2^32, less n when that reaches R |
| Montgomery.StepAdvances | secure_verify/rsa.c:56-78 | for n0inv*n = -1 (mod 2^32) the step is a division: 2^32*c' = c + a*b (mod n), and c' stays below R |
| Montgomery.MontMul | secure_verify/rsa.c:81-92 | for every key the array's value becomes `Mul`, one step for each word of a |
| Montgomery.MulIsProduct | secure_verify/rsa.c:81-92 | for a right n0inv the Montgomery product c satisfies R*c = a*b (mod n) and c < R, for all a, b below R |
| Rsa.WordsOfValue | secure_verify/rsa.c:105-112 | reading big-endian bytes into little-endian words keeps the number |
| Rsa.ReadWords | secure_verify/rsa.c:105-112 | the word array gets the number that the bytes spell |
| Rsa.WriteWords | secure_verify/rsa.c:135-141 | the bytes spell the number that the words hold |
| Rsa.BaseInverse | secure_verify/rsa.c:61-62 | n0inv*n = -1 (mod 2^32) yields an inverse of 2^32 modulo n |
| Rsa.CancelR | secure_verify/rsa.c:81-92 | R*c = R*x (mod n) implies c = x (mod n): Montgomery products are determined |
| Rsa.EnterDomain | secure_verify/rsa.c:116 | the product with rr = R^2 is s*R (mod n) |
| Rsa.SquareInDomain | secure_verify/rsa.c:117-120 | squaring x*R gives x^2*R (mod n) |
| Rsa.LeaveDomain | secure_verify/rsa.c:121 | the product of x*R with s is s*x (mod n) |
| Rsa.Exponent65537 | secure_verify/rsa.c:114-121 | for every key: the product with rr, sixteen Montgomery squarings and the product with s |
| Rsa.Exponent3 | secure_verify/rsa.c:122-127 | for every key: the product with rr, one squaring and the product with s |
| Rsa.SquaredIsPower | secure_verify/rsa.c:116-120 | k squarings of s*R stand for s^(2^k) in the Montgomery domain |
| Rsa.ChainIsPower | secure_verify/rsa.c:121-126 | the whole chain is s^(2^k + 1) modulo n and below R |
| Rsa.Reduced | secure_verify/rsa.c:129-132 | one conditional subtraction reduces a value below R fully when R <= 2n |
| Rsa.ModPowIsPower | secure_verify/rsa.c:96-142 | for a key made for its modulus the computed number is s^e modulo n, and the least residue when R <= 2n |
| Rsa.ModPow | secure_verify/rsa.c:96-142 | for every key and input the bytes become those of the computed number; with right n0inv and rr that is s^e modulo n, and the least residue when R <= 2n |
| SignKey.ExtendedGcd | images/sign.py:21-28 | g = aa*x + bb*y, g is not negative and divides both, for all integers |
| SignKey.ModInv | images/sign.py:30-34 | a result is an inverse below m; ValueError only when no inverse exists |
| SignKey.OddCoprime | images/sign.py:41-42 | an odd modulus has no factor in common with 2^32 but 1 |
| SignKey.LowWordsValue | images/sign.py:53-58 | the words written have the number as their value when it fits |
| SignKey.DumpWords | images/sign.py:61-66 | the loop writes exactly the low words, least significant first |
| SignKey.KeyIsMade | images/sign.py:36-71 | N0inv and RR of an odd modulus with bit length 32k satisfy everything modpow needs, R <= 2n included |
| SignKey.DumpKey | images/sign.py:36-71 | succeeds exactly on odd moduli, and writes a key made for the modulus, or one with this modulus at all, if and only if the bit length is a multiple of 32 |
| SignKey.LostTopBit | images/sign.py:39-58 | the key written for the modulus 2^32 + 1 has the modulus 1 |
| Sha256.EngineIsTailChain | secure_verify/sha256.c:95-104 | the engine holds the chain over the blocks since updateNum last was 0 |
| Sha256.EngineIsChain | secure_verify/sha256.c:95-104 | up to 2^32 blocks the engine computes the hash chain from the initial value |
| Sha256.EngineIsChainExactly | secure_verify/sha256.c:95-104 | below 2^64 blocks, it does so for every compression function if and only if there are at most 2^32 |
| Sha256.WrapIsVisible | secure_verify/sha256.c:95-104 | a compression function that counts blocks shows the wrong state for every longer message |
| Sha256.Hasher.Init | secure_verify/sha256.c:115-126 | the context is empty; it is in step with the engine only when updateNum is 0 |
| Sha256.LoadBlock | secure_verify/sha256.c:69-75 | the sixteen words of the buffered block |
| Sha256.WordsAreBytes | secure_verify/sha256.c:69-75 | word t has the value of bytes 4t to 4t + 3, most significant first |
| Sha256.Hasher.Transform | secure_verify/sha256.c:64-105 | one compression of the buffered block, from the initial value when updateNum is 0; updateNum grows by one modulo 2^32 |
| Sha256.Hasher.Update | secure_verify/sha256.c:129-145 | the bytes fed are appended; full blocks have gone to the engine, the rest is in the buffer; a chunk of 2^31 bytes or more is counted 2^32 short, since the length is an int |
| Sha256.Hasher.PadZeros | secure_verify/sha256.c:153-156 | 0x80 and the least number of zeros that leaves 56 modulo 64 |
| Sha256.Hasher.PutLength | secure_verify/sha256.c:157-160 | the bit length in eight big-endian bytes |
| Sha256.PaddedMessage | secure_verify/sha256.c:147-161 | the padding of FIPS 180-4: whole blocks and no more than needed, 0x80, zeros, and eight bytes whose value is the bit length |
| Sha256.Hasher.Final | secure_verify/sha256.c:147-180 | the digest is the engine's state over the message padded with the length as counted, whatever the updates were |
| Sha256.DigestWords | secure_verify/sha256.c:162-178 | bytes 4i to 4i + 3 of the digest have the value of register i |
| Sha256.InitialValue | secure_verify/sha256.c:95-96 | the initial value is made of the fractional parts of the square roots of the first eight primes |
| Sha256.Hasher.Hash | secure_verify/sha256.c:184-189 | with updateNum 0 the result is the SHA-256 value of the data when its length fits an int; otherwise that of the padding with the length counted short |
| Sha256.HashedExactly | secure_verify/sha256.c:129-160 | the string that is hashed is the padded message if and only if the length is below 2^31 |
| Sha256.Hasher.HashPieces | secure_verify/sha256.c:129-180 | every split into updates gives the engine's result on the padded concatenation, and up to 64*2^32 - 9 bytes its digest |
| Sha256.DigestExactly | secure_verify/sha256.c:95-180 | below 2^64 padded blocks, the engine's result is the digest for every compression function if and only if the message has at most 64*2^32 - 9 bytes |
| SecureVerify.CopyIsBytes | secure_verify/secure_verify.c:57-65 | words copied from memory have the bytes of memory |
| SecureVerify.LoadIsLittleEndian | secure_verify/secure_verify.c:55 | a word read from memory has the value of its four bytes, least significant first |
| SecureVerify.RecordRoundTrip | images/sign.py:48-71 | a key record read back is the key |
| SecureVerify.KeyInMemory | secure_verify/rsa.h:37-43 | where the fields of the key record are read from memory, by byte offset |
| SecureVerify.LayoutRoundTrip | secure_verify/secure_verify.c:43-67 | a signed file in memory is read as its own length, signature, key and image |
| SecureVerify.SignedPlaces | images/sign.py:90-123 | where length, signature, key record and image stand in a signed file, by byte offset; the rest of its head is zero |
| SecureVerify.XorIsBitwise | secure_verify/rsa.c:193-195 | the exclusive or of bytes, bit by bit |
| SecureVerify.AcceptsMeansPadded | secure_verify/rsa.c:192-215 | a signature that opens to padding and hash is accepted; an accepted one opens so, or exhibits two strings with the same digest |
| SecureVerify.ComputedIsOpened | secure_verify/rsa.c:186-190 | for a sound key with R <= 2n what modpow makes of the signature is s^e mod n, as 256 bytes |
| SecureVerify.PassesIsSigned | secure_verify/decode.c:132-139 | with a good key record, passing RSA_verify is the same as carrying a signature of the image |
| SecureVerify.FusesNameOne | secure_verify/decode.c:56-96 | the eight fuse words determine the digest they match |
| SecureVerify.FusesAreBytes | secure_verify/decode.c:56-86 | the fuses match a digest if and only if their words as bytes are the digest |
| SecureVerify.TrustedIsGenuine | secure_verify/decode.c:109-140 | if the fuses name a good record, an image that passes carries that record and is signed with its key, or two different records with the same digest are exhibited |
| SecureVerify.SignedImageVerifies | images/sign.py:90-123 | an image signed with a 2048-bit key of the signing script, whose key the fuses name, passes every check of the run |
| SecureVerify.Verifier.GetVerifyImage | secure_verify/secure_verify.c:43-67 | the globals hold the length, the 64 signature words, the 131 key words and the image address |
| SecureVerify.Verifier.PubKeyVerify | secure_verify/decode.c:51-102 | true exactly when the eight fuse words are the digest of the 524 key bytes |
| SecureVerify.Verifier.OpenAndMask | secure_verify/rsa.c:186-195 | for every key the buffer is the computed number's bytes with the hash xored into the end |
| SecureVerify.Verifier.RsaVerify | secure_verify/rsa.c:160-216 | for every key: true exactly for 64 words of modulus, 256 and 32 bytes, exponent 3 or 65537 and a masked result with the padding digest; for a sound key exactly the signatures that open to padding and hash |
| SecureVerify.Verifier.ImageVerify | secure_verify/decode.c:109-140 | updateNum is 0 before each of the three hashes; for every memory content, true exactly when the fuses match and RSA_verify's checks hold |
| SecureVerify.Verifier.Run | secure_verify/secure_verify.c:77-94 | for every memory content the run succeeds exactly when both images are trusted and pass; success makes both genuine against any good record that the fuses name |
| Relocation.TableBounded | drivers/nand/comip_nand.c:1187-1203 | a well-formed table has at most as many entries as the reserved area has blocks |
| Relocation.LaterFrom | drivers/nand/comip_nand.c:1199-1203 | a target that is relocated again is so only by a later entry |
| Relocation.FollowEntry | drivers/nand/comip_nand.c:1214-1215 | following one matching entry does not change where the chain ends |
| Relocation.ChainEnd | drivers/nand/comip_nand.c:1208-1223 | the lookup's result is the one block reachable along entries that is not relocated itself |
| Relocation.ResolveInjective | drivers/nand/comip_nand.c:1208-1223 | two logical blocks never share a physical block |
| Relocation.TableOkAppend | drivers/nand/comip_nand.c:1199-1203 | appending a chain end with a fresh lower target keeps the table well formed |
| Relocation.FindRealBlock | drivers/nand/comip_nand.c:1208-1223 | terminates and returns the chain end although it restarts at index 1, also when entries that were never filled in follow the table |
| Relocation.NarrowedInjective | drivers/nand/comip_nand.c:1322-1326 | after narrowing the reserve the lookup is injective, and the table well formed for the narrower area, if and only if the table has not reached below it |
| Relocation.NarrowingCollides | drivers/nand/comip_nand.c:1322-1326 | on 1024 blocks, the last twenty of them bad: the default reserve of 127 moves bad block 1 to block 1003, an ordinary block under the narrowed reserve of twenty |
| Relocation.ReloadExact | drivers/nand/comip_nand.c:1302-1311 | the loaded table, the oldest entries under the newest total, looks every block up as the saved one does if and only if the saved one is still the oldest |
| NandDriver.Nand.constructor | drivers/nand/comip_nand.c:1257-1263 | the empty table that create_bbt starts from: changed, next slot the last page, not full; it satisfies the invariant on any content |
| NandDriver.Nand.CheckBlock | drivers/nand/comip_nand.c:1042-1063 | good only for an unmarked block; an unmarked block is refused only by a failing read |
| NandDriver.Nand.MarkBad | drivers/nand/comip_nand.c:1331-1342 | only pages 0 and 1 of the block change, and the block is marked if its mark sticks |
| NandDriver.Nand.LastTarget | drivers/nand/comip_nand.c:1172-1184 | the search starts at the last target, or at the end of the chip |
| NandDriver.Nand.NextSpare | drivers/nand/comip_nand.c:1186-1196 | finds an unmarked, erased reserved block below the start, having passed over marked blocks only unless an operation failed |
| NandDriver.Nand.RelocateBlock | drivers/nand/comip_nand.c:1161-1206 | appends one entry to the nearest good spare, which is blank, and touches only unused reserved blocks; fails only when none is left |
| NandDriver.Nand.CreateBbt | drivers/nand/comip_nand.c:1250-1279 | all marked logical blocks are relocated, and without a fault only they; the physical rows below the reserve are untouched; the next slot is the last page; fails without a fault only when the spares are used up |
| NandDriver.Nand.WritePages | drivers/nand/comip_nand.c:1514-1560 | on success every page shows its data; in block 0 the slots are never programmed; pages outside the run keep their content |
| NandDriver.Nand.WriteBlock | drivers/nand/comip_nand.c:1505-1570 | write, mark, relocate and retry ends with the pages stored in the block's present home; its other pages are kept, or blank if it moved; no other logical block changes; the blocks given up are marked as far as their marks stick |
| NandDriver.Nand.Write | drivers/nand/comip_nand.c:1476-1582 | for every pattern of failures: success means every page of the run shows its data; every other page holds what it held, or is blank because its block has moved; only blocks with a programmed page move, that of the first program to fail does, and a run that programs nothing moves nothing; failure spoils at most one block and, with a spare left, takes two faults; without a fault it succeeds and moves nothing; every block given up is marked, as far as marks stick; slots are kept and a changed table is flagged |
| NandDriver.Nand.BesideStep | drivers/nand/comip_nand.c:1505-1570 | one block's share keeps the pages beside the run: as they were, or blank once their block has moved |
| NandDriver.Nand.TrailStep | drivers/nand/comip_nand.c:1511-1570 | counting the programs that are issued: the first to fail moves the block of its page, if none fails nothing moves, and no block moves without a programmed page |
| NandDriver.Nand.NothingLost | drivers/nand/comip_nand.c:1476-1582 | if every page outside the run in a block with a programmed page is blank, a successful write keeps all other pages, whatever fails |
| NandDriver.Nand.SomethingBeside | drivers/nand/comip_nand.c:1476-1582 | if not, some page that holds something lies in the block of a page j of the run that is programmed |
| NandDriver.Nand.NeighbourLost | drivers/nand/comip_nand.c:1511-1570 | and that page is lost whenever the first program to fail is that of page j |
| NandDriver.Nand.WholeBlocks | drivers/nand/comip_nand.c:1495-1509 | a run of whole blocks has no page beside it |
| NandRuns.LosesNeighbour | drivers/nand/comip_nand.c:1511-1570 | a run: the first program fails, the write succeeds in a spare block, and the neighbouring page is blank |
| NandDriver.Nand.Read | drivers/nand/comip_nand.c:1398-1474 | succeeds exactly when no read fails, and then gives the content of each logical page through the table |
| NandDriver.Nand.ReadsWhatWasWritten | drivers/nand/comip_nand.c:1398-1582 | a page that shows d cannot be read as anything but d |
| NandDriver.Nand.EraseLogical | drivers/nand/comip_nand.c:1584-1602 | on success the logical block is blank wherever it now lives; no other logical block changes; without a fault it succeeds in place; every block given up is marked, as far as marks stick |
| NandDriver.Nand.Recycle | drivers/nand/comip_nand.c:1357-1377 | on success all slots are blank and every earlier page of block 0 shows what it showed |
| NandDriver.Nand.WriteBbt | drivers/nand/comip_nand.c:1344-1395 | programs one slot, not programmed with success since block 0 was erased unless the last erase of block 0 failed; recycles only when full and keeps the rest of block 0; when the slots to come are blank the table is stored and they stay so; fails only on a fault, and then the same slot, or the recycling, is due again |
| NandDriver.Nand.SaveTable | drivers/nand/comip_nand.c:1380-1393 | success stores the table when the page of the slot was blank and moves to the slot below, or marks the area full; failure leaves slot, state and full as they were |
| NandDriver.Nand.ScanSlots | drivers/nand/comip_nand.c:1302-1311 | stops at the first slot from the top without a table, with the total of the table above it |
| NandDriver.Nand.LoadTable | drivers/nand/comip_nand.c:1281-1321 | without a fault, finds a table exactly if the last page holds one, and then position, state and total as the slots say and the entries of the oldest table; after a save the position is as before, and the table and the lookup of every block exactly if the oldest table is the saved one |
| NandDriver.Nand.StaysReady | drivers/nand/comip_nand.c:1476-1582 | a write keeps the slots blank that are still to come, and flags a table that differs from the stored one |
| NandDriver.Nand.ZeroHome | drivers/nand/comip_nand.c:1208-1223 | block 0 is at home exactly if no entry has moved it |
| NandDriver.Nand.NandErase | drivers/nand/comip_nand.c:1931-1982 | success blanks every block from 1 on in the clamped range and stores the table; from block 0 it blanks logical block 0 outside the slots if and only if no entry has moved it or it was blank; blocks outside keep their content, block 0 included; it fails only on an empty range or a fault |
| NandRuns.EraseMissesZero | drivers/nand/comip_nand.c:1966-1981 | a run: block 0 has moved, nand_erase from block 0 succeeds, and its data is still there |
| NandRuns.SkipsSlots | drivers/nand/comip_nand.c:1514-1532 | a run: of a write to pages 38 to 41 of block 0, of 64 pages, the first two are programmed |
| NandRuns.SlotReused | drivers/nand/comip_nand.c:1966-1972 | a run: the table is saved, the erase of block 0 fails, and the next save is due in the slot just programmed |
| NandRuns.TornSlot | drivers/nand/comip_nand.c:1380-1387 | a run: the program of a slot fails, and the next save programs the same slot and reports success |
| NandRuns.ReloadForgets | drivers/nand/comip_nand.c:1302-1311 | a run: save, a write that moves block 1, save, restart: everything but the one program succeeds, and block 1 is looked up where it was |
| NandEcc.EccArithmetic | drivers/nand/comip_nand.c:349-405 | result and buffer are those of the decoder on the syndrome of the two codes, bit by bit |
| NandEcc.PositionSplits | drivers/nand/comip_nand.c:383-390 | the extracted byte and bit numbers are those of the address in the odd syndrome bits |
| NandEcc.CodeFlip | drivers/nand/comip_nand.c:383-390 | inverting one data bit changes the code by that bit's column |
| NandEcc.UndamagedAccepted | drivers/nand/comip_nand.c:360-361 | a sector whose code agrees is accepted unchanged |
| NandEcc.CodeDamage | drivers/nand/comip_nand.c:379-403 | for any damage to the code alone: none or one differing bit is ignored, twelve are taken for a data bit, every other number is reported |
| NandEcc.DataBitRestored | drivers/nand/comip_nand.c:382-400 | any single flipped data bit is restored |
| NandEcc.CodeBitIgnored | drivers/nand/comip_nand.c:379-380 | any single flipped code bit leaves the data alone |
| NandEcc.DataAndCodeBitReported | drivers/nand/comip_nand.c:402-403 | one data bit and one code bit are reported |
| NandEcc.TwoCodeBitsReported | drivers/nand/comip_nand.c:402-403 | two code bits are reported |
| NandEcc.TwoDataBits | drivers/nand/comip_nand.c:349-405 | two data bits are reported if and only if their addresses do not differ in exactly six bits; otherwise wrong data is accepted |
| NandEcc.TwoBitsSlipThrough | drivers/nand/comip_nand.c:382-400 | two such bits |
| Crc32.PatternIsPoly | lib/crc32.c:63-68 | the fourteen terms make 0xedb88320 |
| Crc32.MakeCrcTable | lib/crc32.c:57-78 | entry n is the register after eight bit steps from n |
| CrcTable.LiteralIsTable | lib/crc32.c:84-149 | the table written out in the source is the one that make_crc_table computes |
| Crc32.Absorb | lib/crc32.c:57-78 | up to 32 message bits may be mixed in at once and stepped afterwards |
| Crc32.LookupIsByteStep | lib/crc32.c:167 | one table lookup is eight bit steps |
| Crc32.Step8Linear | lib/crc32.c:72-75 | a table entry is linear: the entry of an exclusive or is the exclusive or of the entries |
| Crc32.WordIsFourBytes | lib/crc32.c:199-204 | one 32-bit load and four lookups are four bytes in order |
| Crc32.Crc32NoComp | lib/crc32.c:177-216 | the three phases give the bit-serial register for every address, length and start value |
| Crc32.ComputeCrc32 | lib/crc32.c:219-222 | crc32 is the complemented register of RFC 1952 |
| Crc32.Residue | lib/crc32.c:219-222 | any buffer followed by its checksum has the checksum 0x2144df1c |
| Crc32.CheckValue | lib/crc32.c:219-222 | the checksum of the digits 1 to 9 is 0xcbf43926 |
| CrcTable.Crc32BuiltIn | lib/crc32.c:219-222 | with that table crc32 is the complemented register of RFC 1952 |
| Crc32.CrcAppend | lib/crc32.c:228-251 | crc32(crc32(c, x), y) = crc32(c, x ++ y) |
| Crc32.Crc32Watchdog | lib/crc32.c:228-251 | the chunked form equals one call for every chunk size and length that 32 bits hold, and the watchdog is fed once for each full chunk and once for the rest |
| Crc32.CrcDetectsBurst | lib/crc32.c:166-222 | different buffers that agree outside 32 consecutive bits have different checksums |
| Crc32.CrcDetectsFourBytes | lib/crc32.c:166-222 | the same for a window of four bytes |
| Crc32.CrcChange | lib/crc32.c:166-222 | the exclusive or of the checksums of two buffers of one length depends on the change alone: it is the register of the change |
| Crc32.WordDelta | lib/crc32.c:166-222 | for a change of one word it is that word's change, stepped to the end |
| Crc32.DamageSlips | lib/crc32.c:166-222 | in 92 bytes, a certain change of byte 20 changes the checksum in its upper three bytes alone |
| Div64.Div64By32 | lib/div64.c:21-52 | n = base*quotient + remainder with remainder < base, for every 64-bit n and non-zero 32-bit base, with every variable within 64 bits |
| Div64.DivisionUnique | lib/div64.c:50-51 | no other pair satisfies this, so the result is the machine's quotient and remainder (`DivMod`) |
| Div64.DoubleLoop | lib/div64.c:36-39 | ends with b = base*d, d a power of two and rem < 2*b, even when b reaches 2^63 |
| Div64.SubtractLoop | lib/div64.c:41-48 | takes the rest of the quotient and leaves a remainder below the base |
| Div64.DoDiv | include/div64.h:27-37 | both paths give the same pair, n = base*quotient + remainder with remainder < base |
| Vsprintf.Tenth | lib/vsprintf.c:205-206 | (x*0xcd)>>11 is x/10 for every x up to 1028 |
| Vsprintf.SmallTenth | lib/vsprintf.c:216-217 | (x*0xd)>>7 is x/10 for every x up to 68 |
| Vsprintf.Columns | lib/vsprintf.c:199-220 | the hexadecimal column sums stay within those bounds and have the decimal digits as remainders |
| Vsprintf.PutDecTrunc | lib/vsprintf.c:197-231 | appends the reversed canonical digits of any q < 100000 |
| Vsprintf.PutDecFull | lib/vsprintf.c:233-273 | appends exactly five reversed digits |
| Vsprintf.FiveMore | lib/vsprintf.c:279-282 | the reversed digits of n are five digits of n mod 100000 and then those of n/100000 |
| Vsprintf.PutDec | lib/vsprintf.c:275-284 | appends the reversed canonical decimal digits of any 64-bit value |
| NumberText.TextLength64 | lib/vsprintf.c:299 | a 64-bit value has at most 20 decimal and 22 octal digits |
| Vsprintf.PutDigits | lib/vsprintf.c:330-349 | tmp holds the digits in reverse, for bases 8, 10 and 16 |
| Vsprintf.TakeSign | lib/vsprintf.c:310-323 | sign character, magnitude and remaining width |
| Vsprintf.Number | lib/vsprintf.c:294-384 | writes exactly the field: padding, sign, prefix, zeros and digits in order |
| NumberText.FieldLength | lib/vsprintf.c:351-383 | the field has max(width, max(digits, precision) + sign + prefix) characters |
| NumberText.FieldReads | lib/vsprintf.c:294-384 | for all flags but a capital 0X: the field is blanks on the side the flags say, and between them the sign of the 64-bit number and digits that read back as its magnitude, no longer than needed unless zero-padded |
| NumberText.CaseOnly | lib/vsprintf.c:306-308 | the field without SMALL has no small letter, and in small letters it is the field with SMALL |
| Vsprintf.StrTo | lib/vsprintf.c:147-173 | value modulo the result width, and stop position, of the longest run of digits after the prefix |
| NumberText.StopsBehind | lib/vsprintf.c:147-173 | the digits of a number followed by anything that is no digit of the base give the number and end behind the digits |
| NumberText.BareHexPrefix | lib/vsprintf.c:151-156 | 0x with no hexadecimal digit behind it is 0 and ends at the x |
| NumberText.HexPrefixWins | lib/vsprintf.c:151-156 | 0x and hexadecimal digits are read in base 16 whatever base is asked for |
| NumberText.PrefixTellsBase | lib/vsprintf.c:147-384 | a number printed with SPECIAL reads back when no base is given |
| NumberText.FieldRoundTrip | lib/vsprintf.c:147-384 | parsing an unsigned, zero-padded field with its base gives the number and stops at the end, if and only if it has no 0X prefix |
| Uuid.UuidString | disk/part_efi.c:96-114 | the 36-character lower-case text with the mixed-endian field order |
| Uuid.TextSpelled | disk/part_efi.c:96-114 | the text group by group: bytes 3 to 0, 5 and 4, 7 and 6, then 8 to 15 in order, dashes between |
| Uuid.HexByteIsField | disk/part_efi.c:103 | "%02x" is two hexadecimal digits |
| Uuid.StringUuid | disk/part_efi.c:281-325 | accepts exactly the texts of five hexadecimal groups and returns their bytes in field order |
| Uuid.AcceptedTexts | disk/part_efi.c:281-303 | accepted are five groups of 8, 4, 4, 4 and 12 hexadecimal digits joined by dashes, and nothing else |
| Uuid.FieldsAreNumbers | disk/part_efi.c:304-325 | the numbers in the text are the fields of the GUID, three least significant byte first, two most significant byte first |
| Uuid.GroupsAreBytes | include/part_efi.h:48-53 | the five parsed numbers, taken apart by EFI_GUID and the big-endian tail, are the written bytes |
| Uuid.PrintThenParse | disk/part_efi.c:96-325 | every GUID survives print and parse |
| Uuid.ParseThenPrint | disk/part_efi.c:96-325 | every accepted text comes back in lower case |
| GptFormat.HeaderRoundTrip | include/part_efi.h:98-114 | the packed little-endian header read back is the header, whatever follows it |
| GptFormat.HeaderBytesBack | include/part_efi.h:98-114 | writing the header read from any bytes gives those bytes |
| GptFormat.HeaderFieldsAt | include/part_efi.h:98-114 | the value of each field by its byte offset, least significant byte first |
| GptFormat.EntryRoundTrip | include/part_efi.h:127-135 | the same for an entry of 128 bytes |
| GptFormat.EntryFieldsAt | include/part_efi.h:127-135 | the same for an entry |
| GptFormat.NameFieldsAt | include/part_efi.h:134 | and for the units of its name |
| GptFormat.EntryAtRoundTrip | disk/part_efi.c:202-207 | entry i of an entry array is found at byte 128*i |
| GptFormat.CrcTellsApart | disk/part_efi.c:65-68 | a change confined to four bytes changes efi_crc32 |
| GptLayout.NewHeaderPlaces | disk/part_efi.c:459-480 | the entry array ends where the usable area begins; behind that area its copy and the second header fill the device exactly; the disk GUID prints as the text given in lower case |
| GptLayout.FillPte | disk/part_efi.c:388-457 | the entries for the requests, or failure exactly when one overlaps, exceeds the disk or has a malformed GUID |
| GptLayout.AcceptedExactly | disk/part_efi.c:401-440 | a request list is accepted if and only if every GUID is well formed, every start given is not below the end of the requests before, and every end lies before the last usable block, ends being sums in 32 bits |
| GptLayout.AcceptedPlainly | disk/part_efi.c:401-440 | the same in plain numbers when no sum reaches 2^32 |
| GptLayout.EntriesSay | disk/part_efi.c:425-455 | each entry has the requested GUID, the type of basic data partitions and no attributes; the other slots are zero |
| GptLayout.LayoutExact | disk/part_efi.c:388-457 | an accepted request is laid out as asked, in order, disjoint and inside the usable area if and only if no 32-bit offset wraps |
| GptLayout.WrapAccepted | disk/part_efi.c:402-424 | an accepted request that wraps and ends before it starts |
| Gpt.Device.WriteGptTable | disk/part_efi.c:328-386 | for every header and entry array in block-sized buffers: succeeds exactly when all blocks of the five writes can be written; then the device is the spliced image; other blocks never change |
| Gpt.WholeTable | disk/part_efi.c:331-357 | with 128 entries of 128 bytes the whole array of 32 blocks is written and its CRC taken |
| Gpt.Device.GptRestore | disk/part_efi.c:482-525 | succeeds exactly for a well-formed GUID, a fitting request and a writable device; a refused request writes nothing; the partition area never changes |
| Gpt.RangesDisjoint | disk/part_efi.c:328-386 | the five ranges are pairwise disjoint exactly from 67 blocks on |
| Gpt.RoomExactly | disk/part_efi.c:328-386 | the five writes fit from 34 blocks on, and go to the first 34 and the last 33 blocks |
| Gpt.AcceptedIsLarge | disk/part_efi.c:388-417 | an accepted request with a partition and no wrap implies at least 69 blocks |
| Gpt.TabledBlocks | disk/part_efi.c:328-386 | which of the five images each block holds afterwards, and that the usable area is as before |
| Gpt.Device.IsGptValid | disk/part_efi.c:579-672 | the verdict of the signature, CRC, address and range checks on the blocks read |
| Gpt.SealedExactly | disk/part_efi.c:595-668 | a correctly sealed header is accepted if and only if it has the signature, its own address, a usable area within the device and the checksum of its entry array |
| Gpt.NoArrayRefused | disk/part_efi.c:683-711 | an entry array whose size is a multiple of 2^32, 0 included, is refused |
| Gpt.UnreadableRefused | disk/part_efi.c:590-594 | a header or an entry array with a block that cannot be read is refused |
| Gpt.RestoredIsValid | disk/part_efi.c:328-730 | a restored device is accepted at LBA 1 and at the last LBA, with the same entry array |
| Gpt.RestoredHeaders | disk/part_efi.c:328-480 | the two headers of a restored device name their own and each other's block, and all other fields are as stated |
| Gpt.MbrIsValid | disk/part_efi.c:243-271 | the protective MBR passes is_pmbr_valid |
| Gpt.MbrSays | disk/part_efi.c:243-271 | the protective MBR has one record of type 0xee from block 1 with the size of the device, the boot signature, and zeros |
| Gpt.RestoredMbr | disk/part_efi.c:225-235 | so does block 0 of a restored device |
| Gpt.Device.TestPart | disk/part_efi.c:225-235 | true exactly when block 0 is readable and holds a valid protective MBR |
| Gpt.IsPmbrValid | disk/part_efi.c:554-567 | true exactly when the signature is there and one of four records is a protective one |
| Gpt.PassesMbr | disk/part_efi.c:536-567 | by byte offset: the boot signature and a record of type 0xee that starts at block 1 |
| Gpt.Device.GetPartitionInfo | disk/part_efi.c:176-223 | the entry of a number in range with a used type, or failure |
| Gpt.BootableWhen | disk/part_efi.c:118-124 | bootable is bit 2 of the attributes or the type of EFI system partitions |
| Gpt.RestoredInfo | disk/part_efi.c:176-223 | number i+1 of a restored device has the i-th requested start, size, name and GUID; other numbers are refused |
| Gpt.Device.FindPartByName | disk/part_efi.c:764-800 | the first entry that shows the name |
| Gpt.RestoredSpan | disk/part_efi.c:764-800 | a lookup by name finds the first request with that name, and nothing for an unused name |
| Gpt.LabelIsName | disk/part_efi.c:82-94 | a printable name that ends inside its field is shown unchanged |
| Gpt.NameShown | disk/part_efi.c:82-94 | the name shown for any request: its bytes up to a zero byte, running on into the type, with dots for what is not printable |
| Gpt.HeaderDamageRejected | disk/part_efi.c:595-621 | a change within four bytes of an accepted header is rejected if it leaves the header size alone and changes the CRC field alone or not at all |
| Gpt.HeaderDamageExact | disk/part_efi.c:607-621 | any change of bytes 16 to 23 of an accepted header is accepted if and only if the new CRC field is the old checksum changed by the image of the change |
| Gpt.ChangedCrcByWord | disk/part_efi.c:607-621 | that checksum is the old one mixed with the changed word, stepped to the end of the header |
| Gpt.HeaderDamageWindow | disk/part_efi.c:595-621 | any change within four bytes that leaves the header size alone is accepted if and only if it changes the CRC field, and into that checksum |
| Gpt.HeaderDamageSlips | disk/part_efi.c:607-621 | for every header as written there is a change of bytes 17 to 20 that is accepted |
| Gpt.TableDamageRejected | disk/part_efi.c:655-668 | a change within four bytes of the entry array is rejected |

## Left out

- Rsa.ModPow: exactness is stated for R <= 2n, which is where the code relies on a single last subtraction; for smaller moduli only the congruence is stated. A key with another exponent is never passed by RSA_verify.
- Sha256.Hasher.Update: lengths of 2^31 or more wrap as two's-complement numbers here; the C standard leaves that open.
- SecureVerify.SignedImageVerifies: images below 2^31 bytes, the range in which SHA256_hash hashes the padded image.
- NandDriver.Nand.Write: pages are blank beforehand and lie below the reserved area, as the driver's callers arrange; `nand_write` itself does not check the latter.
- NandDriver.Nand.NandErase: takes block numbers; the rounding from byte offsets and the alignment test are not modelled.
- NandDriver.Nand.MarkBad: whether a mark sticks is an arbitrary function of the block; whether an erase removes one is left to chance.
- Gpt.Device.WriteGptTable: asks for buffers that hold what the header announces, since the source reads past them otherwise.
- Gpt.Device.IsGptValid: a header size above the block size makes the source read past its buffer; the model stops with `Overrun` there, and with `Beyond` or `PastEnd` where an entry lies past the array read.
- Crc32.Crc32Watchdog: addresses are 32 bits wide and the buffer ends below 2^32.
- NandDriver.Nand.LoadTable: stops where the last page holds no table and create_bbt takes over; the reserve is fixed in each device, so the narrowing in between is `Relocation.NarrowedInjective`. The bytes of a saved page behind its entries are taken to be 0xff, as create_bbt leaves them.
- The VALID_HEADER test of write_bbt, `nand_erase_force` and the boot header of block 0.
- Out-of-band data, YAFFS layouts, read flags, BCH correction, controller commands, DMA and timing: the flash is a device of pages whose n-th operation works or fails as an arbitrary function says. Page addresses are pairs of block and offset, without 32-bit wrap.
- The ECC encoder is hardware; its code is taken from the decoder's bit map.
- The SHA-256 compression function and its registers, and the fuses: an uninterpreted function and given words. The PKCS#1 padding enters only through its digest, and the 32 bytes of that digest are taken from the source.
- The big-endian path of lib/crc32.c.
- vsprintf's walk over the format string, its arguments and the `%p` variants; all console output.
- Allocation failures, `print_part_efi`, the 32-byte name buffer into which a lookup copies up to 36 characters, and the block size and type text that a lookup also returns.
- MMC, I2C, GPIO, PMIC, charger, keypad, LED, timer, serial and USB drivers, the other partition formats and the string library: register plumbing or easy members.
