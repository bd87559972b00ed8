# Verified model of the wolfSSL kernel-module glue

This project models the parts of the wolfSSL kernel-module glue where correctness depends on many
steps agreeing with one another, and proves what each part promises over every input, every
segmentation of memory and every run.

* **Relocation canonicalizer and FIPS hash driver** (`RelocTable`, `RelocSearch`, `RelocNormalize`,
  `RelocCall`, `FipsHash`, `LoadAddress`, `StreamContents`). `linuxkm_memory.c` rewrites every relocated word of the
  text and read-only data segments into a form without load addresses and feeds the result, chunk by
  chunk, to an HMAC. The stream is proved to be one function of the segment, whatever the buffer size;
  to skip exactly the `verifyCore` span; and to be the same for a live image at any address and for
  the file it was loaded from.
* **Scatter-gather cipher loops** (`BlockModes`, `Cursors`, `CbcBuffers`, `CbcCursor`, `CbcWalk`, `Xts`,
  `XtsLibrary`, `XtsWalk`, `GcmCursor`, `GcmWalk`, `Scatter`, `AeadGlue`). Each loop equals the flat mode for every segmentation,
  separate or in place, changes nothing outside its output, and is inverted by its counterpart.
* **FPU save/restore protocol** (`FpuProtocol`). A step system over any number of threads and CPUs.
* **CMAC shash object model** (`CmacSpec`, `CmacShash`, `CmacRuns`). Tags over every run of the
  operations, and ownership of the keyed objects.
* **Diffie-Hellman context** (`DhSecret`, `DhContext`). The cached public key over every run of
  `set_secret`, `gen_pub` and `compute_shared_secret`.
* **Memory routines** (`Memory`). Overlapping `memmove`, `memcpy` and `memset`, by words and by bytes.

`Bytes` holds what they share: bytes, little-endian words, exclusive-or, and `Splice`, which replaces
a range of a sequence. `Common` holds optional values and error codes.

How to read the model: AES, HMAC, the CCM and GCM cores and the random generator are parameters
(functions, or records of functions with the law they must obey); library calls that can fail take
their outcome as a parameter, so a theorem covers every pattern of failures; a kernel walk or cursor is
a function from a position to the length of the contiguous piece there. A method that changes state is
proved against a function of the old state, and the laws are lemmas about those functions.

Where the code does not do what a caller might expect, the model follows the code, gives an input that
fails, and states exactly when the expectation holds:

* The mapped path of the AEAD handlers does not copy the associated data to a separate destination, the
  bounce path does. The two leave the same memory exactly when the destination already held it
  (`PathsAgree`), and decrypting straight from the destination then succeeds exactly when its associated
  data is that of the source, unless the tags of two different ones collide (`ThereAndBack`;
  `ForeignAssociatedData` fails). The streaming GCM handler does not copy it either
  (`GcmWalkThereAndBack`; `ForeignAdditionalData` fails).
* `km_dh_gen_pub` pads the public key only if it was generated together with the private key. A
  destination reads as the public value exactly when it has modulus length and the key was generated,
  or the imported key's value needs every byte of it (`WholeBufferReads`; `ShortKeyMisreads` fails).
* `km_dh_reset_ctx` rebuilds the library key only if there was a private key. After a failed rebuild a
  named group accepts a private key for which no public key can be produced (`ImportThenGenPub`;
  `AcceptedButUnusable` fails).
* `my_memcpy` run on overlapping ranges repeats the first bytes of the source; it agrees with
  `my_memmove` exactly when the source repeats at that distance (`Memcpy`; `OverlapDiffers` fails).

## Model

| member | source | states |
|---|---|---|
| RelocTable.PatchedIff | linuxkm/linuxkm_memory.c:203-485 | a normalized span is the one sequence in which every field wholly inside is rewritten from its own raw bytes and every other byte is copied |
| RelocTable.PatchedField | linuxkm/linuxkm_memory.c:283-484 | a field inside a normalized span is the rewrite of its own raw bytes |
| RelocTable.ByteInField | linuxkm/linuxkm_memory.c:283-484 | a byte of a field is what that field's own raw bytes are rewritten to, whatever other entries do |
| RelocTable.ByteElsewhere | linuxkm/linuxkm_memory.c:203-212 | a byte no field covers is copied through |
| RelocTable.PatchedConcat | linuxkm/linuxkm_memory.c:273-281 | spans cut where no field crosses concatenate to the span of the whole |
| RelocTable.PatchedLocal | linuxkm/linuxkm_memory.c:203-205 | a normalized span depends on its own bytes only |
| RelocTable.CountConcat | linuxkm/linuxkm_memory.c:487-493 | counts of adjacent spans add up |
| RelocTable.CountIsCardinality | linuxkm/linuxkm_memory.c:317-361 | a counter is the number of live entries of its segment that start in the span |
| RelocTable.WidthTable | linuxkm/linuxkm_memory.c:40-74 | the segment and type numbers that go into labels, and the field width of every known type |
| RelocSearch.LinearScan | linuxkm/linuxkm_memory.c:105-111 | the least index whose offset is at or after the requested one |
| RelocSearch.FirstLocallyIsLeast | linuxkm/linuxkm_memory.c:105-111 | on a sorted table the neighbour test of the fix-up loops finds the least index |
| RelocSearch.FindRelocTabOffset | linuxkm/linuxkm_memory.c:76-119 | the halving search stays in bounds on any table, fails exactly past the sentinel, and on a sorted table returns the result of the linear scan |
| RelocNormalize.FieldStillRaw | linuxkm/linuxkm_memory.c:286-315 | a field not yet reached still holds its raw bytes, since no earlier field overlaps it |
| RelocNormalize.ReachedStart | linuxkm/linuxkm_memory.c:191-212 | the copied chunk and the starting index meet the loop's invariant |
| RelocNormalize.ReachedStep | linuxkm/linuxkm_memory.c:209-485 | applying one entry keeps the loop's invariant |
| RelocNormalize.ReachedStop | linuxkm/linuxkm_memory.c:268-281 | when the loop stops, the bytes kept are exactly the reference span, and the index names the first entry of the next chunk |
| RelocNormalize.StopCount | linuxkm/linuxkm_memory.c:273-281 | a straddling entry is not counted in the chunk that gave it back |
| RelocCall.Locate | linuxkm/linuxkm_memory.c:154-187 | the segment found holds the whole span, one is found whenever one holds it, and text comes first |
| RelocCall.RewriteField | linuxkm/linuxkm_memory.c:283-484 | one field of the buffer changes, and nothing else |
| RelocCall.PassedInOrder | linuxkm/linuxkm_memory.c:229-241 | checking each live entry against the one before it puts all live entries in order |
| RelocCall.VisitEntry | linuxkm/linuxkm_memory.c:213-484 | which entries are skipped, refused, past the chunk, straddling or applied, and the buffer after each |
| RelocCall.ApplyRelocations | linuxkm/linuxkm_memory.c:209-485 | the loop fails only on unsorted or unknown entries, and otherwise leaves the reference bytes and exact counters |
| RelocCall.NormalizeFrom | linuxkm/linuxkm_memory.c:202-504 | a located chunk from a known index: reference bytes, shrunk only by a field across its end, counters gained exactly |
| RelocCall.NormalizeSegment | linuxkm/linuxkm_memory.c:131-505 | every call: its error cases, the normalized chunk, the carried index and the five counters; an index past the table copies the chunk and counts nothing |
| FipsHash.HashChunk | linuxkm/linuxkm_memory.c:852-869 | a turn of either loop makes progress and feeds the normalized bytes; without a failing HMAC it fails only on a field at the chunk's start that crosses its end |
| FipsHash.ExtendSpan | linuxkm/linuxkm_memory.c:849-870 | chunks fed in a row concatenate to the normalized span |
| FipsHash.HashText | linuxkm/linuxkm_memory.c:848-870 | the text loop ends having fed exactly the normalized hashed text |
| FipsHash.RodataStep | linuxkm/linuxkm_memory.c:878-914 | each turn moves forward, by a chunk or by the jump over `verifyCore`, and keeps what was fed and counted |
| FipsHash.HashRodata | linuxkm/linuxkm_memory.c:877-914 | the read-only data loop feeds the two spans around `verifyCore` and nothing of it |
| FipsHash.GenerateHash | linuxkm/linuxkm_memory.c:835-920 | for every buffer of at least 8 bytes: the stream is normalized text then read-only data without `verifyCore`, each counter grows by its entries in it and their sum by all live entries, and with a reliable HMAC it succeeds if and only if no field crosses the end of a hashed span |
| FipsHash.CountersAddUp | linuxkm/linuxkm_memory.c:317-361 | the five counters together count every live entry of a span exactly once |
| FipsHash.HashedOnce | linuxkm/linuxkm_memory.c:317-361 | over the three hashed spans together, the five gains count every live entry exactly once |
| FipsHash.HoleIrrelevant | linuxkm/linuxkm_memory.c:881-894 | the stream does not depend on the bytes of `verifyCore` |
| FipsHash.WriteBackMatches | linuxkm/linuxkm-fips-hash.c:398-403 | writing the digest over `verifyCore` makes a rerun report a match |
| LoadAddress.LiveWordIsOffset | linuxkm/linuxkm_memory.c:374-383 | live normalization undoes the loader's S + A or S + A - P, modulo the field width |
| LoadAddress.WordIsCanonical | linuxkm/linuxkm_memory.c:363-467 | live or offline, the word before the label is the destination offset, or zero |
| LoadAddress.LabelledCong | linuxkm/linuxkm_memory.c:469-484 | the label and the truncation keep words that agree modulo the width in agreement |
| LoadAddress.FieldIndependent | linuxkm/linuxkm_memory.c:363-484 | a field is rewritten to the same bytes under any two placements |
| LoadAddress.SpanIndependent | linuxkm/linuxkm_memory.c:131-505 | a normalized span is the same for every load address, live or offline |
| LoadAddress.HashIndependent | linuxkm/linuxkm_memory.c:835-920 | any two placements of a module feed the HMAC the same bytes |
| LoadAddress.LoadedField | linuxkm/linuxkm_memory.c:374-383 | a loaded field reads back as the value the loader stored |
| LoadAddress.LoadIsPlaced | linuxkm/linuxkm_memory.c:374-383 | applying the table's relocations gives a placed image that differs from the file in its fields only |
| LoadAddress.LiveHashIsOfflineHash | linuxkm/linuxkm_memory.c:835-920 | the live stream of a loaded module, at any addresses, is the offline stream of its file |
| LoadAddress.LabelledWord32 | linuxkm/linuxkm_memory.c:469-471 | the segment stands in the top 3 bits of a 32-bit label and the type in the 5 below |
| LoadAddress.NormalizedWord | linuxkm/linuxkm_memory.c:363-484 | the number in every normalized field, live or offline: the destination offset or zero, with the label of segment and type xored into its top byte |
| LoadAddress.LiveField32 | linuxkm/linuxkm_memory.c:374-383 | a live 32-bit field that holds S + A or S + A - P, with the segment starts spelled out, becomes the offset under its label |
| LoadAddress.LiveField64 | linuxkm/linuxkm_memory.c:374-383 | the same for a 64-bit field |
| LoadAddress.OfflineField | linuxkm/linuxkm_memory.c:384-386 | an offline field becomes the offset of its table entry under its label |
| LoadAddress.BareLabel | linuxkm/linuxkm_memory.c:415-467 | a field of another machine, or one that points outside the module, becomes its label alone |
| LoadAddress.LabelIdentifies | linuxkm/linuxkm_memory.c:469-476 | two 32-bit fields normalize to the same bytes only if they name the same segment, type and offset, for offsets below 2^24 |
| StreamContents.StreamLength | linuxkm/linuxkm_memory.c:848-914 | the stream is as long as both hashed ranges less `verifyCore` |
| StreamContents.TextByte | linuxkm/linuxkm_memory.c:848-870 | every byte between the text fenceposts that no field covers stands in the stream at its place |
| StreamContents.RodataByte | linuxkm/linuxkm_memory.c:877-914 | the same for the read-only data before and after `verifyCore` |
| StreamContents.TextField | linuxkm/linuxkm_memory.c:848-870 | every field between the text fenceposts stands in the stream normalized |
| StreamContents.RodataField | linuxkm/linuxkm_memory.c:877-914 | the same for the read-only data |
| StreamContents.PatchedByteShows | linuxkm/linuxkm_memory.c:835-920 | changing a hashed byte outside the fields and `verifyCore` changes the stream |
| StreamContents.CallStands | linuxkm/linuxkm_memory.c:384-476 | an offline 32-bit field stands in the stream as its destination offset under its label |
| StreamContents.CleanMeans | linuxkm/linuxkm_memory.c:273-281 | the condition for success, in terms of the fenceposts and the entries alone |
| BlockModes.CryptAppend | bsdkm/wolfkmod.c:836-900 | a message processed in two parts with the register carried over is processed at once |
| BlockModes.ModeRoundTrip | bsdkm/wolfkmod.c:836-900 | a mode undone block by block is undone on whole messages, and leaves the same register |
| BlockModes.CbcUndoes | bsdkm/wolfkmod.c:862-875 | CBC decryption undoes CBC encryption block by block |
| BlockModes.CbcEncryptBlock | bsdkm/wolfkmod.c:862-868 | each ciphertext block enciphers its plaintext block mixed with the ciphertext block before it |
| BlockModes.CbcDecryptBlock | bsdkm/wolfkmod.c:869-875 | each plaintext block is its deciphered block mixed with the ciphertext block before it |
| BlockModes.CbcRegister | linuxkm/lkcapi_aes_glue.c:715-716 | the register that is written back is the last ciphertext block |
| CbcBuffers.ProducedStep | bsdkm/wolfkmod.c:836-900 | one more chunk extends what the loop has produced |
| CbcBuffers.OutsideKeeps | bsdkm/wolfkmod.c:836-900 | what "nothing outside the range changes" says of each byte and of both sides |
| CbcCursor.CryptChunk | bsdkm/wolfkmod.c:837-882 | a cipher call, direct or through the bounce block, writes the mode of its input and nothing else |
| CbcCursor.CbcWork | bsdkm/wolfkmod.c:806-900 | for every segmentation, separate or in place: the output range holds CBC of the payload, no other byte changes even after an error, partial blocks are refused, and without a failing cipher it succeeds |
| CbcCursor.CbcThereAndBack | bsdkm/wolfkmod.c:806-900 | encrypting into a second buffer and decrypting into a third, each possibly in place, under any segmentations returns the payload |
| CbcWalk.CbcRequest | linuxkm/lkcapi_aes_glue.c:691-716 | for every walk and pattern of failures: success is flat CBC of the request and writes the register back, without failures an error comes exactly from a partial block, and nothing outside the output changes |
| CbcWalk.RequestsChain | linuxkm/lkcapi_aes_glue.c:756-782 | two requests in a row, with the written-back vector, are one request on the concatenation, in both directions, between separate buffers or in place |
| Xts.XtsUndoes | wolfcrypt/src/aes.c:18651-18729 | one XTS block is undone under the same tweak |
| Xts.StealRoundTrip | wolfcrypt/src/aes.c:19186-19295 | ciphertext stealing is undone with the last two tweaks in reverse |
| Xts.XtsRoundTrip | wolfcrypt/src/aes.c:19186-19295 | decryption inverts encryption for every length from one block up |
| Xts.XtsAppend | wolfcrypt/src/aes.c:18997-19096 | whole blocks, then at least a block more, continue the unit from the running tweak |
| XtsLibrary.BlockLoop | wolfcrypt/src/aes.c:18668-18702 | the block loop with its running tweak is the mode of the whole blocks |
| XtsLibrary.EncryptUpdate | wolfcrypt/src/aes.c:18651-18731 | the encrypting loop and its stealing step give one-shot XTS, and where the tweak ends |
| XtsLibrary.DecryptUpdate | wolfcrypt/src/aes.c:19186-19296 | the decrypting loop, stopped a block early for a partial block, gives one-shot XTS, and where the tweak ends |
| XtsLibrary.XtsBlock | wolfcrypt/src/aes.c:18668-18702 | every block is masked, ciphered and masked again under the tweak doubled once per block |
| XtsLibrary.XtsLastBlocks | wolfcrypt/src/aes.c:18704-18728 | which bytes the last whole and the partial block trade, under which tweaks |
| XtsWalk.XtsStream.Feed | wolfcrypt/src/aes.c:18997-19096 | one-shot XTS from the running tweak; where the tweak ends for whole and for partial blocks; a refusal of short data or a finished stream changes nothing |
| XtsWalk.XtsStream.Update | wolfcrypt/src/aes.c:19098-19106 | as Feed, and whole blocks only; a refused call leaves the stream as it was |
| XtsWalk.XtsStream.Final | wolfcrypt/src/aes.c:19108-19125 | any length, or none, and the stream refuses more |
| XtsWalk.StepIsWholeBlocks | linuxkm/lkcapi_aes_glue.c:2341-2355 | steps of at least two blocks, or all that is left, make every update block-aligned and not empty |
| XtsWalk.StreamLoop | linuxkm/lkcapi_aes_glue.c:2332-2371 | the loop produces the mode of the streamed part and carries its tweak; without failures it fails exactly when a step holds no whole block |
| XtsWalk.FinishTail | linuxkm/lkcapi_aes_glue.c:2373-2399 | the re-walked last block and part, as far as mapped in one step, complete the one-shot result |
| XtsWalk.LongStepsSuffice | linuxkm/lkcapi_aes_glue.c:2580-2595 | steps of the length the algorithm asks for get every request through and cover all of it |
| XtsWalk.XtsRequest | linuxkm/lkcapi_aes_glue.c:2294-2408 | for every length, walk and pattern of failures: without failures it succeeds exactly when no step is too short; a success is one-shot XTS with ciphertext stealing of what the walks covered, which is the whole request for steps of the length asked for; no other byte changes |
| XtsWalk.XtsThereAndBack | linuxkm/lkcapi_aes_glue.c:2445-2559 | encrypting into a second buffer and decrypting into a third, each possibly in place, under any other walks returns the text |
| GcmCursor.PadAppend | bsdkm/wolfkmod.c:1062-1083 | the key stream runs on across chunks |
| GcmCursor.FeedAad | bsdkm/wolfkmod.c:996-1030 | the state receives exactly the additional data, in order |
| GcmCursor.FeedPayload | bsdkm/wolfkmod.c:1036-1086 | the state receives exactly the payload's ciphertext, in order, and output positions match input positions |
| GcmCursor.GcmWork | bsdkm/wolfkmod.c:971-1103 | output and tag for every segmentation and pattern of failures, byte by byte: the payload under the key stream and the tag over the additional data and the ciphertext; a decryption that reaches the tag check reports a bad message exactly when the check fails; after an error nothing outside the output range changed |
| GcmCursor.GcmThereAndBack | bsdkm/wolfkmod.c:979-1103 | through any three buffers, each possibly in place: the payload comes back, and the tag is accepted exactly when the additional data has the same tag |
| GcmWalk.WalkText | linuxkm/lkcapi_aes_glue.c:1309-1343 | for every walk the state receives exactly the text, in order, at matching positions |
| GcmWalk.GcmRequest | linuxkm/lkcapi_aes_glue.c:1173-1390 | the streaming handler: refusals leave memory alone; otherwise flat GCM at the text position, a bad message exactly for a wrong tag, and nothing else changes |
| GcmWalk.MadeMeans | linuxkm/lkcapi_aes_glue.c:1281-1374 | the output of a streamed request byte by byte, and the tag over the additional data proper and the ciphertext |
| GcmWalk.OpenMade | linuxkm/lkcapi_aes_glue.c:1345-1374 | decrypting what encrypting made returns the text, and is authentic exactly when the additional data has the same tag |
| GcmWalk.GcmWalkThereAndBack | linuxkm/lkcapi_aes_glue.c:1173-1390 | through any three buffers and any two walks the text comes back and no other byte of the last buffer changes; as long as the tag tells the two apart, it is accepted exactly when the second buffer held the same additional data |
| GcmWalk.ForeignAdditionalData | linuxkm/lkcapi_aes_glue.c:1251-1279 | the failing input of the streaming handler, for every tag size the transform accepts |
| Scatter.WrittenAppend | linuxkm/lkcapi_aes_glue.c:2068-2080 | adjacent writes through a list are one write |
| Scatter.WrittenHead | linuxkm/lkcapi_aes_glue.c:1979-2016 | a store into the mapped first entry is a write through the list |
| Scatter.CopyTo | linuxkm/lkcapi_aes_glue.c:2068-2080 | bytes stand at their position of the list and no other byte of memory changes |
| Scatter.AddressesAppend | linuxkm/lkcapi_aes_glue.c:2068-2080 | a list covers the bytes of its parts in order |
| AeadGlue.NonceSize | linuxkm/lkcapi_aes_glue.c:1945-1977 | the nonce length of each layout; 15 - L for CCM |
| AeadGlue.NonceBytes | linuxkm/lkcapi_aes_glue.c:1945-1977 | which bytes form the nonce, and which requests have none |
| AeadGlue.NonceReuse | linuxkm/lkcapi_aes_glue.c:1945-1977 | two requests share a nonce exactly when their vectors agree, scratch bytes aside |
| AeadGlue.Refusal | linuxkm/lkcapi_aes_glue.c:1913-1977 | a request that passes has a usable nonce, a length that fits and, for decryption, a whole tag; and every such request passes when its set-up calls succeed |
| AeadGlue.RefusalCodes | linuxkm/lkcapi_aes_glue.c:1913-1977 | the error of each refusal, in the order of the checks |
| AeadGlue.OpenSealed | linuxkm/lkcapi_aes_glue.c:2031-2066 | decrypting what encrypting produced returns the text exactly when the associated data has the same tag |
| AeadGlue.CallLibrary | linuxkm/lkcapi_aes_glue.c:2031-2066 | the one-shot call computes the flat result of the request, with its error codes |
| AeadGlue.CryptMapped | linuxkm/lkcapi_aes_glue.c:1979-2080 | the mapped path writes text and tag; a failure can only touch the destination's text |
| AeadGlue.CryptBounced | linuxkm/lkcapi_aes_glue.c:2017-2080 | the bounce path writes associated data, text and tag; nothing reaches the destination on failure |
| AeadGlue.Crypt | linuxkm/lkcapi_aes_glue.c:1913-2080 | the whole handler: refusals leave memory alone, and otherwise error and memory are those of the flat request |
| AeadGlue.SealedMemory | linuxkm/lkcapi_aes_glue.c:2054-2080 | after an encryption, ciphertext and tag of the spelled-out nonce, associated data and text stand at their addresses and nothing else changed |
| AeadGlue.OpenedAnswer | linuxkm/lkcapi_aes_glue.c:2031-2053 | a decryption reports a bad message exactly when the tag of what it opened is not the one given |
| AeadGlue.OpenedMemory | linuxkm/lkcapi_aes_glue.c:2031-2073 | after a decryption the text stands at its addresses, its tag was the one given, and nothing else changed |
| AeadGlue.LayoutsAgree | linuxkm/lkcapi_aes_glue.c:1979-2080 | for any two layouts, mapped or bounced, equal source bytes give equal text and tag |
| AeadGlue.PathsAgree | linuxkm/lkcapi_aes_glue.c:1979-2080 | for one set of addresses listed so that it is mapped and so that it is bounced: the same text and tag, and the same memory exactly when the destination already held the associated data |
| AeadGlue.ThereAndBack | linuxkm/lkcapi_aes_glue.c:1421-1585 | encrypting and decrypting through any three lists returns the text; as long as the tag tells the two apart, it fails exactly when both lists are mapped and the second holds other associated data |
| AeadGlue.ForeignAssociatedData | linuxkm/lkcapi_aes_glue.c:1468-1505 | the failing input, for every tag size the transform accepts: a separate destination with another byte of associated data makes the decryption report a bad message |
| FpuProtocol.LocalStepOk | bsdkm/x86_vecreg.c:141-251 | every step of a save or restore keeps the relation between a thread and its CPU's slot and takes no mismatch branch |
| FpuProtocol.ReplaceKeepsInv | bsdkm/x86_vecreg.c:36-57 | a running thread's step disturbs no other thread or CPU |
| FpuProtocol.NextKeepsInv | bsdkm/x86_vecreg.c:141-251 | every interleaved step, or migration of an unpinned thread, keeps the invariant |
| FpuProtocol.RunSafety | bsdkm/x86_vecreg.c:141-251 | over every run, in every reachable state: no mismatch branch was taken, no nest exceeds 128, nest is the outstanding saves of the thread that has the FPU, and between calls the FPU was entered once and left once per outermost pair |
| FpuProtocol.RunSlots | bsdkm/x86_vecreg.c:141-251 | in every reachable state, on every CPU: the nesting level is at most 128, there is one owner at most, and the thread id is zero exactly when the nesting level is, except between the two writes of a call |
| FpuProtocol.NextCall | bsdkm/x86_vecreg.c:141-251 | over every run, the next save succeeds exactly while fewer than 128 are outstanding, and what the next save and restore leave |
| FpuProtocol.UnloadCleanIff | bsdkm/x86_vecreg.c:79-106 | unloading finds all slots clear exactly when no save is outstanding |
| FpuProtocol.SaveRuns | bsdkm/x86_vecreg.c:141-207 | the steps of a save amount to the whole call |
| FpuProtocol.RestoreRuns | bsdkm/x86_vecreg.c:209-251 | the steps of a restore amount to the whole call |
| FpuProtocol.VecRegs.Init | bsdkm/x86_vecreg.c:61-77 | every slot starts at zero, or the error |
| FpuProtocol.VecRegs.Save | bsdkm/x86_vecreg.c:141-207 | return code, FPU flag and slot after a save; other slots unchanged |
| FpuProtocol.VecRegs.Restore | bsdkm/x86_vecreg.c:209-251 | FPU flag and slot after a restore; other slots unchanged |
| FpuProtocol.VecRegs.Exit | bsdkm/x86_vecreg.c:79-106 | reports exactly the CPUs still in use |
| CmacSpec.AbsorbAppend | wolfcrypt/src/aes.c:19801-19834 | absorbing a message in two parts is absorbing it at once |
| CmacSpec.AbsorbTag | wolfcrypt/src/cmac.c:413-489 | finalizing the streamed state gives the CMAC of RFC 4493, section 2.4 |
| CmacSpec.PaddedBits | wolfcrypt/src/cmac.c:455-470 | the padding is the message, one 1 bit and zero bits |
| CmacSpec.TagIsCbcMac | wolfcrypt/src/cmac.c:440-480 | the tag is CBC over the earlier blocks and the last one, whole with the first subkey or padded with the second |
| CmacSpec.RunTag | linuxkm/lkcapi_aes_glue.c:5172-5366 | for every sequence of inits, updates, exports and imports, a final gives the CMAC of the concatenated message |
| CmacShash.CmacUpdate | wolfcrypt/src/aes.c:19801-19834 | the buffering loop is the reference absorption |
| CmacShash.CmacFinal | wolfcrypt/src/cmac.c:413-501 | the tag of the held state, and the object is wiped |
| CmacShash.SetKey | linuxkm/lkcapi_aes_glue.c:5106-5156 | a rekey replaces the object, a failed one leaves none or the old one, and ownership holds |
| CmacShash.ExitTfm | linuxkm/lkcapi_aes_glue.c:5158-5165 | the tfm's object is released |
| CmacShash.Materialize | linuxkm/lkcapi_aes_glue.c:5172-5206 | a fresh copy with the tfm's key and the given state, or the error |
| CmacShash.Update | linuxkm/lkcapi_aes_glue.c:5244-5263 | all or nothing on the descriptor, and no object left behind |
| CmacShash.Final | linuxkm/lkcapi_aes_glue.c:5265-5291 | the tag of the descriptor, which is scrubbed once a copy exists |
| CmacShash.Finup | linuxkm/lkcapi_aes_glue.c:5293-5322 | update and final on one copy; a failure before the final keeps the descriptor |
| CmacShash.Digest | linuxkm/lkcapi_aes_glue.c:5324-5331 | the CMAC of one message |
| CmacShash.Import | linuxkm/lkcapi_aes_glue.c:5344-5366 | only a state that an update can continue from is installed |
| CmacShash.LiveCount | linuxkm/lkcapi_aes_glue.c:5092-5165 | live objects and keyed tfms are equal in number |
| CmacShash.RunCalls | linuxkm/lkcapi_aes_glue.c:5092-5366 | over every run with any failures, the live objects are exactly those the tfms hold |
| CmacRuns.RelatedAfter | linuxkm/lkcapi_aes_glue.c:5217-5366 | each operation keeps every descriptor and exported state in step with its message |
| CmacRuns.Perform | linuxkm/lkcapi_aes_glue.c:5217-5366 | one call on the objects: messages, tag and ownership |
| CmacRuns.RunTags | linuxkm/lkcapi_aes_glue.c:5172-5366 | every run without a rekey, with exports, imports, abandoned descriptors and failures: each tag handed out is the CMAC of the whole message, and nothing leaks |
| CmacRuns.SplitMessage | linuxkm/lkcapi_aes_glue.c:5217-5291 | however a message is split into updates, its final tag is the CMAC of the concatenation |
| CmacRuns.HandedOver | linuxkm/lkcapi_aes_glue.c:5333-5366 | an exported state imported elsewhere stands for the same message |
| CmacRuns.FailedKeeps | linuxkm/lkcapi_aes_glue.c:5244-5322 | a call that fails before its final leaves every message as it was |
| DhSecret.PaddedValue | linuxkm/lkcapi_dh_glue.c:650-665 | leading zeros keep the big-endian value |
| DhSecret.TrailingValue | linuxkm/lkcapi_dh_glue.c:904-914 | bytes behind a nonzero number change what the buffer reads as |
| DhSecret.ToBELength | linuxkm/lkcapi_dh_glue.c:650-665 | a value needs more than n bytes exactly when it is at least 256 to the power n |
| DhSecret.SharedSecretsAgree | linuxkm/lkcapi_dh_glue.c:988-991 | both parties reach the same shared value |
| DhSecret.DecodePack | linuxkm/lkcapi_dh_glue.c:302-380 | every packed secret that fits its length field decodes to its fields |
| DhSecret.DecodeOnlyPacked | linuxkm/lkcapi_dh_glue.c:319-380 | nothing else decodes |
| DhSecret.PackLayout | linuxkm/lkcapi_dh_glue.c:302-317 | the layout of a packed secret, number by number and field by field |
| DhContext.PackedDhSecret | linuxkm/lkcapi_dh_glue.c:490-541 | which packed secrets "dh" takes, and where each field goes |
| DhContext.PackedFfdheSecret | linuxkm/lkcapi_dh_glue.c:596-673 | which packed secrets a named group takes, and the private value of each |
| DhContext.EncodedValue | linuxkm/lkcapi_dh_glue.c:650-668 | the bytes handed out, padded or not, are the big-endian public value |
| DhContext.ExchangeAgrees | linuxkm/lkcapi_dh_glue.c:869-1013 | feeding each party's public key to the other gives both the same shared secret |
| DhContext.WholeBufferReads | linuxkm/lkcapi_dh_glue.c:904-914 | a destination that holds the key reads in full as the public value exactly when the key was generated and the destination has modulus length, or was imported and its value needs every byte |
| DhContext.ShortKeyMisreads | linuxkm/lkcapi_dh_glue.c:904-914 | the failing family: a one-byte imported public key in any longer destination |
| DhContext.DhCtx.ClearKeys | linuxkm/lkcapi_dh_glue.c:382-398 | both buffers are given up, the private bytes wiped first |
| DhContext.DhCtx.ResetCtx | linuxkm/lkcapi_dh_glue.c:436-468 | no key remains, and when the library key is rebuilt |
| DhContext.DhCtx.AllocKeys | linuxkm/lkcapi_dh_glue.c:400-434 | both buffers or neither |
| DhContext.DhCtx.ImportPrivate | linuxkm/lkcapi_dh_glue.c:538-560 | the exported private bytes have the imported value |
| DhContext.DhCtx.PadPublic | linuxkm/lkcapi_dh_glue.c:650-665 | shifting in place and zero filling puts leading zeros in front of the key |
| DhContext.DhCtx.DhSetSecret | linuxkm/lkcapi_dh_glue.c:480-572 | success installs exactly the decoded secret, and any failure leaves no usable key |
| DhContext.DhCtx.FfdheSetSecret | linuxkm/lkcapi_dh_glue.c:586-709 | as above for named groups, with an imported or a generated key, and when each error occurs |
| DhContext.DhCtx.GenPub | linuxkm/lkcapi_dh_glue.c:869-920 | a successful answer is the public value of the secret in force; a short destination learns the length it needs |
| DhContext.DhCtx.ComputeShared | linuxkm/lkcapi_dh_glue.c:927-1013 | a successful answer is the peer's value raised to the secret in force |
| DhContext.RunCalls | linuxkm/lkcapi_dh_glue.c:382-920 | over every run with any failures, each answer is right for the secret of the last `set_secret`, and after a failed one no key is usable |
| DhContext.LatestIs | linuxkm/lkcapi_dh_glue.c:480-709 | the secret in force is that of the last `set_secret`, or none if it failed |
| DhContext.PublicKeyOfRun | linuxkm/lkcapi_dh_glue.c:480-920 | in every run, a successful `gen_pub` hands out the packed generator raised to the packed private value modulo the packed prime |
| DhContext.PublicKeyAnswer | linuxkm/lkcapi_dh_glue.c:869-920 | the same for any secret in force, and what a destination that is too short learns |
| DhContext.SharedAnswer | linuxkm/lkcapi_dh_glue.c:927-1013 | a successful shared secret is the peer's value raised to the private value in force |
| DhContext.NoKeyAnswers | linuxkm/lkcapi_dh_glue.c:880-886 | after a failed `set_secret`, or before any, no key answers |
| DhContext.ImportThenGenPub | linuxkm/lkcapi_dh_glue.c:436-468 | an accepted key yields a public key exactly when the context had a key or its group's parameters before |
| DhContext.AcceptedButUnusable | linuxkm/lkcapi_dh_glue.c:436-468 | the failing case, from a rebuild that failed |
| Memory.Memmove | linuxkm/linuxkm_wc_port.h:551-589 | for every overlap, on the word path and the byte path: the destination holds the old source and nothing else changes |
| Memory.Memcpy | linuxkm/linuxkm_wc_port.h:507-524 | what an overlapping copy leaves, and that it is a move exactly when the source repeats at the distance of the overlap |
| Memory.OverlapDiffers | linuxkm/linuxkm_wc_port.h:507-589 | the failing input: two bytes copied one byte up, beside the same move |
| Memory.FaithfulIff | linuxkm/linuxkm_wc_port.h:507-524 | an ascending copy is faithful exactly on a source that repeats at that distance |
| Memory.RepeatedBytes | linuxkm/linuxkm_wc_port.h:532-536 | a byte times 0x01...01 is the word of that byte repeated |
| Memory.Memset | linuxkm/linuxkm_wc_port.h:528-549 | every byte of the range becomes the given one, on the word path and the byte path |

## Left out

- AES, GHASH, HMAC and elliptic-curve internals: parameters with the laws that the modes need; the Diffie-Hellman value itself is modelled as a power modulo the prime.
- The rest of `wc_fips_generate_hash`: the fencepost checks on the segment map, decoding of the key, buffer allocation, and the final digest and comparison, which are straight-line.
- The build without relocation tables: it hashes the raw bytes in at most three updates.
- 64-bit labels: the source shifts a 32-bit operand by more than its width, so the label is an arbitrary function of segment, type and width; bit positions are reasoned about for 32-bit fields.
- Layout masks and the page and pair flags of `reloc_layouts`: they affect only words that are overwritten with zero.
- Relocation counters are unbounded integers; addresses of a chunk do not wrap around the address space.
- FipsHash.GenerateHash: takes from its caller that the tables are sorted, non-overlapping and end in a sentinel past the segment, that the hashed ranges lie inside their segments, and that `verifyCore` does not contain the start of the hashed read-only data. On an unsorted table the search may start past entries of the chunk; the order and type checks that the source makes on the way are stated for any table by `RelocCall.NormalizeSegment`. A `verifyCore` around the start makes its chunk length wrap around.
- CmacShash.Update: asks for a held length of at most a block, which every operation keeps; past it the source would index outside its buffer.
- CmacShash.Finup: asks for the same, for the same reason.
- Sector boundaries and the byte limit that FIPS builds put on an XTS data unit.
- CTR, OFB and CFB walks: their partial-block state lives in the library.
- Key and tag-size setters of the AEAD algorithms, and key set-up of the block ciphers.
- The ECDH glue: the shape of the Diffie-Hellman glue with less state and no cache.
- The random generator and the FIPS pairwise checks of the Diffie-Hellman library are outcomes passed in; `max_size` and `exit` of that glue are not modelled.
- 32-bit hosts, where the sum of the sizes in a packed Diffie-Hellman secret could wrap, and big-endian hosts.
- Memory.Memmove: the memory is one array that starts at an aligned address, so an address is an index.
- Self-tests, registration, module load and unload, logging, mutex wrappers and redirect tables.
