# A verified model of the LoRa firmware updater core

This project models the framework-agnostic core of ota-common in Dafny and proves what its
parts promise together: a firmware image cut into blocks on one device ends up, byte for byte, in the store of
another, over a radio that loses, repeats, reorders and damages frames.

| file | what it models |
|---|---|
| `Wire.dfy` | machine widths, little-endian codecs, fixed layouts |
| `Merkle.dfy` | `src/merkle.cpp` (and its Python twin): the loops, and the recursive tree they compute |
| `Sha256.dfy` | `src/sha256.cpp`: the streaming object over an arbitrary compression function |
| `Trailer.dfy` | `src/trailer.cpp`: CRC-32 and the self-identity trailer, on bit-vectors |
| `Blocks.dfy` | how packager and seeder cut a payload, and what a forged block gives away |
| `Package.dfy` | `src/package.cpp` and the Python packager: writer and reader of one format |
| `Frames.dfy` | frame codec, fragmentation, the reassembler |
| `Stores.dfy` | `BufferBlockStore`, `FlashTargetBlockStore` |
| `Protocol.dfy` | receiver and seeder as state machines on values |
| `Formats.dfy` | frames, START, manifest, header and package byte by byte at their offsets; what a built package records and what its integrity check binds |
| `Receiver.dfy`, `Seeder.dfy` | the two classes: fields updated in place, frames as bytes, the sources' loops; every method is proved to perform one step of the state machine |
| `Dispatch.dfy` | what each side does with a frame of each session, type and manifest, by the numbers on the wire |
| `Reassembly.dfy` | what a reassembler holds whatever it hears, and what genuine pieces make of it |
| `Safety.dfy`, `Radio.dfy` | what every step keeps; runs with loss, repetition, reordering, damage and reboots |
| `Delivery.dfy`, `Convergence.dfy`, `Completion.dfy` | lossless runs under any scheduler: healing and termination |
| `Recovery.dfy` | a lossless end after any amount of bad radio |
| `StopAndWait.dfy` | exactly which lossless runs are stop-and-wait |
| `LeafLoop.dfy` | the seeder's 32-bit offset arithmetic, for every geometry |
| `Stalls.dfy` | exactly which lossless runs come to rest |
| `Limits.dfy` | what the code does outside the assumptions, with exact conditions |
| `EndToEnd.dfy` | the objects wired together: build, sign, seed, receive |

## How to read it

*Hashes.* `hash_leaf` is an arbitrary function from byte strings to 32 bytes and `hash_pair` hashes the two children one
after the other, so nothing depends on what the hash computes. No injectivity is assumed: soundness statements say
"equal, or here are two inputs with one hash", and the two inputs are computed from what was accepted
(`Blocks.Forgery`, `Merkle.FindCollision`). `EndToEnd.ForgeryBreaksCompression` carries such a pair down to two inputs of the
SHA-256 compression function.

*State machines and objects.* The C++ classes are Dafny classes. Their methods are specified by the functions of
`Protocol.dfy` and `Stores.dfy`, and the run theorems are about those functions. The abstraction is real: the objects hold
zero-filled buffers with a fill mark, bytes and 32-bit sums; the functions hold prefixes, frames and blocks.
`IBlockStore` is `Stores.BlockStore`, a choice between the two implementations in the repository. `IFrameOut` is the
`outbox` field. `IFlashTarget` is a byte array that accepts in-range writes. `ISignatureVerifier` is an
optional predicate; without it the signature is not checked. `std::vector` fields that are resized or reassigned are `seq` fields.

*Why every interleaving is covered.* The seeder keeps no state but its `done` flag, so the frames on their way to the
receiver, followed by the seeder's answers to the frames on their way to it, form one queue that deliveries to the seeder do not
change (`Delivery.ReplyKeepsLine`) and deliveries to the receiver shorten from the front (`Delivery.DeliveryMoves`). Every run of
the network is therefore a run of this one queue, and the pair (deliveries left until the queue is empty, frames waiting for the
seeder) drops lexicographically at every delivery: the first part at one to the receiver (`EndToEnd.HeadingAfterDelivery`), the
second at one to the seeder (`Delivery.ReplyKeepsLine`), which leaves the first as it is (`EndToEnd.HeadingAfterReply`).

*Assumptions.* The run theorems are about packages in 16-bit geometry (`Protocol.Pkg`): block size 1 to 65535, at most 65535
blocks, and the manifest's count and length describe the payload. Over the bad radio the receiver may get anything at any time,
with two bounds (`Safety.Deliverable`): once the manifest is accepted a START must not announce another block count, and a
MANIFEST frame must be a piece of the package's own, unless the verifier trusts no other manifest, in which case it may be
anything too. The seeder may get anything; a DONE or ABORT the receiver never sent is recorded, because it stops the seeder. In
lossless runs the application gives the accepted manifest to its store after each frame. The full-image path in section 4 of
docs/guide.md gives it once the manifest has arrived; the loop of section 3 never does, and `Stalls.UnprimedNeverRests` says what
follows. The theorems that end in delivery ask that a flash target have room for the payload (`Completion.Servable`), and
`Stalls.RestsExactly` says that this is what decides whether a session ends. `Limits.dfy` shows what happens when the other
assumptions fail.

## Findings

- `handle_start` (src/transport.cpp:182) overwrites the geometry of an already accepted manifest. `Limits.LateStart` gives the
  exact condition under which the geometry survives. `Limits.EmptyStartCompletes` is a START that completes a transfer in which
  nothing is stored, and after a START of one block the two top nodes of the tree pass for the whole payload
  (`Limits.OneBlockStart`), with no hash collision involved. docs/guide.md says that the manifest is authoritative; the code makes
  it so only for a START that comes before it (`Limits.EarlyStart`).
- Without a START the manifest's 32-bit block count is narrowed to 16 bits (src/transport.cpp:235). `Limits.NarrowedGeometry` gives
  the exact condition; a new receiver is complete at once exactly when the count is a multiple of 65536 (`Limits.NarrowedCount`),
  and 65537 blocks are verified as a tree of one (`Limits.WrappedCountIsOneLeaf`).
- `try_finish_block` acknowledges a verified block whatever the store says (src/transport.cpp:309): `Limits.AcknowledgedIsNotStored`
  says when the block is stored, by what can be seen before the call. A store that cannot take the lowest missing block is asked
  for it for ever (`Stalls.NeverQuiet`). So, forged blocks with a colliding hash aside, a lossless session comes to rest exactly when the store
  has room for the whole payload or everything already (`Stalls.RestsExactly`); over a smaller flash target it stores the blocks
  that fit and then never ends. And with an application that never gives its store the manifest it comes to rest exactly when no block is missing
  (`Stalls.UnprimedRestsExactly`).
- The parser looks at no size but the payload's (`Limits.AnyGeometryIsAccepted`), and the seeder narrows the block size to 16 bits
  (src/transport.cpp:405). Its leaf loop ends exactly when the payload's length and the largest power of two dividing the narrowed
  block size sum to at most 2^32 (`LeafLoop.EndsExactly`), and does so on the payload's own bytes exactly when the payload rounded up
  to whole blocks stays below 2^32 (`LeafLoop.LoopIsSound`). A block size of 65536, which the packager writes, keeps it at offset
  zero for ever (`Limits.NarrowedToNothing`). Requests are answered from the payload exactly when the last block announced does
  not start beyond its end (`LeafLoop.RequestsInside`).
- The packager's reader (tools/packager/package.py:241) does not look whether the signature is there. It differs from the device's
  exactly on packages of an empty payload that end inside their signature (`Package.ReadersAgree`): the packager's own package of an
  empty image, cut there, passes `verify_integrity`, is rejected by the device, and is accepted by it once a signature is attached
  (`Package.CutPackageIsIntact`).
- "Stop-and-wait" holds exactly for receivers with no complete block waiting for its proof that the transfer gets to, except the
  last one missing when it will be stored (`StopAndWait.RequestsOneAtATime`). One lost PROOF is enough to break it
  (`StopAndWait.LostProofOverlaps`): the receiver asks for the next block while the rest of the answer to the previous request is
  still arriving. Such overlaps are what `Convergence.TwoExchangesHeal` recovers from.
- The CRC detects every burst of 32 bits and no more: `Trailer.WindowIsTight` has a 33-bit burst for every register, and
  `Trailer.FiveBytesCanCollide` one in whole messages, at every position.

## Model

| member | source | states |
|---|---|---|
| Merkle.ReduceLevel | src/merkle.cpp:27-37 | one level up: node k is the hash of nodes 2k and 2k+1, an unpaired tail is promoted unchanged |
| Merkle.Split | src/merkle.cpp:39-49 | the split point of the equivalent recursive tree is the largest power of two below the leaf count |
| Merkle.MerkleRoot | src/merkle.cpp:39-49 | the bottom-up loop returns the root of the top-down tree of section 2.1 of RFC 6962 (without its prefixes), zeros for no leaves |
| Merkle.MerkleProof | src/merkle.cpp:51-70 | the loop over real levels returns the audit path of section 2.1.1 of RFC 6962, nothing for an index out of range |
| Merkle.ReduceKeepsTreeRoot | src/merkle.cpp:39-49 | reducing a level with promotion never changes the root of the recursive tree |
| Merkle.AuditPathStep | src/merkle.cpp:59-68 | one turn of the proof loop: sibling if there is one, then the path one level up |
| Merkle.MerkleVerify | src/merkle.cpp:72-93 | the index-and-count loop accepts exactly when the fold over the rebuilt shape gives the root and uses up the proof |
| Merkle.Completeness | src/merkle.cpp:51-93 | for all leaves and indices the generated proof is accepted against the generated root |
| Merkle.PositionBinding | src/merkle.cpp:72-93 | two accepted leaf-proof pairs for one position and root are equal, or a computed pair of nodes collides |
| Merkle.Soundness | src/merkle.cpp:72-93 | what is accepted is the real leaf with the real path, or a collision is computed from the inputs |
| Merkle.OnlyExactLengthFolds | src/merkle.cpp:77-92 | a proof folds to a root exactly when it has the length fixed by index and leaf count |
| Merkle.ProofLength | src/merkle.cpp:51-70 | the generated proof has that length, at most 16 hashes for 16-bit leaf counts |
| Sha256.Hasher.constructor | src/sha256.cpp:31-42 | a reset hasher has consumed nothing |
| Sha256.Hasher.Absorb | src/sha256.cpp:86-98 | buffering a piece that fits, compressing when the buffer is full, appends it to the consumed message |
| Sha256.Hasher.Update | src/sha256.cpp:84-99 | update appends the data to the consumed message, for any data, with the bit count modulo 2^64 |
| Sha256.Hasher.Pad | src/sha256.cpp:101-107 | the pad loop terminates although the buffer wraps at 64, having added 0x80 and the least number of zeros |
| Sha256.Hasher.Finish | src/sha256.cpp:101-122 | finish returns the fold of compression over the padded message: every four bytes of the digest are one word of that state as a numeral, highest byte first |
| Sha256.HashPieces | src/sha256.cpp:84-128 | however a message is cut into updates, the digest is that of the whole message |
| Sha256.DigestWord | src/sha256.cpp:116-121 | four bytes of the digest of any message, read as a numeral with the highest byte first, are that word of the folded state |
| Sha256.PaddingSays | src/sha256.cpp:101-114 | the padding is 0x80, the fewest zeros, and eight bytes that read, highest first, as the length in bits modulo 2^64 |
| Sha256.FoldChain | src/sha256.cpp:84-99 | the folded state is reached from the initial one block by block, from the front |
| Sha256.InitialState | src/sha256.cpp:31-42 | the initial words are the first 32 bits of the fractions of the square roots of the first eight primes |
| Sha256.ZeroCount | src/sha256.cpp:105-107 | the number of zeros leaves exactly the eight length bytes of the last block |
| Sha256.StillPadding | src/sha256.cpp:106-107 | the buffer holds 56 bytes for the first time exactly when that number has been added |
| Sha256.LastBlockFixesLength | src/sha256.cpp:101-114 | below 2^61 bytes, equal last blocks mean equal message lengths |
| Sha256.HashCollisionIsBlockCollision | src/sha256.cpp:84-122 | two messages with one digest yield two different inputs of the compression function with one output |
| Trailer.ShiftByte | src/trailer.cpp:10-14 | eight masked shifts feed the eight bits of a byte to the register, lowest first |
| Trailer.Crc32 | src/trailer.cpp:7-17 | the byte loop computes the bit-serial CRC of clause 3.2.9 of IEEE 802.3 |
| Trailer.PolynomialIsStandard | src/trailer.cpp:13 | the word fed back has exactly the exponents of the standard's polynomial, reflected |
| Trailer.CheckValue | test/test_trailer/test_trailer.cpp:32-36 | the checksum of the nine digits is 0xCBF43926 |
| Trailer.FeedInjective | src/trailer.cpp:11-14 | no two registers merge on the same input |
| Trailer.BurstChangesRegister | src/trailer.cpp:7-17 | streams that differ only inside 32 consecutive bits, at any offset and length, leave different registers |
| Trailer.BurstDetected | src/trailer.cpp:7-17 | equally long messages that differ in such a burst never share a checksum |
| Trailer.StreamInjective | src/trailer.cpp:9-14 | a message can be read back from the bits fed to the register |
| Trailer.WindowIsTight | src/trailer.cpp:7-17 | from every register there are streams differing in 33 consecutive bits that merge |
| Trailer.OtaTrailer.Finalize | src/trailer.cpp:19-24 | a finalized trailer is valid and its other fields are untouched |
| Trailer.OtaTrailer.IsValid | src/trailer.cpp:26-35 | valid exactly when the 172 bytes carry the magic, the format and the CRC of the rest |
| Trailer.ValidByBytes | src/trailer.cpp:26-35 | 172 bytes are valid exactly when they start with the magic's four bytes and format 1 and end with the checksum of the rest, lowest byte first |
| Trailer.OtaTrailer.ImageLayout | include/ota_common/trailer.h:25-38 | every field stands at its offset in the 172 bytes |
| Trailer.DamagedTrailerRejected | src/trailer.cpp:26-35 | no burst of up to 32 bits anywhere, even across the checksum, turns a valid trailer into a valid one |
| Trailer.FourBytesDetected | src/trailer.cpp:7-35 | equally long messages that differ only inside four consecutive bytes have different checksums, and are not both valid trailers |
| Trailer.FiveBytesCanCollide | src/trailer.cpp:7-17 | between any bytes there are two five-byte stretches, differing in 33 consecutive bits, that leave the checksum the same |
| Blocks.LeavesFor | tools/packager/merkle.py:35-39 | the packager's leaves are the hashes of the payload's blocks in order |
| Blocks.BlocksJoin | tools/packager/merkle.py:35-39 | the blocks put together are the payload |
| Blocks.BlockAt | src/transport.cpp:450-462 | block i starts at i times the block size and is full unless it is the last |
| Blocks.BlockCount | src/transport.cpp:409-413 | the number of blocks is the length over the block size, rounded up |
| Blocks.NoWrap | src/transport.cpp:405-413 | in 16-bit geometry no sum of an offset and a block size reaches 2^32 |
| Blocks.AcceptedBlock | src/merkle.cpp:95-100 | a block that passes verification is the payload's, or two inputs with one hash are computed from it |
| Wire.Put16IsInverse | src/transport.cpp:11-17 | the 16-bit codec is a bijection |
| Wire.Get32Put32 | src/transport.cpp:18-27 | reading what was written gives the 32-bit number back |
| Wire.Put32Get32 | src/transport.cpp:18-27 | writing what was read gives the four bytes back |
| Wire.LittlePut | src/transport.cpp:11-27 | what is written is the number as a numeral, lowest byte first |
| Package.PackThenUnpack | tools/packager/formats.py:151-207 | a packed manifest has 192 bytes and is read back unchanged |
| Package.UnpackThenPack | include/ota_common/manifest.h:26-46 | any 192 bytes are the packing of what is read from them |
| Package.HeaderRoundTrip | tools/packager/formats.py:210-222 | the 16-byte package header is a bijection with its fields |
| Package.TextRoundTrip | tools/packager/formats.py:33-41 | a text survives its fixed-width field exactly when it has no NUL and leaves room for one |
| Package.TextAsRead | tools/packager/formats.py:33-41 | any text is read back from its field as its longest beginning that leaves room for a NUL, up to its first NUL |
| Formats.ManifestAsRead | include/ota_common/manifest.h:26-44 | every field of a manifest is read from its own offset in the 192 bytes, numbers lowest byte first |
| Formats.ManifestAsWritten | tools/packager/formats.py:151-207 | and written there |
| Formats.HeaderAsRead | include/ota_common/package.h:21-27 | every field of the package header is read from its own offset in the 16 bytes |
| Package.Build | tools/packager/package.py:109-141 | builds header, manifest, zero signature and payload; fails exactly when a size does not fit its field or the block size is zero; `Formats.BuiltRecords` says what then stands in the bytes |
| Formats.BuiltRecords | tools/packager/package.py:109-141 | what stands where in a built package, full or delta: delta flag exactly for a delta, sizes and root of the payload, length and hash of the output image, zero signature, payload |
| Formats.BuiltIdentity | tools/packager/package.py:109-141 | each of the three texts is read back from its own field exactly when it has no NUL and leaves room for one; otherwise as much as fits |
| Formats.BuiltGateOpens | tools/packager/package.py:274-279 | the output gate of a built package, full or delta, opens for the image it was built from, and for another one only if two images hash alike |
| Package.Parse | src/package.cpp:7-51 | the advancing-offset parser returns the first broken rule, or accepts exactly the well-formed buffers and returns their sections |
| Formats.VerdictByBytes | src/package.cpp:7-51 | which error any buffer gets, by the numbers at its offsets: that of the first rule it breaks |
| Formats.AcceptedByBytes | src/package.cpp:7-51 | a buffer is accepted exactly when magic, format, section sizes, manifest mark and payload length stand at their offsets |
| Package.BuildThenParse | tools/packager/package.py:109-141 | everything the packager emits is accepted and read back as what was put in |
| Package.AssembleSections | src/package.cpp:44-49 | the sections of a buffer put together are the buffer |
| Package.ParsePackage | tools/packager/package.py:241-257 | the packager's reader takes exactly the buffers with a good header and manifest whose bytes after the signature slot, even none, have the announced length |
| Package.ReadersAgree | tools/packager/package.py:241-257 | it takes all the device's parser accepts, and beyond that exactly the packages of an empty payload that end inside the signature |
| Package.ReemitAccepted | src/package.cpp:13-42 | what the packager would write again for an accepted buffer is the buffer itself exactly when the unchecked header flags are zero |
| Package.SigningTouchesOnlySignature | tools/packager/package.py:218-223 | for buffers of any length, attaching a signature changes the signature section only, and the device accepts what comes out exactly when the packager's reader takes what went in |
| Package.VerifyIntegrity | tools/packager/package.py:260-271 | accepts exactly what the packager's reader takes and whose payload has the manifest's root and, for full images, its output hash |
| Formats.IntactPayloadIsBound | tools/packager/package.py:260-271 | two packages with one manifest that both pass, full or delta, have the same payload, or two inputs with one hash are computed from the two payloads |
| Package.BuiltIsIntact | tools/packager/package.py:109-141 | a built package passes its own integrity check exactly when it is a delta or its payload hashes like the output |
| Package.CutPackageIsIntact | tools/packager/package.py:241-271 | the package of an empty image cut inside its signature is intact, rejected by the device, and accepted once signed |
| Frames.FrameRoundTrip | src/transport.cpp:29-46 | an encoded frame decodes to itself |
| Frames.DecodedFrameReencodes | src/transport.cpp:37-46 | a decoded frame encodes to the bytes it came from |
| Formats.FrameLayout | src/transport.cpp:29-36 | type, session, index, offset and total stand at bytes 0, 1, 2, 4 and 6, lowest byte first, and the body from 8 on |
| Formats.FrameAsRead | src/transport.cpp:37-46 | and are read from there; fewer than eight bytes are no frame |
| Formats.ReceiverFrameBytes | src/transport.cpp:111-142 | REQUEST, ACK and DONE as the bytes that go out |
| Frames.StartRoundTrip | src/transport.cpp:48-66 | an encoded START body decodes to itself |
| Formats.StartLayout | src/transport.cpp:48-57 | START stands with its five sizes at their offsets, manifest 192 and signature 64 |
| Formats.StartAsRead | src/transport.cpp:58-66 | and is read from there; a body of fewer than twelve bytes is not read |
| Frames.FragmentsFit | src/transport.cpp:417-424 | the frame of a fragment of up to 225 bytes fits the 233-byte frame buffer |
| Formats.FragmentAt | src/transport.cpp:438-483 | fragment k carries the unit's bytes from k times the fragment size on, with that offset and the unit's length, and there are as many as that takes |
| Frames.Reassembler.Reset | src/transport.cpp:84-89 | an active reassembler holding nothing of a unit of the given length |
| Frames.Reassembler.Feed | src/transport.cpp:91-103 | takes exactly the fragment that continues the prefix and fits; true exactly when the buffer is the whole unit |
| Frames.UnitRebuilt | src/transport.cpp:438-483 | any unit in fragments of any size, in order, is rebuilt at the last fragment and not before |
| Frames.PiecesKeepPrefix | src/transport.cpp:91-103 | over any sequence of lost, repeated and reordered pieces only prefixes of the unit are held, and completion means the whole unit |
| Reassembly.HeldIsAChain | src/transport.cpp:91-103 | whatever frames a reassembler hears, genuine or not, it holds a chain of bodies heard in that order, each starting where the one before ended, and no more than the announced length; done means exactly that length |
| Reassembly.StepGenuine | src/transport.cpp:247-317 | on a piece of what the seeder sends, what is held stays genuine and a block that is tried is verified |
| Reassembly.GenuinePiecesMakeGenuineBlocks | src/transport.cpp:247-317 | under lost, repeated and reordered pieces of any sizes, among frames of other sessions, every block held or verified is the payload's own, with its own audit path |
| Stores.FlashTargetBlockStore.PutBlock | src/transport.cpp:325-350 | lazy begin, idempotence, sequential writes only, 32-bit offset; the whole new state |
| Stores.BufferBlockStore.PutBlock | src/transport.cpp:354-385 | lazy geometry, bounds, idempotence, random access; the whole new state |
| Stores.PutRegular | src/transport.cpp:325-385 | whatever bytes are put, the count is the number of distinct indices, the flash journal is a prefix, and stored blocks stay stored |
| Stores.PutAccepted | src/transport.cpp:325-385 | a primed store takes every correct block, the flash store the next one |
| Stores.PutStoresExactly | src/transport.cpp:325-385 | whatever the data, a put leaves the block stored exactly if it was, or the store has the manifest, it is the block's turn and the data fits |
| Stores.PutFaithful | src/transport.cpp:325-385 | a correct block goes to its slot and no other block is disturbed |
| Stores.PutChangesOnly | src/transport.cpp:325-385 | a put of any data leaves a stored block alone, changes nothing if it does not store, and otherwise exactly the bytes from the block's offset on |
| Stores.FlashHoldsPrefix | src/transport.cpp:341-349 | the flash target holds exactly the payload prefix of the blocks written |
| Stores.OrderDoesNotMatter | src/transport.cpp:368-385 | correct blocks in any order with repetitions: exactly those indices stored, counted once each |
| Stores.FullCountIsPayload | src/transport.cpp:154-160 | when the count reaches the number of blocks the buffer is the payload |
| Stores.PutKeepsEnd | src/transport.cpp:325-385 | a correct block never touches what lies beyond the payload in a larger target |
| Stores.FullStoresEqual | include/ota_common/transport.h:89-97 | two full stores of one package, alike beyond the payload, hold the same bytes and journal, with the payload in front |
| Receivers.OtaReceiver.constructor | src/transport.cpp:107-109 | a new receiver is in the initial state over its store |
| Receivers.OtaReceiver.NextNeededBlock | src/transport.cpp:122-128 | the lowest index without a stored block, or the manifest sentinel |
| Receivers.OtaReceiver.RequestNext | src/transport.cpp:130-142 | asks for the manifest or the lowest missing block, or completes and says so |
| Receivers.OtaReceiver.OnFrame | src/transport.cpp:144-175 | one byte frame performs exactly one step of the state machine and emits its frames; too short, of another session or late, it changes nothing |
| Dispatch.ForeignIsIgnored | src/transport.cpp:148-149 | a frame of another session changes nothing and is not answered |
| Dispatch.OnlyOwnSession | src/transport.cpp:148-149 | over any mixture of sessions a receiver ends where its own session's frames alone would take it, having sent the same |
| Dispatch.ByType | src/transport.cpp:156-174 | which types are for a receiver in which state, by their numbers |
| Dispatch.AbortIsFinal | src/transport.cpp:169-171 | after an own ABORT a receiver that was not complete is aborted for the rest of any run, store and everything else as it was, and silent |
| Dispatch.StartIsTaken | src/transport.cpp:182-194 | a readable START sets the three sizes to the numbers at its offsets and makes the receiver ask |
| Dispatch.AsksFor | src/transport.cpp:122-142 | what is asked for: the manifest, or the lowest index without a stored block, or DONE exactly when there is none |
| Receivers.OtaReceiver.Poll | src/transport.cpp:177-180 | a poll performs the poll step |
| Receivers.OtaReceiver.HandleManifest | src/transport.cpp:196-245 | manifest reassembly, checks, geometry cross-check and adoption |
| Dispatch.ManifestDecides | src/transport.cpp:196-245 | any unit sent as manifest is adopted exactly when it has 192 bytes, magic, format, a signature the verifier accepts (if there is a verifier) and the sizes a START announced; else the receiver is aborted with no manifest, its store as it was, and silent |
| Receivers.OtaReceiver.HandleBlock | src/transport.cpp:247-264 | block reassembly and trial |
| Receivers.OtaReceiver.HandleProof | src/transport.cpp:266-297 | proof reassembly, cutting into hashes and trial |
| Dispatch.UnevenProofIsDropped | src/transport.cpp:284-289 | a proof that is no whole number of hashes is dropped when complete: nothing tried, kept of it or said |
| Receivers.OtaReceiver.TryFinishBlock | src/transport.cpp:299-317 | verify, store and acknowledge if genuine, drop the copies either way, go on |
| Dispatch.BlockDecides | src/transport.cpp:299-317 | a whole block whose proof is held, in fragments of any size: if it verifies against the root it is put, and acknowledged before anything else is said; if not, the store is as it was and nothing is acknowledged; both copies are dropped either way |
| Dispatch.AcknowledgedAreVerified | src/transport.cpp:306-316 | over any run the blocks acknowledged are the blocks verified, one by one and in that order |
| Receivers.HashesOf | src/transport.cpp:290-293 | the loop cuts the unit into the hashes it was laid out from |
| Convergence.HashesSurvive | src/transport.cpp:473-476 | cutting a laid-out proof gives the proof back |
| Seeders.HashLeaves | src/transport.cpp:409-413 | for every geometry on which it can, the 32-bit offset loop terminates and hashes the same blocks as the packager |
| Seeders.OtaSeeder.constructor | src/transport.cpp:389-415 | valid exactly for accepted packages, with their sections, whatever geometry they announce as long as the leaf loop is sound on it; fragment size clamped to 1..225 |
| Seeders.OtaSeeder.Begin | src/transport.cpp:426-436 | a valid seeder announces the manifest's geometry, narrowed |
| Seeders.OtaSeeder.SendManifest | src/transport.cpp:438-448 | the manifest and signature unit in fragments |
| Seeders.OtaSeeder.SendBlock | src/transport.cpp:450-463 | the requested slice of the payload in fragments, nothing for an index the announced count excludes |
| Seeders.OtaSeeder.SendProof | src/transport.cpp:465-483 | the requested proof in fragments, one empty frame for an empty proof |
| Seeders.OtaSeeder.OnFrame | src/transport.cpp:485-512 | one byte frame is answered as specified; done on DONE or ABORT of its session; other sessions and other types are not answered |
| Dispatch.SeederHears | src/transport.cpp:485-512 | requests of its own session are answered and nothing else; a block out of range gets one empty PROOF |
| Dispatch.SeederServesBlock | src/transport.cpp:450-502 | a block request is answered with all of the block's audit path and then all of the block |
| Seeders.ShapedAnswer | src/transport.cpp:485-502 | over a package in 16-bit geometry every request can be answered, with exactly the manifest unit, or the audit path and the block, of the protocol |
| Seeders.AcceptedIsParsable | src/package.cpp:7-51 | what the parser accepts has a 192-byte manifest, a 64-byte signature and the payload length the manifest gives |
| LeafLoop.EndsExactly | src/transport.cpp:409-413 | the loop over 32-bit offsets ends exactly when the payload length and the largest power of two dividing the block size sum to at most 2^32 |
| LeafLoop.StaysInsideExactly | src/transport.cpp:409-413 | no turn reads beyond the payload exactly when the payload rounded up to whole blocks stays below 2^32, or the block size is zero |
| LeafLoop.LoopIsSound | src/transport.cpp:405-414 | it ends, having hashed the payload only, exactly when there is nothing to hash, or the block size is not zero and the last sum does not wrap |
| LeafLoop.RequestsInside | src/transport.cpp:450-455 | every request is answered from the payload exactly when the last block announced does not start beyond its end |
| Safety.TryFinishKeeps | src/transport.cpp:299-317 | after a trial no block and proof of one index wait for each other, and only verified blocks were stored |
| Safety.StartKeeps | src/transport.cpp:182-194 | a START keeps the invariant, whatever it announces before the manifest, and later if the block count is the manifest's |
| Safety.FrameKeeps | src/transport.cpp:144-317 | whatever is delivered within the bounds of `Deliverable`, forged early STARTs included: invariant kept, manifest and stored blocks never lost, completion and abort final, DONE only when complete, stored blocks never requested |
| Safety.AnyFrameKeeps | src/transport.cpp:144-317 | whatever is delivered without any bound: an accepted manifest and stored blocks never lost, completion and abort final, DONE only when complete, stored blocks never requested, and completion means that every announced block is stored |
| Safety.PollKeeps | src/transport.cpp:177-180 | the same for a poll |
| Safety.FreshSound | src/transport.cpp:107-109 | a reboot over a surviving store starts in the invariant |
| Radio.ApplyHolds | src/transport.cpp:485-512 | every event of a faulty run keeps the global invariant |
| Radio.RunHolds | src/transport.cpp:122-317 | the global invariant holds in every reachable state |
| Radio.DoneMeansComplete | src/transport.cpp:503-508 | unless a frame the receiver never sent stopped it, seeder done implies every block stored, and receiver complete if it did not reboot |
| Radio.StoredBlocksAreGenuine | src/transport.cpp:299-317 | in every faulty run each stored block is the payload's and a complete store is the payload, or a verified block of the run yields two inputs with one hash |
| Radio.FrameStore | src/transport.cpp:247-317 | what a frame does to the store is exactly the put of the block it verified, if any |
| Radio.RunKeepsEnd | src/transport.cpp:325-385 | a run in which only genuine blocks were verified leaves what lies beyond the payload as it was |
| Radio.ResumedRunsEndAlike | include/ota_common/transport.h:89-97 | runs cut by reboots anywhere end with the same bytes, to the end of a target of any size, and the same journal as uninterrupted ones, or a verified block yields two inputs with one hash |
| Delivery.DeliveryMoves | src/transport.cpp:144-175 | a delivery to the receiver moves the one queue by one frame |
| Delivery.ReplyKeepsLine | src/transport.cpp:485-512 | a delivery to the stateless seeder leaves the one queue as it is |
| Delivery.Drain | test/test_transport/test_transport.cpp:131-155 | if the one queue comes to rest then so does the network, under every scheduler |
| Convergence.BlockReceived | src/transport.cpp:247-264 | a whole block arrives whatever was left in the reassembler |
| Convergence.ProofReceived | src/transport.cpp:266-297 | a whole proof arrives whatever was left in the reassembler |
| Convergence.LowestAccepted | include/ota_common/transport.h:105-109 | the lowest missing block is always one the store takes if it has room for it, so the sequential flash store refuses nothing else |
| Convergence.RoomyHasRoom | src/transport.cpp:344-345 | a store with room for the payload has room for every block; a smaller flash target has none for the last |
| Convergence.FullExchange | src/transport.cpp:247-317 | one fault-free exchange stores the lowest missing block, if there is room for it, unless a stale block spoils it, which is then asked for again; no other block is touched |
| Convergence.TwoExchangesHeal | src/transport.cpp:177-180 | from any state of a transfer one poll and at most two exchanges store the lowest missing block, if there is room for it |
| Completion.ManifestReceived | src/transport.cpp:196-204 | the manifest unit arrives whatever was left in the reassembler |
| Completion.BlocksComplete | src/transport.cpp:130-142 | block after block is stored until the receiver is complete and the queue empty |
| Completion.LosslessDelivery | src/transport.cpp:144-175 | every lossless session over a store with room for the payload or everything stored, from any open receiver state, under every scheduler, drains both queues with receiver complete, seeder done, every block stored, and the payload in a clean store |
| Completion.SchedulersAgree | test/test_transport/test_transport.cpp:131-155 | any two runs that come to rest leave the receiver in the same state |
| Recovery.AdvanceIsPossible | test/test_transport/test_transport.cpp:131-155 | a lossless delivery is a possible step of the bad radio |
| Recovery.OnePollRecovers | src/transport.cpp:177-180 | after any possible run of the bad radio one poll over a lossless radio ends delivered under every scheduler, with the payload in the store or two inputs with one hash |
| StopAndWait.CalmIsPatient | src/transport.cpp:299-317 | from a request on, as long as the transfer lasts, a calm receiver asks for the next thing only with the last frame of an answer |
| StopAndWait.RestlessOverlaps | src/transport.cpp:299-317 | a receiver that is not calm sooner or later asks before the answer to its last request is over |
| StopAndWait.RequestsOneAtATime | include/ota_common/transport.h:9 | at every moment under every scheduler at most one request is under way and none while an answer is, if and only if no complete block the transfer gets to waits for its proof but the last one missing, which verifies and fits |
| StopAndWait.LostProofOverlaps | include/ota_common/transport.h:9 | a block that arrives without its proof, with another one missing, breaks the pattern after the next poll under every scheduler |
| Limits.LateStart | src/transport.cpp:182-194 | geometry survives a late START exactly when it announces the manifest's; it completes exactly when the announced blocks are stored |
| Limits.EmptyStartCompletes | src/transport.cpp:182-194 | a START that announces no blocks completes any transfer in progress |
| Limits.EarlyStart | src/transport.cpp:227-233 | a START before the manifest ends the session at the manifest's arrival exactly when the two disagree |
| Limits.OneLeafTree | src/merkle.cpp:72-93 | a receiver that takes a tree of several blocks for a tree of one stores its two top nodes as block 0 and is complete, without a collision |
| Limits.OneBlockStart | src/transport.cpp:182-194 | a START of one block does that to a transfer whose block 0 is missing and not waiting and whose store has room for 64 bytes |
| Limits.DeliveredIfTrusted | src/transport.cpp:220-225 | a session is delivered if there is no verifier or it accepts the signature over the manifest, and otherwise comes to rest aborted, without a manifest and with the store as it was |
| Limits.NarrowedGeometry | src/transport.cpp:228-238 | without START geometry is kept exactly when it fits 16 bits; with START an oversized manifest is refused |
| Limits.NarrowedCount | src/transport.cpp:234-244 | a new receiver that gets a trusted manifest and no START waits for the count modulo 65536, and is complete at once exactly when that is zero |
| Limits.WrappedCountIsOneLeaf | src/transport.cpp:234-244 | a manifest of 65537 blocks is served as a tree of one |
| Limits.AcknowledgedIsNotStored | src/transport.cpp:306-316 | a verified block is always acknowledged; it is stored exactly if it was, or the store has the manifest, it is the block's turn and it fits; if not, it is asked for again |
| Limits.JournalOverrun | src/transport.cpp:341-346 | the flash store marks its journal past the end exactly for the index after the last block, when it is next and fits |
| Limits.AnyGeometryIsAccepted | src/package.cpp:7-51 | a manifest with any block size and count makes an accepted package |
| Limits.SeederServes | src/transport.cpp:389-463 | on which parsed packages the seeder's leaf loop ends on the payload's bytes, and for which it answers every request from them |
| Limits.AnswerableIsInside | src/transport.cpp:450-455 | a request can be answered exactly when the 32-bit arithmetic stays inside the payload |
| Limits.NarrowedToNothing | tools/packager/package.py:109-141 | the packager's own output with block size 65536 is accepted and keeps the leaf loop at offset zero for ever |
| Stalls.TrainInVain | src/transport.cpp:299-317 | the whole answer to a request for a block the store turns away ends in the same request |
| Stalls.NeverRests | src/transport.cpp:299-317 | from that request on there is always a frame on its way |
| Stalls.NeverQuiet | src/transport.cpp:299-317 | so the network is never quiet, under any scheduler |
| Stalls.SmallTargetStalls | src/transport.cpp:344-345 | a flash target too small for the lowest missing block is such a store |
| Stalls.NeverSettles | src/transport.cpp:130-142 | over a target too small for the payload the blocks that fit are stored and the line is never empty |
| Stalls.RestsExactly | src/transport.cpp:130-142 | a lossless session, however it opens, comes to rest under a scheduler if and only if the store has room for the payload or everything already, or a waiting block yields two inputs with one hash |
| Stalls.ServedAgain | src/transport.cpp:299-317 | the same answer is on its way again each time it has been heard |
| Stalls.UnprimedNeverRests | docs/guide.md:111-119 | a receive loop that never gives its store the manifest is served its lowest missing block again and again, with always a frame on its way |
| Stalls.UnprimedRestsExactly | docs/guide.md:111-119 | the network of such a loop comes to rest under a scheduler if and only if no block is missing |
| EndToEnd.ToReceiver | test/test_transport/test_transport.cpp:139-146 | handing an encoded frame to the receiver object is one network step |
| EndToEnd.ToSeeder | test/test_transport/test_transport.cpp:147-152 | handing an encoded frame to the seeder object is one network step |
| EndToEnd.Pump | test/test_transport/test_transport.cpp:131-155 | the pump loop terminates with receiver complete, seeder done, every block stored, and the payload received |
| EndToEnd.Serve | test/test_transport/test_transport.cpp:189-208 | a session over an accepted package with a new receiver leaves the payload in its store |
| EndToEnd.BuiltIsGood | tools/packager/package.py:109-141 | a built and signed package is one the transport carries, with the right root |
| EndToEnd.Transfer | test/test_transport/test_transport.cpp:395-437 | build, sign, seed, receive: the buffer or flash image is the payload, for every payload, block size and fragment size |
| EndToEnd.ForgeryBreaksCompression | src/merkle.cpp:95-100 | with SHA-256, an accepted foreign block yields two inputs of the compression function with one output |

## Left out

- Seeders.OtaSeeder.constructor: requires a geometry on which the leaf loop is sound; on the others the source loops for ever or reads past the payload, which is stated as `LeafLoop.LoopIsSound` and not performed.
- Seeders.OtaSeeder.OnFrame: requires of a block request that the block does not start beyond the end of the payload, where the source would read past it (`Limits.AnswerableIsInside`).
- Stores.FlashTargetBlockStore.PutBlock: the write to `have_` beyond its size, undefined in the source when a caller puts an index past the last block, has no effect here; `Limits.JournalOverrun` says exactly when, and in the runs of `Radio.dfy` the receiver never does it (`Safety.VerifiedIsBacked`).
- EndToEnd.Pump: the iteration cap of the repository's test loop is not modelled.
- `manifest_len_` and `sig_len_` of the receiver are written from START and never read; they are not modelled.
- The 64 rounds of the SHA-256 compression function are a parameter.
- XEdDSA, TweetNaCl and the admin-key verifier: the verifier is an arbitrary predicate.
- Delta encoding and application, ESP image parsing, and the final output-hash gate of a flash target's `commit`.
- Load, LoadCommit and Announce frames: only their codecs are in this repository.
- Flash errors other than a write out of range; radio profiles; the command line; fixture generators.
- `trailer_from_image_tail`, the identity comparisons and `is_signed`: short checks that would only add easy members.
- UTF-8 decoding of text fields: texts are byte strings.
