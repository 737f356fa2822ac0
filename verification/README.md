# AFF4 virtual disk: a verified model

This project models the read path of an AFF4 forensic image and proves that each fast, stateful, chunked mechanism in it
agrees with a simple flat one:

- the packed `aff4:Map` table, decoded, filtered, stably sorted and binary-searched, against a plain scan of the raw
  table (`MapTable.dfy`, `Resolution.dfy`);
- the chunk store of bevies, 12-byte indexes, segment names and codecs, against a writer (`Hex.dfy`, `ChunkStore.dfy`,
  `Writer.dfy`);
- the seekable reader, whose `read` returns only some prefix, against the flat disk `DiskByte` defined by that scan and
  one chunk lookup a byte (`VirtualDisk.dfy`, `Runs.dfy`, `Reader.dfy`), with the exact conditions under which reads succeed
  and agree with it (`Exactness.dfy`);
- positional reads over the shared cursor, alone and by any number of threads (`SharedSource.dfy`, `Threads.dfy`);
- the decryption loop against an encryptor (`Decrypt.dfy`, `Encryption.dfy`);
- the `aff4:hash` scanner against a printer, and the one-pass audit against one digest of the whole content for each
  stored hash (`Digest.dfy`, `HashList.dfy`, `Audit.dfy`).

`Prelude.dfy` holds machine integers, byte strings and the arithmetic of cutting a length into pieces.

`dafny verify dfyconfig.toml` checks everything.

## Conventions

- Arithmetic is that of a release build on a 64-bit target: `Wrap64`, `AsI64` and `WrapI64` say what an overflowing add or a
  cast leaves behind. A debug build panics exactly where these wrap.
- A slice `buf[lo..hi]` handed to `read` is the array with its two bounds.
- The archive is an immutable map from entry names to bytes; a missing name is an error result. The Deflate, Snappy and LZ4
  decoders, the sector cipher and the digests are function values; only their inverse laws are assumed, and only by the
  lemmas that need them (`Writer.Inverts`, `Encryption.CipherInverts`).
- Chunk size and chunks per segment are positive by type, as `parse_image_stream_block` rejects zero
  (core/src/meta.rs:145-152).
- `hide` keeps a definition out of a proof that does not need it; it assumes nothing.

## When reads are right

`VirtualDisk.WellFormed` is the sufficient condition a maker of containers can aim at. It asks that every chunk decodes to
exactly one chunk of bytes (the last may be shorter or longer so long as it covers the rest of the stream), that map entries
end below 2^64, that map targets in the image stream stay inside it, and that the map is *seamless*: where two entries a
lookup can land on overlap below the end of the disk, the later one continues the earlier. `VirtualDisk.TableOkSuffices`
derives the map part from conditions on the raw table (no overlaps at all).

The theorems about runs, positional reads and threads ask for less: `Exactness.ReadsAgree`, every non-empty read inside the
disk succeeds, delivers something, and delivers the flat disk. Well-formed containers are of this kind, and `Exactness.dfy`
says which others are. Every condition that turned out to be exact is proved as an equivalence:

| behaviour | holds exactly when | member |
|---|---|---|
| reads agree with the flat disk, direct image | every chunk covers its share and any surplus repeats the stream | `Exactness.DirectReadsIff` |
| reads agree with the flat disk, mapped image | every chunk covers what the disk needs of it and, wherever a read can run on past the next entry's start or past a chunk's share, it copies the disk's byte all the same | `Exactness.MappedReadsIff` |
| the same, chunks of the right sizes | wherever a read from one entry can run on into a later one, both name the same byte | `Exactness.FittingReadsIff` |
| no way of splitting reads shows | reads agree with the flat disk | `Exactness.SplitsShowIff` |
| no read inside the disk fails or comes back empty | every chunk covers what the disk needs of it | `Exactness.NoShortReadIff` |
| every positional call fills its buffer without failing | the disk has at most 2^63 bytes and each of them can be read | `SharedSource.CallsWholeIff` |
| the guard in the fill loop never fires | each byte of the disk can be read | `Threads.GuardSilentIff` |
| positional reads are right at every offset | the disk has at most 2^63 bytes | `SharedSource.ReadAtIffDiskFits` |
| a seek goes where it was asked | the asked position is below 2^63 | `Runs.SeekIffBelow63` |
| resolving further into a region gives the rest of that region | the map is seamless | `Resolution.CoherentIffSeamless` |
| the lookup and the table agree on which positions are mapped | no entry a lookup can pick runs to or past 2^64 | `Resolution.MappedIffNoWrap` |
| after some reads, one more succeeds with nothing | they have taken everything to the end of the disk | `Runs.EmptyReadIffComplete` |
| a chunk can be read | its index entry is there and does not overflow, and nothing is stored or what is stored lies in the bevy and is whole or decodes | `ChunkStore.ChunkReadableIff` |
| the audit fails | some stored hash is recognised and some chunk of the stream cannot be read | `Audit.AuditFailsIff` |
| decryption fails | the sectors that can be taken in a row stop short of the declared size (or segment numbers run out) | `Decrypt.DecryptionFailsIff` |
| no two chunks of a decryption run share a tweak | no segment left behind is overfull | `Decrypt.RunTweaks` |

The first, second, fourth and fifth rows assume nothing about chunks or overlaps: for a direct image they hold outright, and
for a mapped one they ask only that map ends and stream targets fit in 64 bits (`VirtualDisk.NothingWraps`).

`Runs.OverlapShows`, `Runs.OversizeChunkShows` and `SharedSource.ShortChunkShows` are concrete images on which the
conditions fail.

## Texts and layouts

Writer and reader, printer and scanner share their names and layouts, so a round trip alone would hold for any others too.
Lemmas named `...Spelled` therefore state them against literal text and literal bytes: digits, segment and index names, words
and table entries, tile patterns, algorithm names, hash terms. `HashList.BlockScan` reads a whole block.

## Where the comments say more than the code does

- core/src/map.rs:166 calls `bytes_in_region` what remains "before the next boundary"; an overlapping later entry is not
  taken as a boundary.
- core/src/lib.rs:429 marks the empty ImageStream read unreachable; exactly a chunk that ends before the position asked for
  reaches it, because it is short or because the map points past the stream (`Exactness.ShortReadIff`,
  `Exactness.NoShortReadIff`).
- core/src/vfs.rs:63-68 marks the mid-loop end unreachable; such a chunk reaches it too (`SharedSource.ShortChunkShows`), and
  `Threads.GuardSilentIff` says when the comment holds.

## Model

| member | source | states |
|---|---|---|
| `MapTable.TableRoundTrip` | core/src/map.rs:101-115 | encoding any list of entries and adding a partial tail of fewer than 28 bytes, then decoding, gives back the list |
| `MapTable.EntrySpelled` | core/src/map.rs:101-115 | 28 given bytes decode to the entry whose fields they hold, least significant byte first |
| `Prelude.WordsSpelled` | core/src/lib.rs:479-488 | four- and eight-byte words are read with the least significant byte first |
| `MapTable.StableSortCorrect` | core/src/map.rs:118 | the sort result is sorted by map offset and, for every offset, keeps that offset's entries in file order |
| `MapTable.StableSortUnique` | core/src/map.rs:118 | two sorted lists with the same entries in the same order at every offset are equal, so every stable sort gives this result |
| `MapTable.SortByOffset` | core/src/map.rs:118 | the in-place sort leaves the array holding the stable sort of what it held |
| `MapTable.ParseMapEntries` | core/src/map.rs:101-120 | the parsed list is the stable sort of the non-empty decoded entries |
| `MapTable.PartitionPoint` | core/src/map.rs:176-177 | the binary search stops between an entry starting at or before the position and one starting after it |
| `MapTable.TileRepeats` | core/src/map.rs:43-56 | the tiles spell UNKNOWN and UNREADABLEDATA, repeat them, and start afresh at every multiple of 1 MiB |
| `Resolution.ScanFindsBest` | core/src/map.rs:170-177 | the naive scan returns the non-empty entry with the greatest start at or before the position, the latest in the file among equals, and nothing only if there is none |
| `Resolution.PickIsScan` | core/src/map.rs:101-177 | filtering, stable sorting and binary search pick exactly the entry the naive scan of the raw table picks, on every table |
| `Resolution.LoadedEntries` | core/src/map.rs:101-120 | decoding an encoded table with a partial tail yields a sorted rearrangement of exactly its non-empty entries that keeps file order at equal offsets |
| `Resolution.ResolveReadsTable` | core/src/map.rs:175-206 | on any raw table: kind, target offset and remaining length when the picked entry contains the position and ends below 2^64, the gap default otherwise |
| `Resolution.MappedIffNoWrap` | core/src/map.rs:177-181 | lookup and table agree on mapped positions if and only if no pickable entry ends at or past 2^64 |
| `Resolution.SeamlessIsCoherentAt` | core/src/map.rs:175-206 | in a seamless map, resolving `k` bytes further into a region gives the same kind, the target moved on by `k` and `k` fewer bytes left |
| `Resolution.CoherentIffSeamless` | core/src/map.rs:175-206 | regions hang together at every position and distance if and only if the map is seamless |
| `Resolution.GapIsMaximal` | core/src/map.rs:197-205 | a gap ends exactly at the start of the next entry of the table or at the end of the disk; no entry starts inside it and nothing in it is mapped |
| `Resolution.DisjointTableIsSeamless` | core/src/map.rs:101-193 | a raw table whose entries do not overlap loads as a sorted, non-overlapping, seamless map |
| `Resolution.UnreadableExactly` | core/src/map.rs:83-97 | without overlaps, a position resolves to the unreadable tile if and only if it lies in a reported region |
| `Resolution.RegionsDisjoint` | core/src/map.rs:84-97 | reported regions are sorted and pairwise disjoint |
| `ChunkStore.SegmentNameInjective` | core/src/lib.rs:286 | different segments, of any width, have different bevy names |
| `ChunkStore.NamesSpelled` | core/src/lib.rs:286-287 | a bevy's name is the base, a slash and some text, and its index's that with `.index`, if and only if the text is the segment number in at least eight lower-case hex digits, padded with zeros |
| `ChunkStore.IndexNameDistinct` | core/src/lib.rs:286-287 | index names are injective and never equal a bevy name |
| `ChunkStore.DistinctSlots` | core/src/lib.rs:282-291 | two chunks that read the same slot of the same index are the same chunk |
| `ChunkStore.ChunkReadableIff` | core/src/lib.rs:282-338 | on any archive, chunk `idx` can be read if and only if its index entry exists and does not overflow, and nothing is stored or the stored bytes lie within the bevy and are a whole chunk or decode |
| `ChunkStore.ChunkContent` | core/src/lib.rs:292-338 | a readable chunk is zeros where nothing is stored, the stored bytes where they are as many as a chunk or uncompressed, and otherwise what the declared decoder makes of them |
| `ChunkStore.ChunkErrors` | core/src/lib.rs:282-350 | which error an unreadable chunk gives, by the first thing missing |
| `ChunkStore.Slices` | core/src/lib.rs:254-278 | on any archive a content traversal hands over no more than the declared size |
| `ChunkStore.TraversalFailsIff` | core/src/lib.rs:266-278 | on any archive a traversal fails if and only if some chunk cannot be read, with the first such chunk's error |
| `ChunkStore.SlicesAreChunks` | core/src/lib.rs:266-278 | on any archive and for chunks of any sizes, what is handed over is the chunks put together, cut off at the declared size |
| `ChunkStore.SlicesAreContent` | core/src/lib.rs:251-278 | on a well-chunked stream the slices put together are the stream's bytes, to the declared size, without error |
| `Writer.DecodeIndexEntry` | core/src/lib.rs:467-493 | a slot holding an encoded (offset, length) gives (offset, offset + length), or the overflow error exactly when the sum does not fit 64 bits |
| `Writer.IndexRoundTrip` | core/src/lib.rs:467-493 | slot by slot, a packed index gives back where each part lies in the bevy; slots past the last are refused |
| `Writer.PackedPart` | core/src/lib.rs:282-307 | part `i` of a packed archive is found at its segment and slot and sliced out unchanged |
| `Writer.WrittenChunkReads` | core/src/lib.rs:282-338 | chunk `i` of a written store reads back as padded chunk `i`, through the sparse, stored-verbatim and decoding rules |
| `Writer.WrittenStoreReads` | core/src/lib.rs:260-338 | a written store is well chunked, reads as the content, and a traversal feeds exactly the content |
| `Writer.WriteThenRead` | core/src/lib.rs:260-338 | for any content below 2^64 bytes whose stored chunks fit the index fields, any chunks per segment and any codec that undoes the coder there is such a store, and it reads back as the content |
| `Writer.ContentPacks` | core/src/lib.rs:467-493 | content in chunks below 2^32 bytes fits the index fields if the fullest segment stays below 2^64 bytes of bevy and index |
| `VirtualDisk.TableOkSuffices` | core/src/map.rs:101-206 | a raw table without overlaps, wrapping ends or targets past the stream meets the map part of well-formedness |
| `VirtualDisk.ReadRefinesDisk` | core/src/lib.rs:375-438 | a read with a non-empty buffer inside a well-formed disk succeeds with at least one byte, at most what fits, equal to the flat disk from the cursor on |
| `VirtualDisk.FirstByteIsDisk` | core/src/lib.rs:375-438 | with overlaps or without and whatever the chunks, what a read inside the disk delivers starts with the disk's byte at the cursor |
| `Exactness.ShortReadIff` | core/src/lib.rs:415-436 | on any image, at any cursor and with any buffer: a read fails exactly inside the disk over a chunk that cannot be read, with its error, and succeeds with nothing exactly with an empty buffer, at or past the end, or over a chunk that ends too early |
| `Exactness.NoShortReadIff` | core/src/lib.rs:415-436 | on direct and mapped images, every position can be read if and only if every chunk can be read and covers what the disk takes from it |
| `Exactness.WellFormedReadsAgree` | core/src/lib.rs:375-438 | on a well-formed container every non-empty read inside the disk delivers a non-empty piece of the flat disk |
| `Exactness.DirectReadsIff` | core/src/lib.rs:415-436 | on any direct image, every read agrees with the flat disk if and only if every chunk covers its share and what it holds beyond the chunk size repeats the stream |
| `Exactness.MappedReadsIff` | core/src/lib.rs:387-436 | on any mapped image whose map ends and targets do not wrap, every read agrees with the flat disk if and only if every chunk covers what the disk takes from it and, wherever a read that starts in an entry can run on past the next entry's start or past the chunk size, the byte it copies is the disk's |
| `Exactness.FittingReadsIff` | core/src/lib.rs:387-436 | over a well-chunked stream with targets inside it, every read agrees with the flat disk if and only if each entry names the disk's byte wherever a read that starts in it can run on past the next entry's start |
| `Exactness.ReadsByte` | core/src/lib.rs:375-438 | on any image a read that finds a byte delivers exactly as far as buffer, disk, region and chunk all go, each byte copied from the region and chunk it started in |
| `Exactness.SplitsShowIff` | core/src/lib.rs:375-438 | on direct images and on mapped ones whose ends and targets do not wrap, every read delivers something and gives byte for byte what one-byte reads give if and only if every read agrees with the flat disk |
| `Runs.SeekIffBelow63` | core/src/lib.rs:442-456 | a seek goes to the asked position, or refuses a negative one, if and only if that position is below 2^63; from there to 2^64 it refuses, and beyond it lands 2^64 lower |
| `Runs.RunDeliversDisk` | core/src/lib.rs:374-457 | where reads agree with the disk, over any run of seeks and reads what is delivered after each successful seek is a contiguous slice of the disk from there, failed seeks changing nothing |
| `Runs.ReadsDeliver` | core/src/lib.rs:375-438 | reads of any sizes, zero included, deliver the disk from their start to wherever they leave the cursor |
| `Runs.ReadsDeliverRest` | core/src/lib.rs:375-438 | reads of any sizes that take the cursor to the end deliver the rest of the disk, however they split it |
| `Runs.EnoughReadsComplete` | core/src/lib.rs:375-438 | as many non-empty reads as bytes are left always reach the end |
| `Runs.EmptyReadIffComplete` | core/src/lib.rs:375-378 | where reads agree with the disk, one more read after any others succeeds with nothing if and only if they reached the end |
| `Runs.ReadsPastEnd` | core/src/lib.rs:376-378 | on any image, reads at or past the end succeed with nothing and leave the cursor alone |
| `Runs.TraversalsAgree` | core/src/lib.rs:260-438 | on a well-formed direct image, the traversal's slices put together equal what any run of reads from the start to the end delivers |
| `Runs.WrittenImageReads` | core/src/lib.rs:282-438 | a direct image of written content is well formed and delivers that content to any run of reads that reaches the end |
| `Runs.OverlapShows` | core/src/map.rs:181-193 | a map with an overlap on which one four-byte read and a read of the last two bytes disagree |
| `Runs.OversizeChunkShows` | core/src/lib.rs:422-434 | a store with an oversize chunk on which one two-byte read and two one-byte reads disagree |
| `Reader.Aff4Reader.OpenReader` | core/src/lib.rs:164-211 | the reader starts at position 0 with the parsed map, the map's size when there is one, and the declared hashes |
| `Reader.Aff4Reader.Read` | core/src/lib.rs:375-438 | result, cursor and whole buffer after one call; an error or an empty read changes neither cursor nor buffer, and at or past the end or with an empty buffer the result is zero bytes |
| `Reader.Aff4Reader.Seek` | core/src/lib.rs:441-457 | result and cursor; a failed seek leaves the cursor alone |
| `Reader.Aff4Reader.ReadImageStreamContent` | core/src/lib.rs:260-279 | the sink receives exactly the slices, in order, up to the first chunk that cannot be read, whose error is returned |
| `SharedSource.Aff4Source.constructor` | core/src/vfs.rs:33-39 | the recorded length is the reader's virtual disk size |
| `SharedSource.Aff4Source.ReadAt` | core/src/vfs.rs:47-74 | result and whole buffer, independent of where the cursor was; where reads agree with the disk, exactly the owed slice of it |
| `SharedSource.Aff4Source.FillLoop` | core/src/vfs.rs:58-73 | the fill loop writes what repeated reads from the cursor deliver and stops at a short read or an error |
| `SharedSource.ReadAtIsDisk` | core/src/vfs.rs:47-74 | where reads agree with the disk, a call returns its slice of it if and only if the offset is below 2^63 or not inside the disk |
| `SharedSource.ReadAtIffDiskFits` | core/src/vfs.rs:47-74 | where reads agree with the disk, calls at every offset return their slices if and only if the disk has at most 2^63 bytes |
| `SharedSource.CallsWholeIff` | core/src/vfs.rs:47-74 | on any image, every call at every offset writes all it owes without failing if and only if the disk has at most 2^63 bytes and each of them can be read |
| `SharedSource.CallEndsWhere` | core/src/vfs.rs:47-74 | on any image a call ends past the end of the disk with nothing, from 2^63 on with the seek's refusal, and otherwise where it has all it is owed or the next read fails, with that error, or is empty |
| `SharedSource.ShortChunkShows` | core/src/vfs.rs:60-71 | a store with a short chunk on which a read inside the disk is empty and a call writes fewer bytes than it owes, without an error |
| `Threads.StepKeepsExclusive` | core/src/vfs.rs:54 | every step keeps the lock exclusive, changes no other thread, and moves the cursor only for the thread inside the section |
| `Threads.StepKeepsInv` | core/src/vfs.rs:47-74 | every step of every thread keeps: buffer so far plus what the loop would still add is the whole call's outcome |
| `Threads.EveryCallIsAtomic` | core/src/vfs.rs:47-74 | over every schedule, deaths included, each completed call did exactly what it would have done alone |
| `Threads.CompletedCallsReadDisk` | core/src/vfs.rs:47-74 | over every schedule, where reads agree with a disk of at most 2^63 bytes, every completed call wrote exactly its slice of the disk and nothing else |
| `Threads.NoMidLoopEnd` | core/src/vfs.rs:63-69 | if every byte of the disk can be read, no thread with bytes to go ever reads zero bytes or fails, under any schedule |
| `Threads.GuardSilentIff` | core/src/vfs.rs:63-69 | on a disk of at most 2^63 bytes, no schedule brings a thread to an empty or failing read in mid loop if and only if every byte of the disk can be read |
| `Threads.NeverWedged` | core/src/vfs.rs:20-24 | while a call waits, some thread can take a step of its call, after a holder's death too |
| `Threads.StrictSourceWedges` | core/src/vfs.rs:20-24 | if locking did not recover, then once a holder has died no waiting call would ever be served |
| `Threads.SchedulesEnd` | core/src/vfs.rs:54-73 | a schedule that starts no new call, deaths allowed, is no longer than the steps the open calls have left |
| `Threads.StillIffFinished` | core/src/vfs.rs:47-74 | after any schedule no step of a call is possible if and only if every thread is idle, done or dead |
| `Decrypt.DecryptStream` | core/src/crypto.rs:69-108 | the nested loop ends on every archive and returns the planned sectors put together and trimmed, or the first error in order |
| `Decrypt.SuccessIsTrimmedWalk` | core/src/crypto.rs:73-108 | every success has exactly the declared size and is the trimmed concatenation of genuine decryptions in (segment, slot) order from the first, as few as will do |
| `Decrypt.DecryptionFailsIff` | core/src/crypto.rs:73-108 | on any archive, decryption fails if and only if the genuine sectors in a row from the first stop short of the declared size, with the error met at the place after them, or segment numbers run out |
| `Decrypt.TweaksIffNotOverfull` | core/src/crypto.rs:83-99 | tweaks strictly increase, and equally are pairwise distinct, if and only if no segment left behind has more chunks than declared |
| `Decrypt.TweakIsPositionIffFull` | core/src/crypto.rs:83-99 | chunk `k` of the run uses tweak `k` throughout if and only if every segment left behind is full |
| `Decrypt.RunTweaks` | core/src/crypto.rs:83-99 | over every run, failing ones included, the tweaks used strictly increase, and are distinct, if and only if no segment left behind is overfull; an index never longer than declared suffices |
| `Decrypt.RunTweaksArePositions` | core/src/crypto.rs:83-99 | over every run, failing ones included, the k-th chunk uses tweak k throughout if and only if every segment left behind is full |
| `Encryption.DecryptInvertsEncrypt` | core/src/crypto.rs:69-108 | encrypting padded chunk `k` under tweak `k` and packing full segments, then decrypting, returns exactly the plaintext |
| `Encryption.EncryptThenDecrypt` | core/src/crypto.rs:69-108 | for any content below 2^64 bytes whose encrypted chunks fit the index fields, any chunks per segment and any cipher invertible per tweak there is such a volume, and it decrypts to the content |
| `Encryption.EncryptedChunksPack` | core/src/crypto.rs:69-108 | encrypted chunks below 2^32 bytes fit the index fields if the fullest segment stays below 2^64 bytes of bevy and index |
| `Hex.DecodeAccepts` | core/src/meta.rs:350-368 | decoding accepts exactly the even-length hex strings |
| `Hex.DecodePrints` | core/src/meta.rs:350-368 | printing a decoded string gives its lower-case form |
| `Hex.DecodeToHex` | core/src/meta.rs:350-368 | decoding a printed byte string gives it back |
| `Hex.DigitsSpelled` | core/src/meta.rs:360-361 | the sixteen digits, written in lower case and read in either |
| `Hex.ToHexSpelled` | forensic/src/lib.rs:206-214 | byte `i` prints as two lower-case digits at twice its place, the high one first |
| `Hex.HexDecode` | core/src/meta.rs:352-368 | the decoding loop computes the decoding function |
| `Hex.PrintHex` | forensic/src/lib.rs:206-214 | the printing loop computes the two-digit lower-case form |
| `Hex.CompareHex` | forensic/src/lib.rs:146-147 | comparing lower-cased text and comparing decoded bytes are the same test |
| `Hex.PaddedInjective` | core/src/lib.rs:286 | the eight-digit format is injective, wider numbers included |
| `Hex.PaddedIff` | core/src/lib.rs:286 | a text is the padded form of a number if and only if it is lower-case hex digits of that value, eight of them or more without a leading zero; eight exactly below 2^32 |
| `HashList.TermIff` | core/src/meta.rs:208-228 | a token is accepted if and only if it is a quoted hex digest with a datatype name ending in a letter or digit and then other characters, and then means that name and those digits in lower case |
| `HashList.TermSpelled` | core/src/meta.rs:208-228 | quoted hex digits under the name of any recognised algorithm in any case, with a comma attached or not, give that name and the digits in lower case |
| `HashList.AlphanumericsSpelled` | core/src/meta.rs:218-220 | which characters a datatype name may end in, listed |
| `HashList.ParseImageHashes` | core/src/meta.rs:181-206 | the index loops end on every token list and collect the hashes of every predicate in order |
| `HashList.PrintScan` | core/src/meta.rs:175-206 | a printed block with any number of hash lists, commas standing alone or attached, among other predicates, scans back to exactly the listed hashes |
| `HashList.BlockScan` | core/src/meta.rs:175-206 | in a block given token by token, what hangs on the stored-bevy and index hash predicates is passed over and what hangs on the content hash predicate is collected |
| `Digest.RecognisedIff` | forensic/src/lib.rs:172-183 | a datatype name maps to an algorithm if and only if it is that algorithm's name letter by letter, each in capitals or 32 codes on in small letters |
| `Digest.StandardNames` | forensic/src/lib.rs:172-183 | the five names the standard uses, and two in other cases, map to their algorithms; another does not |
| `Digest.SameAlgorithmIff` | forensic/src/lib.rs:172-183 | two names reach the same algorithm if and only if they are the same letter by letter up to case |
| `Digest.Sink.Feed` | forensic/src/lib.rs:139-143 | every hasher's input grows by exactly the slice and no job's declaration changes |
| `Audit.VerifyImageHashes` | forensic/src/lib.rs:119-156 | the audit returns the unreadable regions then the mismatches of all recognised hashes against one traversal, or the traversal's error; without a recognised hash the content is not read |
| `Audit.AuditFailsIff` | forensic/src/lib.rs:128-143 | on any archive the audit fails if and only if some stored hash is recognised and some chunk of the stream cannot be read, with the first such chunk's error |
| `Audit.AuditFindings` | forensic/src/lib.rs:119-156 | on any archive a successful audit returns the same two lists, the digests taken over what one traversal hands over |
| `Audit.FindingsCover` | forensic/src/lib.rs:121-127 | without overlaps, a position reads as unreadable data if and only if some finding covers it |
| `Audit.AuditExact` | forensic/src/lib.rs:119-156 | on a well-chunked stream the audit succeeds with one finding for each unreadable map entry, its offset and length, in map order, then one report, in declaration order, for precisely the recognised hashes that differ from the digest of the whole content |
| `Audit.SilentIff` | forensic/src/lib.rs:87-91 | no findings if and only if no map entry points at unreadable data and every recomputable hash agrees |
| `Audit.ParsedHashDisagreesIff` | core/src/meta.rs:208-228 | a parsed hash disagrees if and only if the bytes its digits spell, in any case, differ from the digest |
| `Audit.WrittenImageAudits` | forensic/src/lib.rs:83-156 | a written direct image with a printed hash list audits clean if and only if every recomputable digest spells the digest of the written content |

## Left out

- ZIP reading, files and error message text: plumbing around the name-to-bytes map; lookups that fail once and succeed later are not modelled.
- Deflate, Snappy, LZ4, PBKDF2, AES key unwrap, XTS-AES and the digest functions: library code, taken as functions.
- The integer reads of the safe-read library: not part of this model; the table's own bounds keep every read inside the data.
- The allocation of the declared size before the decryption loop (core/src/crypto.rs:70), which panics when there is no room for it: memory is unbounded here.
- `derive_vek` and the metadata of encrypted streams: the cipher is taken as already keyed.
- Splitting a block into tokens at white space, block splitting and the other Turtle predicates: the scanner starts from tokens, and parsed metadata is an input.
- Classification of `/idx` lines: target kinds are inputs.
- `detect_zip_base`, `container_kind` and logical containers: name tests that would add only easy members.
- Conversion of findings to reports, severities and notes: fixed tables.
- Text is a sequence of characters: `hex_decode` works on UTF-8 bytes, but a string with a character outside ASCII is refused either way.
- The guard for a zero chunk size in the content traversal: excluded by type, since opening refuses it.
- `read_chunk` takes the reader mutably only to read the archive; it is a function here.
- Threads are interleaved at the lock, the seek and each `read` call: finer steps happen under the exclusive lock, and a holder's death may leave the cursor anywhere.
