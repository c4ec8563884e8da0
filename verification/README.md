# Verified models of the boot, firmware and touch tools

A Dafny model of the parts of this repository that transform data or keep state, with proofs about all
inputs and all runs. Each module follows one source file or one part of it; programs that work in place are
methods over arrays and fields, proved equal to a function, and the theorems are about those functions.
`dafny verify dfyconfig.toml` checks everything. What a function means for the bytes that go in and come out
is stated beside it in plain numbers.

- `LzssFormat`, `LzssDecoders`, `LzssStream`, `LzssEncoder`, `LzssRoundTrip`, `LzssLegacy`, `LzssChoice`: Apple's
  "complzss" stream, two encoders and three ring decoders. Main results: `LzssRoundTrip.RoundTrip` and
  `CompressAndCheck`, and for the tokens chosen `LzssChoice.GreedyIffChosen`; the older encoder's exact condition
  is `LzssLegacy.LegacyRoundTripIff`, a sufficient one on the input alone `SteadyRoundTrips`.
- `ImageReaders`, `DmgReaders`, `AdcTokens`, `ForkReaders`, `HfsExtents`, `ImageTurns`: the stacked cached readers
  of a disk image, the extents of its files, and which of its loops never end. Main results:
  `HfsExtents.FragmentedFileReads` over `ForkReaders.StackIsFlat`, and `ImageTurns.LeavesEndlessIffForever`.
- `TouchSlots`, `TouchDriver`, `TouchRuns`, `TouchReports`, `TouchContact`: the touch frame state machine over the
  input core's slot table. Main results: `TouchRuns.FrameShowsDownFingers`, `RunKeepsInv`,
  `TouchReports.ContactsInNumbers` and `TouchContact.ContactOpensOnce`.
- `Z2Writer`, `HbppLoader`, `HbppRoundTrip`, `HbppTransfers`: the touch firmware file, its writer and its loader.
  Main result: `HbppTransfers.BuildAndLoad` with `HbppRoundTrip.BuiltFilePlan` and `PiecesCarryPayload`.
- `CpioFormat`, `CpioNumbers`, `CpioTurns`, `CpioRoundTrip`, `CpioWriters`, `CpioOverlay`, `CpioHeaders`: two newc
  writers against one reader. Main results: `CpioWriters.TreeReadsBack`, `CpioHeaders.TreeInNumbers` and
  `CpioTurns.EndlessIffForever`.
- `FdtPatch`, `FdtTokens`, `FdtRewalk`: two cells of a flattened devicetree (section 5.4 of the Devicetree
  Specification v0.4) patched in place. Main result: `FdtRewalk.PatchKeepsTreeIff`.
- `BootBundle`, `OverlayCopy`, `BundleLayout`: the boot image and the loader that copies the overlay out of it. Main
  result: `OverlayCopy.BootFindsTree`, from a directory tree to what the kernel finds in memory.
- `DerItems`, `Img4Repair`, `Img4Bytes`: DER (section 8.1 of ITU-T X.690) parsed, written and cut. Main results:
  `Img4Repair.RepairRemovesOnlyTheRecord` and `Img4Bytes.AcceptedIff`.
- `FirmwareTrie`, `FirmwareNodes`, `FirmwarePruning`: the firmware name trie, as values and as nodes changed
  in place, and what pruning keeps. Main result: `FirmwarePruning.PruningKeepsIff`.
- `NandFtl`, `NandLayout`: the logical-to-physical map of a NAND dump. Main results: `NandFtl.ScanToMap` and
  `NandLayout.ContentInNumbers`.
- `IbootSlots`, `IbootRedirect`, `IbootNumbers`: zero-run allocation and ADRP/ADD redirection (section C6.2 of Arm
  DDI 0487).
- `Bytes`, `StableSort`, `Loops`: bytes, slices and fixed-width integers; the sort that several programs call;
  loops that may never end.

What the proofs found about the code:

- The contacts shown after a frame are not always the fingers in state 3 or 4: with old contacts and new
  fingers together above 16, new fingers find no slot (`TouchRuns.SeventeenthFingerLost`; two frames from
  the start are enough, `SecondPollShowsNothing`). The exact condition is in `FrameShowsDownFingers`.
- A firmware reload clears the bitmaps but leaves open contacts in the core, where the release timeout no
  longer sees them (`TouchRuns.BootKeepsContacts`).
- A contact is opened once for each of its polled lift frames, so twice or more if the firmware sends more
  than one (`TouchContact.LiftFramesOpen`); and of the first frame exactly the touches at coordinate 0 reach
  user space without it (`FirstFramePartial`).
- The older encoder compares with a ring it does not update during the match, so it does not always
  round-trip (`LzssLegacy.LegacyRoundTripFails`); `LegacyRoundTripIff` says exactly when it does.
- A firmware payload of odd length is written by `mtfw.py` but refused by the loader
  (`HbppTransfers.BuildAndLoad`).
- Pruning can lose a file when its identifier extends another one (`FirmwarePruning.NestedFilesCanBeLost`).
  It keeps all of them exactly under the condition of `PruningKeepsIff`.
- Three loops can go on for ever. A read of a disk image at a row with less data than its size: an image is
  `ImageTurns.ShortRow`, and `DmgReaders.Udif.EndsIffLongEnough` says when none does. The walk of the leaves
  when sibling links come back: a tree is `ImageTurns.Circle`, and it never ends exactly when the model says so
  (`ImageTurns.LeavesEndlessIffForever`). The reading of an archive when a negative size leads back: an archive
  is `CpioTurns.ArchiveReadForEver`, with `CpioTurns.EndlessIffForever`.
- A dump of more than sixteen files cannot be mapped if a live copy lies in a later one
  (`NandFtl.ScanToMap`).
- The docstring of `find_page_tail_slot` says that several page tails that could hold the request are an
  error; the code only refuses two that are equally longest. The model follows the code.
- A file called TRAILER!!! in an archived tree hides everything after it from the reader
  (`CpioWriters.TreeReadsBack`).

## Model

| member | source | states |
|---|---|---|
| `LzssDecoders.De` | devices/a5/tools/repack2.py:26-37 | the ring loop returns the reference decoding over a window of spaces, for every input and length, past-the-end overshoot included |
| `LzssDecoders.LzssDecompress` | devices/a5/attic/fix_adler32.py:6-31 | the flag-counter loop returns the same decoding cut to the expected size |
| `LzssDecoders.Lzss` | devices/a5/scripts/extract-sgx-firmware.py:81-111 | the sentinel-flag loop returns the same decoding over a window of zeros, cut to size, and raises IndexError exactly when the input ends in a lone flag byte whose first bit announces a literal |
| `LzssDecoders.Emit` | devices/a5/tools/repack2.py:26-37 | one byte into the ring keeps the ring equal to the last 4096 output bytes (or the fill) at positions counted from 4078 |
| `LzssDecoders.CopyFromRing` | devices/a5/tools/repack2.py:26-37 | a reference read from the ring while it is being written appends the self-overlapping copy of the output |
| `LzssDecoders.RingFillShowsIffUnclean` | devices/a5/scripts/extract-sgx-firmware.py:81-111 | two different initial ring contents give the same output if and only if no reference reads a cell not yet written; lengths and stopping points agree in any case |
| `LzssDecoders.DecodeOvershoot` | devices/a5/tools/repack2.py:26-37 | a decode exceeds the requested length by less than one longest match, and is at least that long exactly if it stopped for being full |
| `LzssFormat.RingStep` | devices/a5/tools/repack2.py:26-37 | the ring invariant survives writing the next byte, for every fill |
| `LzssFormat.RefRoundTrip` | devices/a5/tools/lzss_ok.py:28-31 | the two bytes of a reference give back its ring position and length, wherever they stand |
| `LzssStream.PackDecodes` | devices/a5/tools/lzss_ok.py:46-51 | a stream of flag groups decodes to what its tokens say, whatever the window fill and the wanted length |
| `LzssStream.DecodesIffAllCorrect` | devices/a5/tools/lzss_ok.py:4-51 | a token list that covers the input decodes to the input if and only if every single token reproduces its stretch |
| `LzssStream.RepeatsCorrect` | devices/a5/tools/lzss_ok.py:28-31 | a repetition at distance d up to 4096, emitted as a ring position, reproduces the input even where it overlaps itself |
| `LzssEncoder.Compress` | devices/a5/tools/lzss_ok.py:4-51 | the program with its capped, trimmed hash chains and early exits emits exactly the packed greedy tokens, the ones that LzssChoice.GreedyIffChosen names |
| `LzssEncoder.ChainKeeps` | devices/a5/tools/lzss_ok.py:33-45 | appending and trimming a chain never loses the most recent 129 occurrences of a key |
| `LzssEncoder.Insert` | devices/a5/tools/lzss_ok.py:33-45 | after each insertion every chain still holds the latest occurrences of its key, and only those |
| `LzssEncoder.Search` | devices/a5/tools/lzss_ok.py:16-27 | the candidate loop with its quick reject and early break finds what trying all 32 latest candidates would find |
| `LzssEncoder.PickIsLongest` | devices/a5/tools/lzss_ok.py:16-27 | the chosen match is the longest among the candidates inside the window |
| `LzssEncoder.BestMatchRepeats` | devices/a5/tools/lzss_ok.py:11-28 | a match found is a true repetition of the input, 3 to 18 bytes long, at a distance below 4096 |
| `LzssChoice.TokenIffChosen` | devices/a5/tools/lzss_ok.py:11-45 | the token at a place is a reference if and only if one of the last 32 places with the same three bytes is at most 4095 back: of the greatest length up to 18 that any of them repeats, and at the nearest of those that repeat it; else a literal |
| `LzssChoice.GreedyIffChosen` | devices/a5/tools/lzss_ok.py:10-51 | a token list is the one emitted if and only if each of its tokens, from the first byte to the last, is that one |
| `LzssChoice.TokenInNumbers` | devices/a5/tools/lzss_ok.py:28-31 | a reference is the low byte of its ring position, then its high four bits over the length less three; a literal is its byte |
| `LzssChoice.FlagsInNumbers` | devices/a5/tools/lzss_ok.py:39-50 | bit k of a flag byte is one exactly if token k of the group is a literal |
| `LzssChoice.ReferenceInNumbers` | devices/a5/tools/repack2.py:26-37 | a reference read by the decoder gives, byte by byte, what stood at that ring position, counted from 4078, or the fill where nothing was written |
| `LzssRoundTrip.RoundTrip` | devices/a5/tools/lzss_ok.py:4-51 | for every byte string, decompressing the compressed string to its length gives the string, for every initial ring content |
| `LzssRoundTrip.CompressedDecodes` | devices/a5/tools/repack2.py:26-37 | for every wanted length the decoder returns a prefix of the data at least that long (or all of it), less than one match longer |
| `LzssRoundTrip.CompressedIsClean` | devices/a5/tools/lzss_ok.py:16-31 | no reference the encoder emits reads a ring cell not yet written |
| `LzssRoundTrip.CompressAndCheck` | devices/a5/tools/repack2.py:40-45 | the encoder followed by all three decoder programs returns the data three times |
| `LzssRoundTrip.CompressedSize` | devices/a5/tools/lzss_ok.py:46-51 | compression never costs more than one byte in eight, rounded up |
| `LzssLegacy.LzssCompress` | devices/a5/attic/create_lzss_payload.py:81-175 | the older encoder, ring and table updated in place, emits the packed tokens of its ring-comparing choice |
| `LzssChoice.OldTokenIffChosen` | devices/a5/attic/create_lzss_payload.py:115-160 | the older encoder emits a reference if and only if one of the last candidates of the same three bytes agrees with the ring at three bytes or more: the longest of them, the earliest of the longest; else a literal |
| `LzssChoice.LegacyIffChosen` | devices/a5/attic/create_lzss_payload.py:105-175 | a token list is the one it emits if and only if each of its tokens is that one |
| `LzssLegacy.LegacyTokenMatches` | devices/a5/attic/create_lzss_payload.py:128-136 | a reference it emits agrees with the ring as it stood before the match |
| `LzssLegacy.TokenCorrectIffSelfConsistent` | devices/a5/attic/create_lzss_payload.py:115-168 | such a reference decodes to the input if and only if its ring distance is 0 or the input repeats itself at that distance beyond it |
| `LzssLegacy.LegacyRoundTripIff` | devices/a5/attic/create_lzss_payload.py:81-175 | a whole run round-trips if and only if every reference it emits repeats the input at its ring distance beyond it |
| `LzssLegacy.SteadyRoundTrips` | devices/a5/attic/create_lzss_payload.py:81-175 | and always, by the input alone, if no byte equals what the ring held for one of the 17 bytes before it without equalling that byte |
| `LzssLegacy.ShortSpacelessRoundTrips` | devices/a5/attic/create_lzss_payload.py:81-175 | so every input of at most 4096 bytes without a space round-trips |
| `LzssLegacy.LegacyRoundTripFails` | devices/a5/attic/create_lzss_payload.py:81-175 | on the seven bytes "abcabc " the run does not round-trip |
| `ImageReaders.Encrcdsa.constructor` | devices/a5/scripts/rootfs-extract.py:76-86 | starts with an empty cache that is trivially right |
| `ImageReaders.Encrcdsa.Chunk` | devices/a5/scripts/rootfs-extract.py:88-98 | returns the recomputed chunk, struct.error for numbers of 2^32 or more included, keeps at most 257 entries, and every entry it keeps is a recomputed chunk |
| `ImageReaders.Encrcdsa.Read` | devices/a5/scripts/rootfs-extract.py:100-111 | in any order of reads the cached loop returns the byte-by-byte decryption, or the error at the first missing byte |
| `ImageReaders.Encrcdsa.ReadIff` | devices/a5/scripts/rootfs-extract.py:88-111 | a read inside the size that the header claims works exactly if every position is in the file, in a chunk whose number fits 32 bits and whose length the cipher takes, and else gives the error of the first that is not |
| `ImageReaders.Encrcdsa.ReadIsSlice` | devices/a5/scripts/rootfs-extract.py:100-111 | as far as the image is there it is that slice of it, and with chunks of whole blocks else the error of the first byte that is missing |
| `ImageReaders.Encrcdsa.ReadDecrypts` | devices/a5/scripts/rootfs-extract.py:88-111 | any part of chunk n, whole or cut short by the file, is read as that part of the decryption, with number n, of the bytes of the file at base + n * bs |
| `ImageReaders.Encrcdsa.PresentIff` | devices/a5/scripts/rootfs-extract.py:76-98 | with chunks of whole blocks, exactly the bytes below a bound given by header, file length and chunk size can be read |
| `ImageReaders.Source.Read` | devices/a5/scripts/rootfs-extract.py:62-72 | wrapped or plain, the layer below is read the same way |
| `ImageReaders.GatherIsSlice` | devices/a5/scripts/rootfs-extract.py:100-111 | a byte source that agrees with a sequence on a range gathers exactly that slice |
| `DmgReaders.AdcDecode` | devices/a5/scripts/rootfs-extract.py:114-132 | the loop computes the ADC stream, with IndexError for a reference it cuts short or one from before the output |
| `AdcTokens.AdcRoundTrip` | devices/a5/scripts/rootfs-extract.py:114-132 | a stream written from tokens, up to 128 bytes as they are, or references of 3 to 18 bytes from at most 1024 back or of 4 to 67 from at most 65536 back, decodes to what they say |
| `DmgReaders.CopyBackPeriodic` | devices/a5/scripts/rootfs-extract.py:130-131 | a copy from the output itself is periodic in its distance, overlapping or not |
| `DmgReaders.BisectHits` | devices/a5/scripts/rootfs-extract.py:191-196 | bisection finds the row an offset lies in |
| `DmgReaders.Udif.constructor` | devices/a5/scripts/rootfs-extract.py:153-162 | comments and terminators are dropped and the rest is sorted as tuples |
| `DmgReaders.RowsInNumbers` | devices/a5/scripts/rootfs-extract.py:153-162 | the rows are all entries but kinds 0x7ffffffe and 0xffffffff, and those that start together come by size, kind, place and length |
| `DmgReaders.Udif.Chunk` | devices/a5/scripts/rootfs-extract.py:164-186 | returns the recomputed chunk (stored, zero, ADC, zlib, bz2 or an error); the cache stays right and at most 65 large |
| `DmgReaders.Udif.Read` | devices/a5/scripts/rootfs-extract.py:188-201 | in any order of reads, over any rows and any data, the loop through bisection and cache returns the pieces row after row, or the first error, gaps included, or never ends |
| `DmgReaders.Udif.ReadIsGather` | devices/a5/scripts/rootfs-extract.py:188-201 | over rows that do not overlap and have their declared size that is the partition byte by byte |
| `DmgReaders.Udif.RowReads` | devices/a5/scripts/rootfs-extract.py:164-201 | any part of a row reads, by the number of its kind, as zeros, as the bytes of the image at its place, or as that part of what zlib, bz2 or ADC makes of them |
| `DmgReaders.Udif.RowFails` | devices/a5/scripts/rootfs-extract.py:164-186 | and is the error of its kind where they make nothing of them, or the kind is no known one |
| `DmgReaders.Udif.NoRowFails` | devices/a5/scripts/rootfs-extract.py:191-196 | before all rows, or behind the one that starts last before it, a read is the error of either |
| `DmgReaders.Udif.EndsIffLongEnough` | devices/a5/scripts/rootfs-extract.py:188-201 | over any rows every read ends if and only if no readable row has less data than its size, counted up to where the next row starts |
| `ImageTurns.ReadEndlessIffForever` | devices/a5/scripts/rootfs-extract.py:188-201 | a read is said never to end exactly if its loop has another turn after every turn |
| `ImageTurns.ShortRow` | devices/a5/scripts/rootfs-extract.py:188-201 | as on a stored row of 512 bytes with one byte behind it, from the second byte on |
| `DmgReaders.Udif.LongRowShadows` | devices/a5/scripts/rootfs-extract.py:193-200 | a row longer than it says, as ADC may be, is read on past its end in place of the next one |
| `ForkReaders.Fork.Read` | devices/a5/scripts/rootfs-extract.py:221-234 | over any partition and extents the loop reads extent after extent, cut at the file size, or returns the error met first |
| `ForkReaders.Fork.ReadIsGather` | devices/a5/scripts/rootfs-extract.py:221-234 | over rows of declared size, and extents that cover the file, that is the file byte by byte |
| `ForkReaders.PartitionIsFlat` | devices/a5/scripts/rootfs-extract.py:188-201 | over contiguous rows of declared size, any in-range read is a slice of the concatenated chunks |
| `ForkReaders.RawRowIsImageSlice` | devices/a5/scripts/rootfs-extract.py:172-174 | a stored row is that slice of the decrypted image |
| `ForkReaders.StackIsFlat` | devices/a5/scripts/rootfs-extract.py:204-237 | through all layers, reading n bytes at off gives logical[off:off+n] cut to the file size |
| `HfsExtents.FindRecords` | devices/a5/scripts/rootfs-extract.py:251-271 | the walk along the sibling links returns the matching records of every leaf in order, or its first error, or that it does not end |
| `ImageTurns.LeavesEndlessIffForever` | devices/a5/scripts/rootfs-extract.py:251-260 | that is said exactly if the links lead to another leaf after every leaf |
| `ImageTurns.CircleEndless` | devices/a5/scripts/rootfs-extract.py:251-260 | as in a tree whose first leaf links to itself, whatever file is looked for |
| `ImageTurns.Circle` | devices/a5/scripts/rootfs-extract.py:251-260 | there is such a tree, in an image of 1024 bytes |
| `HfsExtents.FindOverflow` | devices/a5/scripts/rootfs-extract.py:262-272 | and their extents in file order, empty ones dropped |
| `HfsExtents.FileOrderInNumbers` | devices/a5/scripts/rootfs-extract.py:272 | a record with a lower first block comes first, of two with the same one that whose extents are lower, and only extents of no block are dropped |
| `HfsExtents.RecordReads` | devices/a5/scripts/rootfs-extract.py:265-271 | a leaf record as the format writes it reads as its extents, or is passed over if it is of another file or fork |
| `HfsExtents.RecordInNumbers` | devices/a5/scripts/rootfs-extract.py:265-271 | any bytes there: an error exactly if the node is cut short before what is looked at; fork, file, first block and extents at their offsets, the extents behind a key of any length |
| `HfsExtents.UnpackInNumbers` | devices/a5/scripts/rootfs-extract.py:259 | two bytes at an offset that may count from the end but not reach over it |
| `HfsExtents.OverflowReads` | devices/a5/scripts/rootfs-extract.py:251-272 | a tree whose leaves form a chain that ends gives exactly the extents of its records of that file and fork, wherever its nodes lie |
| `HfsExtents.OverflowOrderIrrelevant` | devices/a5/scripts/rootfs-extract.py:272 | in file order whatever order the records are found in, also for records with the same first block |
| `HfsExtents.SameRecordsSameExtents` | devices/a5/scripts/rootfs-extract.py:251-272 | two trees that hold the same records, in whatever nodes and order, read alike |
| `HfsExtents.OpenFork` | devices/a5/scripts/rootfs-extract.py:205-219 | a fork that opens has the size and the eight extents of its record, then those of the tree if they do not cover it, and all together cover its size |
| `HfsExtents.ForkInNumbers` | devices/a5/scripts/rootfs-extract.py:205-208 | the size is the eight bytes at 0 of the record, start and count of extent k the words at 16 + 8k and 20 + 8k |
| `HfsExtents.Open` | devices/a5/scripts/rootfs-extract.py:205-219 | the constructor returns that fork or the first of its errors, with a file id or without |
| `HfsExtents.OpensIff` | devices/a5/scripts/rootfs-extract.py:205-219 | over a tree in the format it opens exactly if the extents of record and tree cover its size |
| `HfsExtents.FragmentedFileReads` | devices/a5/scripts/rootfs-extract.py:204-272 | and a read of it is that slice of the blocks of its record and then of the tree's records in file order, cut to its size |
| `TouchSlots.PassEffect` | devices/a13/kernel/extras/apple_hidspi_touch.c:456-478 | a pass of reports over the slot table opens, keeps and drops exactly the contacts it should, counting the slots that are full |
| `TouchSlots.SyncEffect` | devices/a13/kernel/extras/apple_hidspi_touch.c:408-423 | after a sync the contacts are those reported on, and empty slots have forgotten their place |
| `TouchDriver.AhTouch.SyncFrame` | devices/a13/kernel/extras/apple_hidspi_touch.c:408-423 | the slot table becomes its synced value |
| `TouchDriver.AhTouch.ReportTouches` | devices/a13/kernel/extras/apple_hidspi_touch.c:425-479 | the bitmaps and the slot table after a report are its frame transition of the old ones, in the numbers of TouchReports; one too short changes nothing |
| `TouchReports.BitmapsInNumbers` | devices/a13/kernel/extras/apple_hidspi_touch.c:425-479 | of a report with n records by its length at byte 16 and its own, distinct ids at 32 + 30k: afterwards an id among them is down exactly if its byte 33 + 30k is 3 or 4, any other as before, and the previous ids are these |
| `TouchReports.ContactsInNumbers` | devices/a13/kernel/extras/apple_hidspi_touch.c:425-479 | only ids in state 3 or 4 have contact, and all of these if and only if a tap was lost or each of them has contact or one of 16 slots left after the contacts and the ids before it |
| `TouchReports.PlacesInNumbers` | devices/a13/kernel/extras/apple_hidspi_touch.c:367-399 | every contact stands where the record of its finger puts it |
| `TouchDriver.AhTouch.Release` | devices/a13/kernel/extras/apple_hidspi_touch.c:585-597 | the timeout syncs an empty frame and clears both bitmaps, if anything was down |
| `TouchDriver.AhTouch.Boot` | devices/a13/kernel/extras/apple_hidspi_touch.c:557-563 | a reload clears both bitmaps and leaves the slot table |
| `TouchRuns.FrameShowsDownFingers` | devices/a13/kernel/extras/apple_hidspi_touch.c:425-479 | with at most 16 contacts the core shows only fingers in state 3 or 4, and all of them if and only if a tap was missed in this frame or the old contacts leave room for the new ones |
| `TouchRuns.FrameRestores` | devices/a13/kernel/extras/apple_hidspi_touch.c:425-479 | after any frame of distinct ids every contact is one the down bitmap remembers |
| `TouchRuns.TimeoutReleases` | devices/a13/kernel/extras/apple_hidspi_touch.c:585-597 | the timeout leaves no contact and nothing down, and clears the previous ids if anything was down |
| `TouchRuns.BootKeepsContacts` | devices/a13/kernel/extras/apple_hidspi_touch.c:534-564 | a reload with a contact open keeps it in the core with no bit to release it by; the driver state is consistent after it if and only if there was none |
| `TouchRuns.RunKeepsInv` | devices/a13/kernel/extras/apple_hidspi_touch.c:566-609 | over every run of frames, timeouts and reloads the slot table stays well formed, and consistent once settled |
| `TouchRuns.SixteenFingersFit` | devices/a13/kernel/extras/apple_hidspi_touch.c:425-479 | sixteen new fingers all become contacts |
| `TouchRuns.SeventeenthFingerLost` | devices/a13/kernel/extras/apple_hidspi_touch.c:425-479 | with sixteen contacts open and all replaced by one new finger, the new one is not shown |
| `TouchRuns.SecondPollShowsNothing` | devices/a13/kernel/extras/apple_hidspi_touch.c:425-479 | as at the second frame of a run that starts with sixteen fingers |
| `TouchContact.ContactOpensOnce` | devices/a13/kernel/extras/apple_hidspi_touch.c:425-479 | of a contact with frames 3, 4.., 7, 0 any nonempty subsequence polled opens the id at most once in the core, and exactly once if and only if some polled frame reports it down while a slot is left for it |
| `TouchContact.RoomInRoomyFrame` | devices/a13/kernel/extras/apple_hidspi_touch.c:425-479 | there is a slot whenever old contacts and ids of the frame are at most 16 |
| `TouchContact.MissedTapIsShown` | devices/a13/kernel/extras/apple_hidspi_touch.c:438-464 | a tap seen only lifted or gone is shown down in the extra pass and up at the end of the frame |
| `TouchContact.OpeningsExactly` | devices/a13/kernel/extras/apple_hidspi_touch.c:425-479 | whatever states a new finger has in the polled frames, with a slot in each, it is opened in the first and in every later one that still has it after one without it down |
| `TouchContact.LiftFramesOpen` | devices/a13/kernel/extras/apple_hidspi_touch.c:438-478 | so of a contact 3, 4.., 7.., 0 any part of which is polled, it is opened max(1, n) times for n polled lift frames, and once if and only if n is at most 1 |
| `TouchContact.SecondLiftFrameOpensAgain` | devices/a13/kernel/extras/apple_hidspi_touch.c:448-464 | two polled lift frames of one contact open it twice |
| `TouchContact.FrameOnFinger` | devices/a13/kernel/extras/apple_hidspi_touch.c:425-479 | what one frame does to one finger, with or without room: bits, contact and openings, exactly |
| `TouchContact.ContactsBeginComplete` | devices/a13/kernel/extras/apple_hidspi_touch.c:401-423 | after a frame every free slot has forgotten its place, and contacts begun in such slots send both coordinates |
| `TouchContact.FirstFramePartial` | devices/a13/kernel/extras/apple_hidspi_touch.c:401-423 | of the contacts the first frame begins, exactly those at a coordinate 0 lack it |
| `TouchContact.FirstTouchAtEdge` | devices/a13/kernel/extras/apple_hidspi_touch.c:401-423 | so a single first touch lacks one if and only if it is at a coordinate 0 |
| `Z2Writer.Build` | devices/a13/tools/mtfw.py:63-89 | the file is header and records in step order, or the first error, in the bytes of HbppTransfers.RecordInNumbers |
| `HbppTransfers.FileHeaderInNumbers` | devices/a13/tools/mtfw.py:68 | the file starts with 5a 32 46 57 01 00 00 00 |
| `HbppTransfers.RecordInNumbers` | devices/a13/tools/mtfw.py:69-86 | the record of each step byte by byte: command word, length, a packet with its address, mask and value words or words count, address, payload and sums, and zeros to a multiple of four |
| `HbppTransfers.RecordsInOrder` | devices/a13/tools/mtfw.py:67-89 | the records of two lists of steps follow one another, and the first step without a record decides |
| `HbppTransfers.RecordRefused` | devices/a13/tools/mtfw.py:73-88 | a step has no record exactly if its type is unknown, or an address, mask, value or number of words does not fit its field |
| `HbppLoader.Driver.Send` | devices/a13/kernel/extras/apple_hidspi_touch.c:181-206 | odd or too long packets are refused, others go out byte-swapped and are repeated up to five times until the expected answer |
| `HbppTransfers.WireInNumbers` | devices/a13/kernel/extras/apple_hidspi_touch.c:181-195 | a packet can be sent if its length is even and at most 1100 with the 18 e1 before a data packet; on the wire the bytes of each half change places |
| `HbppTransfers.TriesInNumbers` | devices/a13/kernel/extras/apple_hidspi_touch.c:186-206 | it goes out until an answer is not a refusal, at most five times; the result is that answer's error, -EIO after five refusals, -EINVAL if it cannot be sent |
| `HbppLoader.Driver.SendBlob` | devices/a13/kernel/extras/apple_hidspi_touch.c:208-231 | a blob goes out as its pieces, stopping at the first failure |
| `HbppLoader.Driver.Execute` | devices/a13/kernel/extras/apple_hidspi_touch.c:292-317 | one load command sends its packets |
| `HbppLoader.Driver.Load` | devices/a13/kernel/extras/apple_hidspi_touch.c:277-324 | any file, well formed or not, sends the packets of its plan in order and returns the device error met first, else the plan's own |
| `HbppTransfers.HeaderRefused` | devices/a13/kernel/extras/apple_hidspi_touch.c:287-291 | a file is refused exactly if it does not start with those eight bytes |
| `HbppTransfers.CommandInNumbers` | devices/a13/kernel/extras/apple_hidspi_touch.c:292-317 | commands 0, 1 and 2 send nothing, their bytes or pieces of their payload, and the calibration; an unknown one, or less than it announces, is -EINVAL; fewer than eight bytes end the file |
| `HbppLoader.SwapTwice` | devices/a13/kernel/extras/apple_hidspi_touch.c:194-195 | swapping the bytes of each halfword twice is no change |
| `HbppRoundTrip.BuiltFilePlan` | devices/a13/tools/mtfw.py:67-89 | the plan of a built file is exactly the steps' packets in order, ending without error |
| `HbppRoundTrip.PiecesCarryPayload` | devices/a13/kernel/extras/apple_hidspi_touch.c:208-231 | the pieces hold the payload in order at contiguous addresses, each with its number of words, both sums right and at most 0x3f0 bytes |
| `HbppRoundTrip.DataBlobSums` | devices/a13/tools/mtfw.py:72-76 | header and payload sums of a piece do not wrap |
| `HbppRoundTrip.ExpectedSendable` | devices/a13/kernel/extras/apple_hidspi_touch.c:189-190 | all packets of the steps fit the SPI buffer and are even if and only if the binary payloads and the calibration have even length |
| `HbppRoundTrip.ExpectedWorded` | devices/a13/kernel/extras/apple_hidspi_touch.c:292-317 | every packet of the steps starts with the command the loader waits for |
| `HbppRoundTrip.ObligingAcknowledges` | devices/a13/kernel/extras/apple_hidspi_touch.c:181-206 | there are devices that acknowledge every such packet |
| `HbppRoundTrip.AckedSendAll` | devices/a13/kernel/extras/apple_hidspi_touch.c:181-206 | an acknowledging device gets every packet once; one odd packet makes the load fail with -EINVAL |
| `HbppTransfers.BuildAndLoad` | devices/a13/kernel/extras/apple_hidspi_touch.c:277-324 | building and loading succeeds if and only if the payloads are even, and then the device was sent each step in order, byte by byte: registers as 1e 33, address, mask, value and sum, payloads in pieces of 0x3f0 bytes at consecutive addresses |
| `HbppTransfers.StepsOnWire` | devices/a13/tools/mtfw.py:67-89 | the transfers of the packets of built steps are those bytes |
| `HbppRoundTrip.SentInOrder` | devices/a13/kernel/extras/apple_hidspi_touch.c:191-203 | whatever the device answers, what goes out is packets in order, each repeated, never a later one before an earlier |
| `CpioFormat.Members` | devices/a5/scripts/release-check.py:38-49 | the generator loop yields the members of any file, with every number int(x, 16) accepts, negative ones too, and slices as they then are: up to the trailer, no header, a number that cannot be read, or a position it was at before |
| `CpioTurns.EndlessIffForever` | devices/a5/scripts/release-check.py:38-49 | its first turns yield the members listed; the last case is exactly that it never ends, in any other it ends behind them |
| `CpioTurns.ArchiveReadForEver` | devices/a5/scripts/release-check.py:38-49 | as on one header of 110 bytes with the size -0000070 |
| `CpioFormat.ReaderEnds` | devices/a5/scripts/release-check.py:38-49 | without negative sizes it ends |
| `CpioFormat.HexRoundTrip` | devices/a5/scripts/assemble.py:45-46 | a number printed with k hexadecimal digits reads back, if it fits |
| `CpioRoundTrip.RecordReads` | devices/a5/scripts/release-check.py:38-49 | a record at an aligned place reads as its member and the place after it |
| `CpioHeaders.StandingIsRead` | devices/a5/scripts/release-check.py:38-49 | any record that stands in an archive in these numbers, whoever wrote it, is yielded with its contents if its type is 8, and the reader goes on behind it; at TRAILER!!! it stops |
| `CpioHeaders.MagicInNumbers` | devices/a5/scripts/release-check.py:41 | a header is 070701 or 070702 with 110 bytes there |
| `CpioNumbers.NumberReads` | devices/a5/scripts/release-check.py:42 | int(x, 16) reads blanks, a sign, 0x with an underscore or without, digits with single underscores between them, and blanks, as the number they write |
| `CpioNumbers.NumberWritten` | devices/a5/scripts/release-check.py:42 | and nothing else |
| `CpioNumbers.MemberInNumbers` | devices/a5/scripts/release-check.py:42-49 | over any header, with any numbers, negative ones too: the name, the contents, where the next header is, and that a number that cannot be read stops the reader |
| `CpioNumbers.PartInNumbers` | devices/a5/scripts/release-check.py:41-48 | a slice bound counts from the end if it is negative, and is inside at any rate |
| `CpioRoundTrip.RecordsRead` | devices/a5/scripts/release-check.py:38-49 | records, a trailer and anything after them list as the entries before the first trailer name |
| `CpioRoundTrip.ListedIsAllIff` | devices/a5/scripts/release-check.py:41-49 | that is all of them, each with its contents, if and only if none is called TRAILER!!! |
| `CpioWriters.TreeWriter.Add` | devices/a5/scripts/assemble.py:43-51 | padding counted from the whole buffer gives the same record at every place |
| `CpioWriters.Cpio` | devices/a5/scripts/assemble.py:38-70 | the archive of a walked tree: numbered records, trailer, filled to 512, in the numbers of CpioHeaders.TreeInNumbers |
| `CpioHeaders.TreeInNumbers` | devices/a5/scripts/assemble.py:38-70 | the i-th record has the magic 070701 and the numbers 300001 + i, 0x4000 or 0x8000 with the low twelve bits of st_mode or 0xA1FF, 2 for directories else 1, mtime, size, name length plus one, and zeros; name, contents and fill follow, then the trailer and zeros to a multiple of 512 |
| `CpioHeaders.FieldInNumbers` | devices/a5/scripts/assemble.py:45-47 | each number is eight capital hexadecimal digits, the highest first |
| `CpioWriters.TreeReadsBack` | devices/a5/scripts/assemble.py:38-70 | the reader gives back every node in order with exact file contents, all of them if and only if none is called TRAILER!!! |
| `CpioWriters.TreeArchiveBlocks` | devices/a5/scripts/assemble.py:68-70 | the archive is never empty and a multiple of 512 bytes |
| `CpioOverlay.EntryBytes` | devices/a13/boot/overlay_cpio.py:13-19 | paddings counted from the record alone give that same record |
| `CpioOverlay.Overlay` | devices/a13/boot/overlay_cpio.py:22-43 | the program writes the planned entries and a trailer |
| `CpioHeaders.OverlayInNumbers` | devices/a13/boot/overlay_cpio.py:13-43 | its records stand one after the other with the numbers of the planned entries, then a trailer |
| `CpioHeaders.PlanInNumbers` | devices/a13/boot/overlay_cpio.py:24-41 | the entries are the given files in order, MODE with 0100000, and between them only directories above one of them, 0700 if the last component is root or .ssh and 0755 else |
| `CpioHeaders.StripInNumbers` | devices/a13/boot/overlay_cpio.py:31 | a place is stripped of the slashes at its ends |
| `CpioOverlay.PlanIsWell` | devices/a13/boot/overlay_cpio.py:24-39 | every name's directory comes before it, no directory comes twice, no name starts at the root |
| `CpioOverlay.PrefixIsParent` | devices/a13/boot/overlay_cpio.py:32-34 | each joined prefix of a split path is the directory of the next |
| `CpioOverlay.PlanFiles` | devices/a13/boot/overlay_cpio.py:40-41 | the regular files among the entries are the given ones in order, for modes without type bits of their own |
| `CpioOverlay.OverlayReadsBack` | devices/a13/boot/overlay_cpio.py:22-43 | the reader lists the entries whatever follows the archive, and its regular files are the given ones |
| `FdtPatch.Find` | devices/a5/scripts/assemble.py:78-102 | the token loop ends for every blob and strings offset and returns the last matching cells, or the first error of the walk, names that are not UTF-8 included |
| `FdtTokens.TokensAreWalked` | devices/a5/scripts/assemble.py:81-102 | a structure block written token by token, 1 and a name, 2, 3 with length, name offset and value, 4, each filled to four bytes, and 9 at the end, is walked as those tokens at those places |
| `FdtTokens.TurnFails` | devices/a5/scripts/assemble.py:82-102 | and these are the errors: cut short, an unknown token, an end too many, a name without end |
| `FdtTokens.NameFails` | devices/a5/scripts/assemble.py:84-96 | or one that is not UTF-8, or a cell looked for that is not of four bytes |
| `FdtTokens.NamesInCharacters` | devices/a5/scripts/assemble.py:92 | the properties looked for are linux,initrd-start and linux,initrd-end of /chosen |
| `FdtTokens.Utf8IsText` | devices/a5/scripts/assemble.py:86 | a name decodes only if it is the UTF-8 of some characters |
| `FdtTokens.TextIsUtf8` | devices/a5/scripts/assemble.py:86 | and always if it is |
| `FdtPatch.PatchInitrd` | devices/a5/scripts/assemble.py:73-106 | in place, the blob becomes its patched value, also where an error leaves it unchanged or half written |
| `FdtTokens.ScanInNumbers` | devices/a5/scripts/assemble.py:75-81 | a blob needs 16 bytes and d0 0d fe ed; the structure starts at its third word and the strings at its fourth |
| `FdtPatch.FoundIsLast` | devices/a5/scripts/assemble.py:88-96 | each offset found is that of the last property of this name in /chosen, and none is found only if there is none |
| `FdtPatch.CellsAreFour` | devices/a5/scripts/assemble.py:83-96 | the path carried along is the path of the tokens, so every initrd property accepted is one cell |
| `FdtPatch.WalkPlaces` | devices/a5/scripts/assemble.py:81-102 | property values lie inside the blob, in order, behind the tokens that announce them |
| `FdtPatch.FoundInside` | devices/a5/scripts/assemble.py:103-106 | neither write can fall outside the blob |
| `FdtRewalk.PatchTouchesCells` | devices/a5/scripts/assemble.py:103-106 | for every blob, at most the two cells found change |
| `FdtRewalk.WalkSame` | devices/a5/scripts/assemble.py:81-102 | a walk does not see bytes inside property values: blobs that differ only there walk alike |
| `FdtRewalk.PatchKeepsTree` | devices/a5/scripts/assemble.py:73-106 | if no property name lies over one of the cells, the patched blob has the same nodes, names, places and lengths, the two new values, and every other value as it was |
| `FdtRewalk.PatchKeepsTreeIff` | devices/a5/scripts/assemble.py:73-106 | and only then: a name over a cell is changed by some value written |
| `FdtRewalk.StringsApart` | devices/a5/scripts/assemble.py:75-78 | a strings block that has none of the two cells is enough |
| `FdtRewalk.StringsBefore` | devices/a5/scripts/assemble.py:75-78 | as one that ends before the structure block does |
| `FdtRewalk.RepatchIsPatch` | devices/a5/scripts/assemble.py:73-106 | patching again is patching the first blob with the last values |
| `FdtRewalk.StringsBehind` | devices/a5/scripts/assemble.py:75-78 | or one that starts behind both cells, wherever it ends |
| `BootBundle.FindDtb` | devices/a5/scripts/assemble.py:118-120 | the last devicetree magic in the kernel, or none |
| `BootBundle.Assemble` | devices/a5/scripts/assemble.py:114-137 | the image with its header and padding, or the first of its failures |
| `BundleLayout.BundleInNumbers` | devices/a5/scripts/assemble.py:114-139 | the loader at 0, four words at 0x7F00 (314C564F, overlay offset, its length, 88000000) or zeros, the patched kernel at 0x8000, the overlay on the next multiple of 4096, zeros between, and no more than 0x8000000 bytes |
| `BundleLayout.PatchedInNumbers` | devices/a5/scripts/assemble.py:118-128 | the devicetree is the last d0 0d fe ed and as many bytes as the word behind it says, patched with 0x88000000 and the end of the overlay; an overlay above 0x8000000 bytes is refused |
| `BundleLayout.KernelRefused` | devices/a5/scripts/assemble.py:114-128 | no bundle for a loader above 0x7F00 bytes, a kernel without devicetree or with one cut short, or one that cannot be patched |
| `BundleLayout.ImageRefused` | devices/a5/scripts/assemble.py:130-139 | nor for one that would reach 0x88000000; any other is accepted |
| `OverlayCopy.CopyOverlay` | devices/a5/pongo/linux_boot.c:48-64 | the word loop through moving pointers gives the forward word copy, whatever overlaps |
| `BundleLayout.CopyInNumbers` | devices/a5/pongo/linux_boot.c:48-60 | with 314C564F at 0x7F00 and a length that is not zero, (length + 3) / 4 words go from the offset to the destination the header names; else nothing moves |
| `BundleLayout.FirstWordsFirst` | devices/a5/pongo/linux_boot.c:59-60 | the first words are copied first |
| `BundleLayout.OneWord` | devices/a5/pongo/linux_boot.c:60 | and one word is four bytes |
| `OverlayCopy.CopiesRange` | devices/a5/pongo/linux_boot.c:59-60 | where source and destination are apart, exactly the source bytes arrive and nothing else moves |
| `OverlayCopy.ImageLaidOut` | devices/a5/scripts/assemble.py:130-137 | loader, header, kernel and overlay lie apart, each unchanged, below the overlay's destination |
| `OverlayCopy.OverlayArrives` | devices/a5/pongo/linux_boot.c:48-64 | for every accepted bundle with a whole number of words the copy stays in memory and puts exactly the overlay at its destination; without an overlay nothing moves |
| `OverlayCopy.KernelStays` | devices/a5/pongo/linux_boot.c:48-64 | loader and kernel are untouched by the copy |
| `OverlayCopy.KernelCells` | devices/a5/scripts/assemble.py:118-128 | the kernel in the image is the given one except for the two /chosen initrd cells of its appended devicetree, and they bound the overlay |
| `OverlayCopy.BootFindsTree` | devices/a5/scripts/assemble.py:114-137 | from directory tree to boot: in memory, between the two addresses in the /chosen initrd cells of the appended devicetree, lies an archive that lists exactly the tree; and a walk of the devicetree in memory finds these cells, unless a name lies over one |
| `DerItems.ReadItem` | devices/a13/boot/repair_lzss_img4.py:12-31 | the item at a place, or IndexError, indefinite or truncated |
| `Img4Bytes.EncodedItemReads` | devices/a13/boot/repair_lzss_img4.py:12-31 | identifier, of one byte or more, length, short or in up to 127 bytes, and contents read as that item whatever follows; more announced than there is is truncated |
| `Img4Bytes.ItemCutShort` | devices/a13/boot/repair_lzss_img4.py:12-26 | data that ends before the length is an IndexError and a length of 128 indefinite |
| `Img4Bytes.ShortTagCut` | devices/a13/boot/repair_lzss_img4.py:12-26 | also behind an identifier of one byte |
| `DerItems.ReadChildren` | devices/a13/boot/repair_lzss_img4.py:34-40 | the items one after the other to the end, or the first error |
| `DerItems.ItemMoves` | devices/a13/boot/repair_lzss_img4.py:12-31 | the same bytes parse to the same item anywhere |
| `DerItems.ChildrenOfEncoded` | devices/a13/boot/repair_lzss_img4.py:34-40 | parsing a concatenation of whole items gives those items |
| `DerItems.EncodedOfChildren` | devices/a13/boot/repair_lzss_img4.py:34-40 | concatenating the parsed items gives the data |
| `DerItems.SequenceRoundTrip` | devices/a13/boot/repair_lzss_img4.py:43-50 | item of sequence(b) is b and nothing else, for every length sequence can write |
| `DerItems.SequenceIsMinimal` | devices/a13/boot/repair_lzss_img4.py:43-50 | sequence uses no longer a header than any encoding of a body at least as long |
| `Img4Repair.Repair` | devices/a13/boot/repair_lzss_img4.py:53-81 | every check in order, the surgery and the two closing assertions |
| `Img4Bytes.AcceptedIff` | devices/a13/boot/repair_lzss_img4.py:53-72 | an IMG4 of given items is accepted if and only if it starts with "IMG4", its second item has five fields with "IM4P" first, an OCTET STRING that starts with "complzss" fourth and a SEQUENCE fifth, and that holds two INTEGERs, zero and the big-endian word at byte 12 of the compressed data |
| `Img4Bytes.RefusedAs` | devices/a13/boot/repair_lzss_img4.py:53-76 | and otherwise refused for the first of these that fails |
| `Img4Bytes.OuterRefused` | devices/a13/boot/repair_lzss_img4.py:57-60 | as one of fewer than two items, of another first item or without an IM4P is |
| `Img4Bytes.NoSequence` | devices/a13/boot/repair_lzss_img4.py:54-56 | and what is no SEQUENCE, or more than one |
| `Img4Repair.AcceptedIsImg4` | devices/a13/boot/repair_lzss_img4.py:54-74 | accepted input is one SEQUENCE of the outer items, the second a SEQUENCE of five fields |
| `Img4Repair.ClosingChecksPass` | devices/a13/boot/repair_lzss_img4.py:77-80 | both assertions hold |
| `Img4Repair.RepairRemovesOnlyTheRecord` | devices/a13/boot/repair_lzss_img4.py:53-81 | for every input: refused before anything is built, or the same IMG4 without the fifth IM4P field, all kept encodings identical, and shorter |
| `Img4Repair.RepairedIsRefused` | devices/a13/boot/repair_lzss_img4.py:61-62 | a repaired file is refused |
| `FirmwareNodes.TrieNode.ReadKey` | devices/a13/tools/brcmfw.py:30-32 | the key of a node, read recursively |
| `FirmwareNodes.TrieNode.PruneAt` | devices/a13/tools/brcmfw.py:82-90 | in place, the node becomes its pruned value |
| `FirmwareNodes.TrieNode.InsertFile` | devices/a13/tools/brcmfw.py:72-78 | in place, one more file under its identifier |
| `FirmwareNodes.LoadAndPrune` | devices/a13/tools/brcmfw.py:103-104 | loading the files and pruning the root |
| `FirmwareTrie.LoadShape` | devices/a13/tools/brcmfw.py:72-78 | a loaded trie has no dead ends and a file exactly under each identifier given |
| `FirmwareTrie.InsertInPlace` | devices/a13/tools/brcmfw.py:72-78 | a new name goes behind those a node has, and one it has stays in its place |
| `FirmwareTrie.PrefixFreeTerminal` | devices/a13/tools/brcmfw.py:82-90 | if no identifier is a proper prefix of another, data is only at nodes without leaves |
| `FirmwareTrie.PruneTerminal` | devices/a13/tools/brcmfw.py:82-90 | and stays so under pruning at every depth |
| `FirmwareTrie.PruneTakesFirst` | devices/a13/tools/brcmfw.py:82-88 | a file is lifted from depth 4 on where all leaves are alike, and it is that of the first of them |
| `FirmwareTrie.WalkIsFileAt` | devices/a13/tools/brcmfw.py:93-97 | walk emits exactly the identifiers that hold a file |
| `FirmwareTrie.WalkInOrder` | devices/a13/tools/brcmfw.py:93-97 | the file of a node first, then leaf after leaf in the order they were made |
| `FirmwarePruning.SomePrefixEmitted` | devices/a13/tools/brcmfw.py:82-97 | every loaded identifier keeps an emitted one among its prefixes |
| `FirmwarePruning.PruningKeepsIff` | devices/a13/tools/brcmfw.py:44-97 | every loaded identifier has exactly one emitted prefix, with its own data, if and only if whatever extends a loaded identifier without a loaded proper prefix has the same data, and that identifier has at least three names or the next longer prefix is loaded too |
| `FirmwarePruning.PrefixFreeNests` | devices/a13/tools/brcmfw.py:82-97 | as when no identifier is a proper prefix of another |
| `FirmwarePruning.PruningKeepsEveryFile` | devices/a13/tools/brcmfw.py:82-97 | the emitted one is then a loaded identifier or more than three names long |
| `FirmwarePruning.PruningAddsNothing` | devices/a13/tools/brcmfw.py:82-97 | whatever was loaded, every emitted file was loaded at that identifier or below it |
| `FirmwarePruning.EmittedSpeaksForAll` | devices/a13/tools/brcmfw.py:82-97 | and if identifiers nest so, all files loaded there have its data |
| `FirmwarePruning.NestedFilesCanBeLost` | devices/a13/tools/brcmfw.py:85-90 | a chip's file, the same for a stepping of it and another for a platform of that: the last one is lost |
| `NandFtl.Scan` | devices/a5/tools/nand-ftl-scan.py:57-85 | the two arrays say, for every LBA, the highest stamp and the packed place of its copy |
| `NandLayout.CopiesInNumbers` | devices/a5/tools/nand-ftl-scan.py:66-84 | a copy is found if and only if its page is whole and of status 0x40, byte 1024 of its chunk of 4112 is one, and its stamp and LBA are the six and four bytes from 1026 and 1032 on |
| `NandLayout.ContentInNumbers` | devices/a5/tools/nand-ftl-scan.py:66-109 | what is read at an LBA is the 1024 and 3072 bytes around them of the copy with the highest stamp, the first found of these, and nothing exactly if there is none |
| `NandLayout.EntryInNumbers` | devices/a5/tools/nand-ftl-scan.py:84-89 | a map entry is the stamp in eight bytes and file << 28 | page << 2 | chunk in four, or eight bytes of 255 and four zeros |
| `NandFtl.ScanFile` | devices/a5/tools/nand-ftl-scan.py:61-86 | the buffered loop scans each whole page of a file once, in order |
| `NandFtl.PlaceParts` | devices/a5/tools/nand-ftl-scan.py:84 | file, page and chunk come back out of the packed place |
| `NandFtl.WriteMap` | devices/a5/tools/nand-ftl-scan.py:87-89 | the map file has twelve bytes per LBA, up to the first place that does not fit 32 bits |
| `NandFtl.PlaceReads` | devices/a5/tools/nand-ftl-scan.py:100-109 | a packed place leads back to the chunk it was packed from |
| `NandFtl.StoredReads` | devices/a5/tools/nand-ftl-scan.py:100-109 | the entry of an LBA reads as the live copy's data, or nothing |
| `NandFtl.ScanToMap` | devices/a5/tools/nand-ftl-scan.py:57-109 | the scan writes its whole map exactly if every live copy is in the first sixteen files, and every read through the map is then what the dump holds |
| `NandFtl.ContentIsLatest` | devices/a5/tools/nand-ftl-scan.py:18-20 | what is read was written with the highest stamp for that LBA; nothing is read only if it was never written |
| `NandFtl.OrderIrrelevant` | devices/a5/tools/nand-ftl-scan.py:57-85 | two dumps with the same writes read alike, in whatever files and pages, if stamps tell the writes of an LBA apart |
| `IbootSlots.FindZeroRuns` | devices/a12/boot/patch_iboot.py:331-345 | exactly the maximal zero runs with the lowest set bit of their ends, longest first |
| `IbootSlots.RunsAreMaximal` | devices/a12/boot/patch_iboot.py:334-343 | the scan finds each maximal run once |
| `StableSort.SortIs` | devices/a12/boot/patch_iboot.py:344 | a sort keeps the elements and orders them |
| `StableSort.SortStable` | devices/a12/boot/patch_iboot.py:344 | and leaves those of equal rank as they stood |
| `IbootSlots.SortedIs` | devices/a12/boot/patch_iboot.py:344-387 | both sorts keep the runs, order them by length and are stable |
| `IbootSlots.SlotInIff` | devices/a12/boot/patch_iboot.py:357-363 | a run takes a request if and only if it is at least eight bytes longer, and the slot lies behind those eight bytes inside it |
| `IbootSlots.SlotInAligned` | devices/a12/boot/patch_iboot.py:357-363 | the slot has every alignment that leaves room |
| `IbootSlots.FindPageTailSlot` | devices/a12/boot/patch_iboot.py:348-387 | the chosen slot or error, and never the sizing error |
| `IbootSlots.NeverSizingFailed` | devices/a12/boot/patch_iboot.py:369-378 | the branch "page-tail slot sizing failed" cannot be reached |
| `IbootSlots.TailChoice` | devices/a12/boot/patch_iboot.py:366-378 | if a page tail fits: a slot in the one longest page tail, or the ambiguity error exactly if two are longest |
| `IbootSlots.PadChoice` | devices/a12/boot/patch_iboot.py:380-387 | if none fits: a slot in a shortest padding run that does, or the error exactly if there is none |
| `IbootNumbers.PageChoice` | devices/a12/boot/patch_iboot.py:348-378 | over the bytes: if a run of zeros that ends on a multiple of 4096 is eight bytes longer than the request, the one longest of these is taken, two longest are an error |
| `IbootNumbers.PaddingChoice` | devices/a12/boot/patch_iboot.py:380-387 | else the first of the shortest runs with room that end on a multiple of some power of two from 256 on and are shorter than it; without one there is no slot |
| `IbootNumbers.PlaceInNumbers` | devices/a12/boot/patch_iboot.py:357-364 | the slot is at the first multiple, eight bytes into the run, of the largest of 16, 8, 4, 2 and 1 that leaves room |
| `IbootSlots.SlotIsFree` | devices/a12/boot/patch_iboot.py:348-387 | the slot is inside one maximal zero run that ends on a multiple of 256, eight bytes from its start |
| `IbootRedirect.AdrpRoundTrip` | devices/a12/boot/patch_iboot.py:82-91 | decoding the encoded ADRP gives the target's page; encoding works if and only if the page distance fits 21 bits |
| `IbootNumbers.AdrpEncodes` | devices/a12/boot/patch_iboot.py:82-91 | the word is 90000000 with the page distance, in 21 bits, two of them at bit 29 and the others at bit 5, if it fits |
| `IbootNumbers.AdrpInNumbers` | devices/a12/boot/patch_iboot.py:47-54 | and such a word decodes to the page that many pages on |
| `IbootRedirect.AddRoundTrip` | devices/a12/boot/patch_iboot.py:94-104 | decoding the encoded ADD gives the immediate; encoding works if and only if it has the form of one |
| `IbootRedirect.FindCallSite` | devices/a12/boot/patch_iboot.py:286-328 | the one call site, or how many there are |
| `IbootRedirect.AllSitesExact` | devices/a12/boot/patch_iboot.py:292-322 | the scan misses no call site |
| `IbootNumbers.SiteInNumbers` | devices/a12/boot/patch_iboot.py:292-322 | a call site is ADRP X2, ADD X2,X2, ADD X0,SP or SUB X0,X29, 52808001 and a BL, in words of any fields, with a lone "%s" where the two point |
| `IbootRedirect.ResolveBootargs` | devices/a12/boot/patch_iboot.py:390-410 | the three patches, or the first failure |
| `IbootRedirect.ResolvedIff` | devices/a12/boot/patch_iboot.py:390-410 | it works if and only if there is one site, a slot, and the slot is within reach |
| `IbootNumbers.ArgsInNumbers` | devices/a12/boot/patch_iboot.py:393-394 | arguments are refused exactly if they are empty or have a zero, a percent sign or a byte from 128 on in them |
| `IbootRedirect.RedirectApart` | devices/a12/boot/patch_iboot.py:396-409 | the literal falls on zeros and never on the two instruction words |
| `IbootRedirect.Apply` | devices/a12/boot/patch_iboot.py:656-671 | all three patches go in if both words are as resolved; otherwise it stops before the first word that is not |
| `IbootRedirect.RedirectLands` | devices/a12/boot/patch_iboot.py:390-410 | in the patched image the pair loads X2 with the literal's address, the literal is there, and every other byte is as it was |
| `IbootNumbers.PatchInNumbers` | devices/a12/boot/patch_iboot.py:390-410 | at the one call site stand the ADRP and the ADD of the slot, and in the slot the arguments and a zero |

## Left out

- AES, HMAC, zlib and bz2 are parameters, functions of their input; the AES one keeps lengths, zlib and bz2
  may fail.
- The volume header of an HFS+ partition: block size and fork records are given.
- Hfs.lookup, xattr and read_file: other walks of the same kind of leaves, over the catalog and the
  attributes.
- The header of an encrcdsa image and its version check: chunk size, image size and base are given.
- Parsing of the koly trailer, the mish table and the property list of a DMG: the rows are given.
- Touch coordinates are scaled by an unknown function; pressure, size and orientation are not modelled.
- Poll timing, the CRC and the repeated-packet test of hs_poll and hs_exchange: events are frames, timeouts
  and reloads in any order.
- The input core is the slot table: allocation by key, dropping of unused slots, and dropping of repeated
  coordinate values. Tracking id values and event delivery are not modelled.
- The device answering on SPI is a function of the packet number and its bytes; `hbpp_calibration` takes the
  calibration it chose as given, and running out of memory is left out.
- A blob record of fewer than two bytes makes the loader read past it; the two bytes there are a parameter.
- File and directory walking, command lines, printing and writing of results, in every program.
- Names are bytes: text that is not ASCII is measured in characters by the writers but stored in bytes.
- Negative modification times, which the archive writer prints with a sign.
- Member names of an archive are given as bytes, where the reader replaces what is not UTF-8.
- OverlayCopy.OverlayArrives: memory is one array from the load address on, large enough for the largest
  overlay; drawing, caches and the jump into the kernel are not modelled.
- The two `complzss` headers, `rewrap`, `build_macho` and the Adler-32 sums.
- Loading of firmware names from paths and of NVRAM text: files come with their identifiers.
- FirmwareNodes.TrieNode.InsertFile: goes down the trie by recursion where the source moves a variable.
- File names written by brcmfw.py after the walk, where fewer than three parts are skipped.
- The counts per metadata type that the scan of a dump prints, and dump files of more than 2^26 pages, whose
  page numbers would run into the file number.
- LwVM partitions (lwvm_part): a lookup in one block.
- The other resolvers of patch_iboot.py match instruction patterns of images that are not in the repository;
  their patches are applied around the ones modelled here.
