# AlopexOS in Dafny

A model of the stateful algorithms of the AlopexOS kernel and of the Limine installer it ships, with proofs of
what they promise. `dafny verify dfyconfig.toml` checks the whole project. Each program that changes state step
by step is an imperative class or method with the program's own branches and loops; each is tied to a function or
relation on plain values, and the theorems are about those values over all inputs and all runs.

## What is modelled

- **AbtrFS** (`AbtrFormat`, `AbtrLayout`, `AbtrPaths`, `AbtrPlan`, `BlockWrites`, `AbtrDriver`, `AbtrTheorems`,
  `AbtrRuns`, `AbtrGrowth`, `AbtrSession`, `AbtrExamples`). The disk is a sequence of 4096-byte blocks and headers are
  read from their bytes, so a payload block may contain anything, a header included. `AbtrDriver.AbtrFS` is the object with its loops;
  its methods are proved to carry out the plans of `AbtrPlan`, that is, an ordered list of single-block writes of
  which a crash or an error may leave any prefix. `AbtrRuns` gives the simple model the file system refines, a
  list of named byte strings; a call on it records how many of its block writes were carried out and which of its two
  look-ups met read errors, so that runs include crashes and device errors. `AbtrGrowth` is about writes past the end
  of a file, and `AbtrSession` brings driver and simple model together for the calls of the virtual file system.
- **AVFS paths** (`AvfsPaths`): taking `drive://directory` apart, and what the NUL filter does to data.
- **The installer's device** (`LimineUndo`, `LimineDevice`, `LimineUninstallFile`, `LimineRoundTrip`,
  `LimineEnroll`): the one-block write-back cache, the undo journal, its file, and the signature search.
- **The kernel heap** (`HeapModel`, `KernelHeap`): first fit, splitting, merging and the doubly linked free list.
- **NVMe queue pairs** (`NvmeProtocol`, `NvmeController`, `NvmeRestart`, `NvmeRecovery`): host and controller as
  interleaved steps on rings of 64 entries, as in NVM Express Base Specification 1.4, sections 4.1 and 4.6, the
  driver's polling calls, and the same queue pair through any number of failed bring-ups.
- **The display's line loop** (`LineGeometry`, `LineDrawing`, `LineOverflow`), **the storage request queue**
  (`RequestQueue`), **strings** (`StringOrder`, `BasicString`, `StringPool`), **the growable array** (`DynArr`) and
  **the path tree** (`PathTree`).

## Where the program does not do what one would expect

Each of these is a proved statement about the program as it is, with the exact condition and, for most, an input.

- A file is found again after its creation if and only if its name has at most 254 bytes
  (`AbtrRuns.CreateReadsBackIff`); one with 255 letters is lost (`AbtrExamples.LongNameIsLost`).
- An overwrite that adds no block is crash-atomic if and only if the bytes it changes lie in one block
  (`AbtrTheorems.OverwriteAtomicIff`); `AbtrTheorems.TwoBlocksTear` is an input where it is not.
- Writing past the recorded end of an existing file reports success, but the header block is not rewritten, so the
  next read returns the old number of bytes: the data reads back if and only if the write ends within the recorded
  size (`AbtrGrowth.OverwriteReadsBackIff`).
- A write leaves the chain of files, the used mark and the other files alone if and only if it adds no block to its
  file (`AbtrGrowth.ChainKeptIff`, `AbtrGrowth.MarkAndHeadersKeptIff`); `AbtrExamples.AppendBreaks` appends one byte
  to a full block. Added blocks are written over the next file's header, or behind the used mark
  (`AbtrGrowth.GrowthOverwritesNext`), where a look-up takes them for a header if and only if they look like one
  (`AbtrGrowth.GrowthIsScanned`); a later file whose header is left is found and read as before if no block from the
  first added one up to the next header that is left begins with the magic number (`AbtrGrowth.LaterFilesKeep`).
- A read error while the chain is scanned is taken for "no such file", so a write adds a second file of the same
  name if and only if some header up to the existing one cannot be read (`AbtrRuns.DuplicatesIffUnreadable`;
  `AbtrExamples.UnreadableDuplicates`).
- A write that cannot read the old content puts zeros in its place; that is harmless if and only if it is zero
  outside the new data (`AbtrRuns.UnreadableLosesIff`; `AbtrExamples.OneByteIsLost`).
- The scan does not get past a header if and only if its section count is 2^64 - 1 (`AbtrLayout.StandsStillIff`;
  `AbtrLayout.StandsStill`).
- AVFS drops NUL bytes from the data, and writing over a file neither truncates nor extends it
  (`AvfsPaths.NewFileReadsBackIff`, `AvfsPaths.OldFileReadsBackIff`).
- A journal undoes an installation if and only if it covers every byte that changed (`LimineUndo.UndoRestoresIff`).
  A failed write that goes beyond one block can change bytes without being journaled
  (`LimineDevice.FirstBlockStays`).
- A journal with an empty entry cannot be stored (`LimineUninstallFile.StoreUninstallData`) or read back
  (`LimineUninstallFile.StoredReadsBackIff`; `LimineUninstallFile.EmptyEntryIsLost`).
- The signature search stops too early by the length of the signature less one
  (`LimineEnroll.FittingSignatureFoundIff`; `LimineEnroll.MissedSignature`).
- A heap request within 15 bytes of 2^64 wraps to a block of one byte (`HeapModel.RoundedCovers`). Such a request,
  and one for zero bytes, misaligns the blocks after it if and only if there is a free block and the first one is
  large enough to be split (`HeapModel.AlignedAllocIff`); `HeapModel.ZeroBytesMisalign` is an input.
- An NVMe transfer is sent with its own block count if and only if that is 1 to 65536
  (`NvmeController.IoCommandMeansIff`; `NvmeController.NoBlocksMeansAll`).
- Bringing the controller up again, after any number of failures, leaves host and controller in agreement if and only
  if the host has sent a multiple of 128 commands in all (`NvmeRestart.RestartAgreesIff`). With n more than such a
  multiple, a command of the new bring-up can be answered if and only if n is less than 63
  (`NvmeRecovery.AnsweredAfterRestartIff`); then the controller executes all it finds in the ring again, the host may
  take the answer to any of it (`NvmeRecovery.AnyAnswerTaken`, `NvmeRecovery.RestartTakesStale`), and both agree again
  (`NvmeRestart.TakenSinceRestart`).
- Appending to a heap string a slice of its own buffer that goes beyond the text copies, where there is room in place,
  what the loop has just written: it arrives as it was if and only if it repeats itself from there on
  (`BasicString.DeliveredIff`), for a text with its terminator if and only if it begins with a NUL
  (`BasicString.WithTerminatorIff`).
- The line loop leaves the `int` range on some long lines; `LineOverflow.NoOverflowIff` says on which, from the two
  sides and their greatest common divisor (`LineOverflow.LongLineOverflows`).
- The path tree gives some pairs of different paths one node; `PathTree.SharedNodeIff` says which, for every tree
  (`PathTree.ChildTakenForSiblingIff`, `PathTree.EarlierPathMatters`).
- A line drawn backwards has the same pixel at a step if and only if that is not exactly between two pixels
  (`LineGeometry.ReversedAgreesIff`; `LineGeometry.ReversedDiffers`).

## Model

| member | source | states |
|---|---|---|
| AbtrFormat.BuiltHeaderReadsBack | src/abtrfs/abtrfs.cpp:267-279 | Every field of a newly built header block, read from its packed byte offset, holds what was stored there: no two fields overlap |
| AbtrFormat.HeaderSlices | include/AlopexOS/abtrfs/format.hpp:35-81 | The header fields at their packed offsets survive each other's assignment, for any field bytes |
| AbtrFormat.BuiltHeaderBytes | src/abtrfs/abtrfs.cpp:267-279 | The header block of a new file byte by byte: 0xF5 0xAB, the file flag, section count, path, size, block size and payload position at their offsets, zeros elsewhere |
| AbtrFormat.FormattedHeaderBytes | src/abtrfs/abtrfs.cpp:100-106 | The partition header that `format` writes, byte by byte: 0xF4 0xAB, 4096, 204800 blocks of which 204799 are free, version 1, zeros elsewhere |
| AbtrFormat.MarkedIff | src/abtrfs/abtrfs.cpp:186-193 | A block has the file magic number if and only if its first two bytes are 0xF5 and 0xAB |
| AbtrFormat.FileFlagIff | include/AlopexOS/abtrfs/format.hpp:17-23 | It is marked as a file if and only if bit 3 of its third byte is set |
| Bytes.ByteOf | include/AlopexOS/abtrfs/format.hpp:61-81 | Fields are little-endian: byte i of a field is the digit of 256^i |
| AbtrFormat.FormattedHeaderReadsBack | src/abtrfs/abtrfs.cpp:100-106 | The partition header that `format` writes mounts, and reads back with its total and all blocks but itself free |
| AbtrFormat.WithFreeReadsBack | include/AlopexOS/abtrfs/partition_header.hpp:22-31 | Storing a free count changes that field and neither the magic number nor the total |
| AbtrFormat.WithSameFree | include/AlopexOS/abtrfs/partition_header.hpp:22-31 | Rewriting block 0 with an unchanged free count leaves it byte for byte the same, which makes the final write of an in-place overwrite harmless |
| BlockWrites.ApplyCommit | src/abtrfs/abtrfs.cpp:281-310 | After any number of the writes of `write_file`, the blocks written so far are down in order and block 0 is new only when all others are |
| BlockWrites.ApplyRecommit | src/abtrfs/abtrfs.cpp:291-310 | When block 0 does not change, every prefix of the writes is a prefix of the extent |
| AbtrLayout.StoredPath | src/abtrfs/abtrfs.cpp:275-279 | The stored field has 256 bytes and ends in a NUL, whatever the path |
| AbtrLayout.StoredPathName | src/abtrfs/abtrfs.cpp:275-279 | The name read back from a stored path is the path's name cut to 255 bytes |
| AbtrLayout.ScanCorrect | src/abtrfs/abtrfs.cpp:173-198 | Soundness and completeness of the scan on any tiled region, payloads that look like headers included: it stops exactly at the first file of that name, if the name has at most 254 bytes and all headers up to that file can be read, and otherwise finds nothing |
| AbtrLayout.ScanStep | src/abtrfs/abtrfs.cpp:179-194 | One step of the scan on any block, in terms of its bytes: from a block without the magic number it goes to the next block, from a header of another name behind as many blocks as that claims, and at a file header of the name it ends |
| AbtrLayout.ScanFindsHeader | src/abtrfs/abtrfs.cpp:173-198 | What the scan stops at is a header of the chain, never a payload block |
| AbtrLayout.TiledIsStraight | src/abtrfs/abtrfs.cpp:173-198 | On a chain of files no header makes the 64-bit arithmetic of the scan, of sizes or of sector addresses wrap |
| AbtrLayout.StandsStillIff | src/abtrfs/abtrfs.cpp:192-193 | In the program's 64 bits a header keeps the scan at its position if and only if it has the magic number and the largest section count |
| AbtrLayout.StandsStill | src/abtrfs/abtrfs.cpp:192-193 | A header block that does |
| AbtrLayout.FilesAtHeaders | src/abtrfs/abtrfs.cpp:173-198 | The i-th file found is the one described by the i-th header of the chain, and its payload lies inside the used region |
| AbtrLayout.TilingAccounts | src/abtrfs/abtrfs.cpp:228-256 | Accounting: position plus the header and payload blocks of all files is the used mark, with nothing between or left over; no file is empty |
| AbtrLayout.TiledFrame | src/abtrfs/abtrfs.cpp:173-198 | The chain, its headers and its files depend only on the blocks below the used mark |
| AbtrLayout.TiledAppend | src/abtrfs/abtrfs.cpp:248-256 | Two chains one behind the other are one chain, and their files are listed one after the other |
| AbtrLayout.FileFrame | src/abtrfs/abtrfs.cpp:346-391 | A file depends on its own blocks only |
| AbtrPaths.ChopPath | src/abtrfs/abtrfs.cpp:116-137 | The loop computes the maximal slash-free runs of the name, and returns none exactly if the name has only slashes |
| AbtrPaths.Segments | src/abtrfs/abtrfs.cpp:116-137 | No segment is empty or contains a slash, and there is none exactly for a name of slashes |
| AbtrPaths.SegmentsAtSlash | src/abtrfs/abtrfs.cpp:116-137 | What comes before a slash is a segment of its own, if it is not empty, and the rest is cut up independently of it |
| AbtrPaths.SegmentsAtEnd | src/abtrfs/abtrfs.cpp:116-137 | A name without a slash is its only segment |
| AbtrPaths.IsPathEqual | src/abtrfs/abtrfs.cpp:163-171 | The comparison of 255 bytes decides equality of names of at most 254 bytes, and rejects longer ones even when they are equal |
| AbtrDriver.AbtrFS.Mount | src/abtrfs/abtrfs.cpp:20-37 | Mounting succeeds exactly if block 0 can be read and carries the magic number, and takes over its header |
| AbtrDriver.AbtrFS.Format | src/abtrfs/abtrfs.cpp:95-114 | Formatting changes block 0 only, or nothing if the write is refused |
| AbtrDriver.AbtrFS.FindFileHeader | src/abtrfs/abtrfs.cpp:173-198 | On any partition, whatever its blocks hold, whose headers do not make the 64-bit arithmetic wrap, the loop terminates and computes the scan that `ScanCorrect` is about, read errors included |
| AbtrDriver.AbtrFS.Exists | src/abtrfs/abtrfs.cpp:313-328 | The four results of `exists`, each under its condition |
| AbtrDriver.AbtrFS.ReadFile | src/abtrfs/abtrfs.cpp:330-394 | Block by block the call computes the byte-wise specification of reading, with every error case, also for headers that claim more bytes than their blocks have |
| AbtrDriver.AbtrFS.ReadPayload | src/abtrfs/abtrfs.cpp:346-393 | The copy loop over blocks returns the requested bytes of the payload, zeros beyond its last block, or an I/O error exactly if one of the blocks holding them cannot be read |
| AbtrDriver.AbtrFS.CopyBlock | src/abtrfs/abtrfs.cpp:387-390 | One block's part of the requested bytes is appended and the rest of the target left zero |
| AbtrDriver.AbtrFS.WriteFile | src/abtrfs/abtrfs.cpp:200-311 | For new and existing files and every error, read errors that differ between the two look-ups included, the disk afterwards is the old one with the longest accepted prefix of the planned block writes, and the result tells whether that was all of them |
| AbtrDriver.AbtrFS.CreateFile | src/abtrfs/abtrfs.cpp:248-310 | Allocation at the used mark or "no space left" without any write; otherwise header, payload, block 0, up to the first refused write |
| AbtrDriver.AbtrFS.OverwriteFile | src/abtrfs/abtrfs.cpp:257-310 | Payload and block 0 of an existing file, up to the first refused write; no write at all if the missing blocks are not free |
| AbtrDriver.AbtrFS.ExpandData | src/abtrfs/abtrfs.cpp:230-245 | The new bytes are the old content as a second look-up reads it, zeros up to the new size, and the caller's data over both at its offset; unreadable old content counts as none |
| AbtrDriver.AbtrFS.StorePath | src/abtrfs/abtrfs.cpp:275-279 | The loop stores the name, cut to 255 bytes and NUL-padded |
| AbtrDriver.AbtrFS.WritePayload | src/abtrfs/abtrfs.cpp:287-310 | The payload loop and the commit carry out the remaining planned writes in order and stop at the first refused one |
| AbtrDriver.AbtrFS.FillBuffer | src/abtrfs/abtrfs.cpp:292-299 | The block buffer holds the chunk, zero-padded, whatever it held before |
| AbtrTheorems.ReadRefinesSlice | src/abtrfs/abtrfs.cpp:346-393 | Reading a file whose blocks can be read is a slice of its flat content, for every offset and limit |
| AbtrTheorems.ReadAtMeans | src/abtrfs/abtrfs.cpp:346-393 | Reading with any header, sound or not: nothing behind the recorded size, an I/O error exactly if a block holding requested bytes cannot be read, and otherwise each byte from its place in the payload, with zeros behind the last block |
| AbtrTheorems.PayloadReadsBack | src/abtrfs/abtrfs.cpp:291-304 | Zero-padded payload blocks put end to end start with exactly the bytes written |
| AbtrTheorems.CreateIsCrashAtomic | src/abtrfs/abtrfs.cpp:248-310 | After any prefix of the block writes of a creation, a fresh mount finds a formatted partition with exactly the old files, or, after the last write, those and the complete new one; also where the device is smaller than the partition and only a prefix fits |
| AbtrTheorems.PayloadFrame | src/abtrfs/abtrfs.cpp:291-304 | Changing payload blocks of one file changes no other file and no header of the chain |
| AbtrTheorems.OverwritePrefix | src/abtrfs/abtrfs.cpp:287-310 | An overwrite that adds no block, cut off after any number of block writes, leaves all other files as they were, keeps the length of its own, and exactly that many blocks of it are new |
| AbtrTheorems.TornAtomicIff | src/abtrfs/abtrfs.cpp:291-304 | Content is old or new after every number of block writes if and only if the bytes that change lie in one block |
| AbtrTheorems.OverwriteAtomicIff | src/abtrfs/abtrfs.cpp:287-310 | An overwrite that adds no block shows the old or the new files after every prefix of its writes if and only if the bytes it changes lie in one block |
| AbtrTheorems.SmallWriteIsAtomic | src/abtrfs/abtrfs.cpp:230-245 | A write whose first and last byte lie in one block is such an overwrite |
| AbtrTheorems.TwoBlocksTear | src/abtrfs/abtrfs.cpp:287-310 | Overwriting 4097 zeros with 4097 ones, cut off after one block write, shows neither the old nor the new files |
| AbtrTheorems.ScanStable | src/abtrfs/abtrfs.cpp:173-198 | A file found once is found again on any disk that agrees up to its header, however much is used behind it |
| AbtrRuns.ScanIsFind | src/abtrfs/abtrfs.cpp:173-198 | Without read errors the scan finds the first file of that name in the simple model |
| AbtrRuns.ScanIsSeen | src/abtrfs/abtrfs.cpp:173-198 | With any read errors the scan finds the first file of that name if all headers up to it can be read, and nothing otherwise |
| AbtrRuns.ReadsWhole | src/abtrfs/abtrfs.cpp:233-241 | With any read errors, reading a whole file returns exactly its content if all headers up to it and its payload can be read, and an error otherwise |
| AbtrRuns.ReadFileRefines | src/abtrfs/abtrfs.cpp:330-394 | For every path, offset and limit, a read of a formatted partition returns what the list of named byte strings has |
| AbtrRuns.StepCreates | src/abtrfs/abtrfs.cpp:248-310 | A creation appends to the list the name and the zero-filled data, or changes nothing when it fails or is cut off; so does a write whose scan met a read error |
| AbtrRuns.StepOverwrites | src/abtrfs/abtrfs.cpp:217-310 | A write that adds no block changes the one file, block by block as far as it got, to the intended content cut to the file's length, and leaves block 0 alone |
| AbtrRuns.StepRefines | src/abtrfs/abtrfs.cpp:200-311 | Any write that adds no block to an existing file, with any crash, write error or read errors, different ones in its two look-ups included, keeps the partition formatted and does to its files what it does to the list |
| AbtrRuns.RunRefines | src/abtrfs/abtrfs.cpp:200-311 | Every run of such writes, with different failures before each and between its two look-ups, keeps the partition formatted and leaves the files the list has after the same run |
| AbtrRuns.FormatIsEmpty | src/abtrfs/abtrfs.cpp:95-114 | A formatted partition mounts and has no files, on a device of any size |
| AbtrRuns.RunsFromFormat | src/abtrfs/abtrfs.cpp:95-394 | After `format` on a device of any size and any run, every read returns the list's slice, and 1 + all header and payload blocks + free blocks is 204800 |
| AbtrRuns.CreateReadsBackIff | src/abtrfs/abtrfs.cpp:163-171 | A file just created reads back as zeros up to the offset and then the data, if and only if its name has at most 254 bytes |
| AbtrRuns.OtherPathsKeep | src/abtrfs/abtrfs.cpp:200-311 | No write that adds no block, whatever fails during it, changes what any other path reads |
| AbtrRuns.DuplicatesIffUnreadable | src/abtrfs/abtrfs.cpp:180-183 | A write to an existing file allocates a second one if and only if the first look-up cannot read some header up to the existing one, whatever the second meets |
| AbtrRuns.UnreadableLosesIff | src/abtrfs/abtrfs.cpp:233-241 | A write that could not read the old content leaves what it should if and only if that content is zero outside the new data |
| AbtrGrowth.OverwritesIff | src/abtrfs/abtrfs.cpp:224-265 | A write to an existing file succeeds and stays on the device if and only if the blocks it adds are free and the device reaches that far |
| AbtrGrowth.OverwriteKeepsLength | src/abtrfs/abtrfs.cpp:257-310 | After any successful write to an existing file, growth included, the next read returns the intended content cut to the old length |
| AbtrGrowth.OverwriteReadsBackIff | src/abtrfs/abtrfs.cpp:257-310 | The intended content reads back if and only if the write ends within the recorded size |
| AbtrGrowth.OverwrittenIsGrown | src/abtrfs/abtrfs.cpp:257-310 | What such a write leaves on the disk, block by block: its header and everything before and behind unchanged, the new bytes between, and the used mark higher by the blocks added |
| AbtrGrowth.ChainKeptIff | src/abtrfs/abtrfs.cpp:257-265 | A successful write leaves a mountable chain with all other files unchanged if and only if it adds no block to its file |
| AbtrGrowth.MarkAndHeadersKeptIff | src/abtrfs/abtrfs.cpp:257-285 | It keeps the used mark and every header block if and only if it adds no block to its file |
| AbtrGrowth.GrowthOverwritesNext | src/abtrfs/abtrfs.cpp:258-304 | The first block added is payload written over the next file's header block, or for the last file at the old used mark |
| AbtrGrowth.GrowthIsScanned | src/abtrfs/abtrfs.cpp:179-194 | After growth by whole blocks, of the last file too, looking up a name not found before the added block takes that payload for a header if and only if it looks like one of that name |
| AbtrGrowth.EarlierFilesKeep | src/abtrfs/abtrfs.cpp:257-310 | After any successful write to an existing file, growth included, every file before it is read as before, at every offset and limit |
| AbtrGrowth.LaterFilesKeep | src/abtrfs/abtrfs.cpp:173-198 | After growth a file behind those overwritten is found at its header and read as before, if no block from the first added one up to the next header that is left begins with the magic number |
| AbtrGrowth.ScanUnmarked | src/abtrfs/abtrfs.cpp:192-193 | Over blocks without the magic number a scan goes one by one |
| AbtrGrowth.GrowthCutKeeps | src/abtrfs/abtrfs.cpp:287-304 | A growing write cut off before block 0, as long as it has not come to the next file's header, or at any point for the last file, leaves every file findable, all others unchanged and its own of the old length with its first blocks new |
| AbtrGrowth.GrowthCutOverwritesNext | src/abtrfs/abtrfs.cpp:287-304 | Cut off later, the next file's header block is payload already while block 0 is still the old one |
| AbtrExamples.LongNameIsLost | src/abtrfs/abtrfs.cpp:163-171 | A file with a name of 255 letters is created and then not found |
| AbtrExamples.OneByteIsLost | src/abtrfs/abtrfs.cpp:233-241 | A write behind an old content of one byte that it could not read zeroes that byte |
| AbtrExamples.OneFileIs | src/abtrfs/abtrfs.cpp:95-311 | Formatting any device of at least six blocks and creating a file of one full block gives a partition with that file, its header in block 1 and the used mark at 3 |
| AbtrExamples.AppendBreaks | src/abtrfs/abtrfs.cpp:257-310 | Appending one byte to that file loses the byte and the chain |
| AbtrExamples.UnreadableDuplicates | src/abtrfs/abtrfs.cpp:180-183 | With block 1 unreadable at the first look-up, a write to that file allocates a second one at the used mark |
| AbtrSession.Write | src/AVFS/avfs.cpp:357-361 | Mounting afresh and writing, on a device of any size that may refuse any read or write, and other reads at the second look-up than at the first: the files become those of the simple model for exactly the read errors that device gives and the writes it carries out up to its first refusal; the result is "not mounted" exactly if block 0 cannot be read, "write failed" exactly if a planned write was refused, and otherwise the one the simple model predicts; on a healthy device only its end cuts a call |
| AbtrSession.Read | src/abtrfs/abtrfs.cpp:330-394 | Mounting afresh and reading returns what the simple model has for the path |
| AbtrSession.Session | src/abtrfs/abtrfs.cpp:95-311 | Formatting a healthy device of any size and then any sequence of calls that add no block to an existing file, block by block through the driver, gives the files of the simple model in the smaller of partition and device |
| AbtrSession.PlanOutcome | src/abtrfs/abtrfs.cpp:200-265 | With any read errors, a write is refused exactly for a path without a segment, an empty new file, or too few free blocks for a new one; otherwise its writes stay inside the device or, for a new file, the partition |
| AbtrSession.CapacityStep | src/abtrfs/abtrfs.cpp:248-310 | On a device smaller than its partition a call does what it would if the partition ended with the device |
| AvfsPaths.FindDrive | src/AVFS/avfs.cpp:138-180 | The loop returns what precedes the separator, without trailing spaces, or none if there is no separator |
| AvfsPaths.SeparatorIff | src/AVFS/avfs.cpp:138-180 | The separator is at position i if and only if the bytes there are `://` and no colon or NUL comes before |
| AvfsPaths.Trimmed | src/AVFS/avfs.cpp:151-161 | The loop drops exactly the trailing spaces |
| AvfsPaths.TrimRightIs | src/AVFS/avfs.cpp:151-161 | What is left ends with the last byte that is not a space |
| AvfsPaths.FindPathAfterDrive | src/AVFS/avfs.cpp:182-228 | It accepts exactly the paths `findDrive` accepts, and returns the bytes up to the next NUL, NUL-padded |
| AvfsPaths.CopyDirectory | src/AVFS/avfs.cpp:213-224 | The copy loop stays inside the path array and leaves it NUL-padded |
| AvfsPaths.PathPartsReadBack | src/AVFS/avfs.cpp:138-228 | A path put together from a colon-free name and any rest is taken apart into exactly these |
| AvfsPaths.CleanData | src/AVFS/avfs.cpp:349-355 | The filter loop keeps exactly the non-NUL bytes in order; it is the identity exactly on data without NUL |
| AvfsPaths.NonNulAppend | src/AVFS/avfs.cpp:349-355 | What the filter keeps of one part of the data does not depend on the rest |
| AvfsPaths.NewFileReadsBackIff | src/AVFS/avfs.cpp:303-362 | Data written to a new file through AVFS reads back if and only if it is not empty and has no NUL |
| AvfsPaths.OldFileReadsBackIff | src/AVFS/avfs.cpp:303-362 | Data of any length written over an existing file through AVFS reads back if and only if it is as long as the old content and its NULs all come last and meet NULs there |
| AvfsPaths.NulsLast | src/AVFS/avfs.cpp:349-355 | The filtered data is a prefix of the data if and only if all its NULs come last |
| LimineUndo.PutPut | lib/limine/limine.c:495-516 | Writing a range in consecutive parts is writing it at once |
| LimineUndo.PutOver | lib/limine/limine.c:537-552 | Writing a range in full after a part of it is writing it once |
| LimineUndo.ReplayReversedAt | lib/limine/limine.c:328-334 | Replaying a journal newest entry first leaves at each byte the oldest value saved for it, and other bytes alone |
| LimineUndo.UndoRestores | lib/limine/limine.c:524-574 | A journal that saved the original of all it covers brings back every disk that has the original elsewhere, whatever the covered bytes hold |
| LimineUndo.UndoRestoresIff | lib/limine/limine.c:524-574 | A journal whose oldest entries saved the original brings it back if and only if every byte that changed is covered |
| LimineUndo.WriteKeepsJournal | lib/limine/limine.c:467-522 | One journaled write, with any eviction, keeps the journal complete for both the disk and the cached image |
| LimineDevice.Device.constructor | lib/limine/limine.c:233-264 | The device starts with block 0 cached, clean, and an empty journal |
| LimineDevice.Device.FlushCache | lib/limine/limine.c:266-285 | Flushing leaves the image as it was; when it succeeds the disk equals the image, and when it fails, with any part of the block written, the cache stays dirty and nothing is lost |
| LimineDevice.Device.CacheBlock | lib/limine/limine.c:287-312 | Changing the cached block never changes the image, also when flushing or loading fails; a failed load may leave anything in the clean cache, which still passes for the old block; each disk byte is an old disk or image byte; without device faults it fails exactly for blocks off the device; a block that is cached already costs no request |
| LimineDevice.Device.ReadChunk | lib/limine/limine.c:448-462 | One round transfers exactly the part of the range that lies in one block |
| LimineDevice.Device.Read | lib/limine/limine.c:445-465 | As long as no load of a block has failed before, a read returns the image's bytes at any location and length, across blocks; without device faults it fails exactly off the end |
| LimineDevice.Device.WriteChunk | lib/limine/limine.c:498-516 | One round changes exactly the bytes of the range that lie in one block |
| LimineDevice.Device.WriteChunks | lib/limine/limine.c:495-516 | The loop changes exactly [loc, loc + count) of the image, or a prefix of it when it fails; without device faults that is only off the end, where it writes what fits; outside the range each disk byte is an old disk or old image byte |
| LimineDevice.Device.Write | lib/limine/limine.c:467-522 | As long as no load of a block has failed before: a successful write appends the overwritten bytes to the journal; a failing one journals nothing and has written a prefix of its bytes, none of them if they lie in one block; without device faults it fails exactly when off the device or with a full journal, and then leaves the image unchanged outside `uninstall` |
| LimineDevice.Device.Journal | lib/limine/limine.c:474-493 | What is saved is the image before the write |
| LimineDevice.Device.ReverseUninstallData | lib/limine/limine.c:328-334 | The two-table loop reverses the journal and leaves the image alone, also for an empty journal |
| LimineDevice.Device.Uninstall | lib/limine/limine.c:524-574 | Dropping the cache, dirty, unknown or not, then replaying and flushing: if the result is true, whatever device errors were retried, the disk is the old disk with the whole journal replayed in order; if no request to the device fails it always is, and the result is false exactly if some entry is off the device; a single failed request, other than the last, does not make it false |
| LimineDevice.Device.ReplayJournal | lib/limine/limine.c:534-553 | The loop puts every entry on the image in order, and with at most one failed request reports success if all entries are on the device |
| LimineDevice.Device.Restore | lib/limine/limine.c:534-553 | If it reports success, after one retry at most, the entry is on the image, parts written by a failed first attempt included; if only one request fails during it and the entry is on the device, it does succeed |
| LimineDevice.Device.Perform | lib/limine/limine.c:445-522 | Every device access keeps the journal able to bring the disk back, on any device, except a failed write that goes beyond one block on a device with faults; a write that succeeds is on the image, and after a flush that succeeds the disk equals the image |
| LimineDevice.Device.PerformAll | lib/limine/limine.c:767-1204 | Any sequence of device accesses, up to the first that fails, keeps the journal able to bring the disk back; all succeed only if they stay on the device and the journal has room for the writes, and without device faults exactly then; if all succeed the image is the old one with exactly their writes put on it in order |
| LimineDevice.Device.Attempt | lib/limine/limine.c:767-1220 | After an installation's accesses and, unless one of the program's own checks gives it up, the final flush, and the reversal, replaying the journal on the physical disk gives the original: always if the installation succeeded or the device has no faults, and on every device if no write goes beyond one block; without faults it succeeds exactly if it is not given up, stays on the device and fits the journal; a completed installation has left exactly its writes on the physical disk |
| LimineDevice.Device.InstallAndRollBack | lib/limine/limine.c:767-1225 | An installation given up at any point, by a failed access or by a check of its own after any successful ones, with any evictions and with dirty data in the cache, is undone if the roll-back reports success, on every device if no write goes beyond one block, and for any writes on a device without faults, where success is certain: the physical disk is byte for byte the original; a single failed request in all, other than the last, does not hinder the roll-back |
| LimineDevice.FirstBlockStays | lib/limine/limine.c:498-520 | A write across a block border of which only the first block arrived and nothing was journaled is not undone, if its first byte changed |
| LimineDevice.WriteJournaled | lib/limine/limine.c:467-522 | The journal invariant holds after a write whose entry saved the old image |
| LimineUninstallFile.StoreUninstallData | lib/limine/limine.c:342-380 | Storing succeeds exactly if the file can be opened, the medium has room for it and no entry is empty, and then writes the count and all entries; what a failure leaves behind is a beginning of that file |
| LimineUninstallFile.StoredEntryAt | lib/limine/limine.c:355-370 | The bytes of the file: eight of count, then for each entry eight of position, eight of length and the data, and nothing behind the last |
| LimineUninstallFile.TooManyEntries | lib/limine/limine.c:399-403 | A file that claims more than 256 entries is refused |
| LimineUninstallFile.LoadUninstallData | lib/limine/limine.c:382-443 | The loop accepts exactly the files the grammar of count and entries accepts, with every short or oversized file refused |
| LimineUninstallFile.EntriesReadBack | lib/limine/limine.c:405-426 | The entries are read back from any position, whatever follows them |
| LimineUninstallFile.StoredReadsBackIff | lib/limine/limine.c:342-443 | A stored journal loads as itself if and only if it has no empty entry |
| LimineUninstallFile.EmptyEntryIsLost | lib/limine/limine.c:405-424 | A stored journal of one empty entry does not load |
| LimineUninstallFile.StoredJournalRestores | lib/limine/limine.c:342-574 | The reversed journal, stored, loaded and replayed, brings the disk back |
| LimineRoundTrip.Install | lib/limine/limine.c:767-1227 | An installation with its cleanup either rolls the disk back, for writes inside one block or a device without faults and a roll-back that reports success, or stores a file whose journal brings the disk back; it rolls back if given up by a check of its own, if an access leaves the device or the journal is full, and without faults only then; with at most one failed request, not the last, such a roll-back reports success; completed, it stores none only if the file cannot be opened or does not fit or a write was empty; unless rolled back, the disk is the old one with exactly the installation's writes put on it in order |
| LimineRoundTrip.Save | lib/limine/limine.c:1225-1227 | A stored journal is read back as it was |
| LimineRoundTrip.UninstallFrom | lib/limine/limine.c:743-758 | Uninstall mode replays exactly the loaded journal when it reports success, and changes nothing when the file does not load; with at most one failed request, not the last, it reports success if all entries are on the device |
| LimineRoundTrip.InstallThenUninstall | lib/limine/limine.c:342-1227 | For every disk and every sequence of device accesses, completed or given up at any point with or without a failed access, if the roll-back or the later uninstallation from the file, even with another block size, reports success, the disk is the original: on every device if no write goes beyond one block, for any writes if the installing device has no faults; without faults, with room for the file and without empty writes success is certain |
| LimineEnroll.FindSignature | lib/limine/limine.c:1332-1350 | The search terminates although its index moves backwards, and returns the end of the first occurrence whose last byte is below the bound, or none if there is none |
| LimineEnroll.FittingSignatureFoundIff | lib/limine/limine.c:1335-1350 | A first occurrence with its whole checksum field in the file is found if and only if it starts at least the signature's length less one before the last such position |
| LimineEnroll.MissedSignature | lib/limine/limine.c:1335-1350 | A file of just signature and checksum field is refused |
| HeapModel.TakeKeeps | src/kernel/new.cpp:95-113 | Taking a block, split or whole, keeps the heap well formed |
| HeapModel.CoalesceKeeps | src/kernel/new.cpp:73-84 | Merging with the block behind keeps the heap well formed |
| HeapModel.ReleaseKeeps | src/kernel/new.cpp:120-131 | Freeing a live or an already free block keeps the heap well formed |
| HeapModel.RoundedCovers | src/kernel/new.cpp:21-23 | A positive request is rounded to the least multiple of 16 that covers it unless the addition wraps; requests that wrap and those for nothing get one byte |
| HeapModel.AllocKeeps | src/kernel/new.cpp:86-118 | An allocation keeps every block free or owned by an outstanding request, and every request served |
| HeapModel.FreeKeeps | src/kernel/new.cpp:120-131 | Freeing any block, a second time included, keeps every block free or owned by an outstanding request, and the other requests served |
| HeapModel.TakeMembers | src/kernel/new.cpp:95-112 | Taking a block removes exactly it from the free list and adds at most the rest of it |
| HeapModel.RunKeeps | src/kernel/new.cpp:86-131 | Every run of allocations and frees, from any such heap, keeps the heap well formed, loses no block and keeps every outstanding request served |
| HeapModel.InitialHolds | src/kernel/new.cpp:25-36 | The initial heap is one free block that fills the buffer |
| HeapModel.ExactCover | src/kernel/new.cpp:73-131 | Every byte of the 16 MiB buffer lies in exactly one block, so no operation gains or loses space |
| HeapModel.LivePayloadsAreDisjoint | src/kernel/new.cpp:86-118 | Outstanding payloads lie in the buffer and overlap neither each other nor any header |
| HeapModel.ReachableHeaps | src/kernel/new.cpp:25-131 | In every heap reachable from the initial one, blocks cover the buffer, outstanding payloads overlap neither each other nor any header, and each is as large as requested exactly if rounding did not wrap |
| HeapModel.FirstFitOrNull | src/kernel/new.cpp:89-117 | Null, with nothing changed, exactly if every free block is smaller than the least multiple of 16 that covers the request; otherwise the first of the list that is not |
| HeapModel.AllocateEffect | src/kernel/new.cpp:95-113 | More than 48 bytes left over become a new free block right behind the payload, at the front of the list; the block taken goes from the list; nothing else changes |
| HeapModel.ReleaseEffect | src/kernel/new.cpp:73-84 | The block comes to the front of the list and swallows the one right behind it, with 32 bytes of header, exactly if that is free; nothing else changes |
| HeapModel.FreshHeap | src/kernel/new.cpp:3-36 | On the fresh 16 MiB heap a first request for 9 MiB, or for all but the header, gets the payload at 32, and one byte more gets null |
| HeapModel.AllocateReleaseRestoresIff | src/kernel/new.cpp:73-131 | Freeing what was just allocated restores the tiling if and only if the block was split or the one behind it is not free |
| HeapModel.AlignedSteps | src/kernel/new.cpp:21-131 | Blocks stay 16-byte aligned under all operations except requests for zero bytes and requests whose rounding wraps |
| HeapModel.AlignedAllocIff | src/kernel/new.cpp:86-112 | An allocation keeps all blocks aligned if and only if its size is positive and rounds without wrapping, or there is no free block, or the first one is too small to be split for one byte |
| HeapModel.ZeroBytesMisalign | src/kernel/new.cpp:89-90 | After a request for zero bytes the next payload is at byte 65 |
| KernelHeap.Heap.InitHeap | src/kernel/new.cpp:25-36 | Initialising writes the one header and the list head, once |
| KernelHeap.Heap.RemoveFromFreeList | src/kernel/new.cpp:38-51 | The four pointer updates take exactly the i-th block out of the doubly linked list, in any position |
| KernelHeap.Heap.AddToFreeList | src/kernel/new.cpp:53-62 | The block becomes the first of the list, marked free, and no other block changes |
| KernelHeap.Heap.IsInFreeList | src/kernel/new.cpp:64-71 | The pointer walk terminates and decides membership |
| KernelHeap.Heap.CoalesceBlock | src/kernel/new.cpp:73-84 | In-band merging, reading a header at a computed address, is the model's merge |
| KernelHeap.Heap.FindFit | src/kernel/new.cpp:92-95 | The walk over the links finds the model's first fit |
| KernelHeap.Heap.TakeBlock | src/kernel/new.cpp:96-112 | Splitting and unlinking in memory is the model's taking of the i-th free block |
| KernelHeap.Heap.UnlistBlock | src/kernel/new.cpp:110-111 | Exactly this block leaves the list and becomes used |
| KernelHeap.Heap.SplitBlock | src/kernel/new.cpp:97-108 | The new header behind the payload is listed first; sizes add up; no other header changes |
| KernelHeap.Heap.AllocateMemory | src/kernel/new.cpp:86-118 | The pointer program returns the model's address or null, and its memory represents the model's new state |
| KernelHeap.Heap.FreeMemory | src/kernel/new.cpp:120-131 | Null and double frees change nothing, also of a block that has been merged into its predecessor, as long as the header it left behind has not been overwritten; otherwise memory represents the model's state after release; no header but the freed one changes whether it says free |
| KernelHeap.Heap.FreeSwallowed | src/kernel/new.cpp:120-131 | Freeing a block, then its predecessor, which swallows it, and then the first one again leaves the heap as after the first two |
| KernelHeap.Heap.WritePayload | src/kernel/new.cpp:73-84 | A client that stores anything in its own payload, a forged or stale header included, does not affect the heap; nothing but the stored bytes changes |
| NvmeProtocol.NextKeepsInv | src/PCI/nvme/nvme.cpp:463-553 | Every host or controller step keeps the relation between positions, phase tags, ring contents and history |
| NvmeProtocol.SlotAdvance | src/PCI/nvme/nvme.cpp:496-499 | The phase tags in the ring separate this lap's entries from the last one's, over any number of wraps |
| NvmeProtocol.TakesFresh | src/PCI/nvme/nvme.cpp:485-489 | The phase at the head matches if and only if the answer to the pending command has been posted: no stale entry is ever accepted and no fresh one missed |
| NvmeProtocol.RunKeepsInv | src/PCI/nvme/nvme.cpp:463-553 | The invariant holds in every state of every interleaving |
| NvmeProtocol.TakenIsMine | src/PCI/nvme/nvme.cpp:463-507 | In every interleaving each completion taken answers the command just submitted, with its identifier and status, although the host never compares identifiers |
| NvmeProtocol.IdleAgrees | src/PCI/nvme/nvme.cpp:463-553 | Between calls host and controller agree on both queue positions and the phase, and nothing is in flight, whatever earlier commands returned |
| NvmeProtocol.NeverStuck | src/PCI/nvme/nvme.cpp:485-506 | While the host polls, some step towards its answer is always possible |
| NvmeRestart.LifeReachable | src/PCI/nvme/nvme.cpp:86-150 | Through any interleaving and any number of bring-ups, host and controller are either at the same command or the controller is working through the ring from its start, with every index, phase tag and doorbell given by the number of commands sent in all |
| NvmeRestart.RestartAgreesIff | src/PCI/nvme/nvme.cpp:86-150 | However often bring-ups have failed, entering `init` again leaves host and controller in agreement, and where they were at the first start, if and only if the host has sent a multiple of 128 commands in all |
| NvmeRestart.TakenSinceRestart | src/PCI/nvme/nvme.cpp:353-392 | Over any number of bring-ups, both sides agree after every entry taken, and it answers the command just submitted, unless it is the first since a start in disagreement: then the controller has executed exactly the commands in the ring up to the new one, each once, and the entry is its last answer |
| NvmeRestart.BehindTake | src/PCI/nvme/nvme.cpp:353-392 | After a start in disagreement nothing is taken before the controller has answered the whole ring up to the new command, and nothing at all if the host was 63 or more commands past a multiple of 128 |
| NvmeRecovery.AnsweredAfterRestartIff | src/PCI/nvme/nvme.cpp:353-392 | After any number of failed bring-ups there is a run in which a command is answered if and only if the number of commands sent, modulo 128, is less than 63; otherwise the host polls forever whatever the controller does |
| NvmeRecovery.AnyAnswerTaken | src/PCI/nvme/nvme.cpp:353-392 | If that number is from 1 to 62, then for every command the host sends first and each of the old ones in the ring before it there is a run in which it takes the answer to the old one |
| NvmeRecovery.OneThenRestart | src/PCI/nvme/nvme.cpp:117-125 | If the very first command failed, they do not agree |
| NvmeRecovery.RestartTakesStale | src/PCI/nvme/nvme.cpp:117-125 | Then there is a run in which the controller executes the old command again and the host takes its answer for that of the new one |
| NvmeController.VerdictIgnoresPhase | src/PCI/nvme/nvme.cpp:329-332 | Both verdicts depend on the status the controller gave and not on the phase bit |
| NvmeController.IoCommandMeansIff | src/PCI/nvme/nvme.cpp:477-479 | The controller recovers the 64-bit block address always, and the block count if and only if it is 1 to 65536 |
| NvmeController.IoCommandFields | src/PCI/nvme/nvme.cpp:463-479 | Every word of the command, for any address and count: identifier, opcode, namespace 1, both halves of the address, and the zero-based count modulo 65536 |
| NvmeController.NoBlocksMeansAll | src/PCI/nvme/nvme.cpp:479 | A transfer of no blocks is sent as one of 65536 |
| NvmeController.QueuePair.Post | src/PCI/nvme/nvme.cpp:464-483 | Submitting from an idle queue pair is the protocol's submit step |
| NvmeController.QueuePair.ControllerStep | src/PCI/nvme/nvme.cpp:485-506 | Whatever the controller does between two polls is the protocol's fetch or complete step, or a bounded delay without any change |
| NvmeController.QueuePair.TakeEntry | src/PCI/nvme/nvme.cpp:489-502 | Moving past the accepted entry, with phase flip and doorbell, is the protocol's take step and ends with both sides agreeing and the entry answering the last command |
| NvmeController.QueuePair.Execute | src/PCI/nvme/nvme.cpp:353-392 | The polling loop ends and returns the status given to this very command, for any controller behaviour; the queue pair is idle again |
| NvmeController.QueuePair.Poll | src/PCI/nvme/nvme.cpp:485-506 | The polling loop ends with the answer to the last command submitted, for any controller behaviour |
| NvmeController.QueuePair.Read | src/PCI/nvme/nvme.cpp:463-507 | A read sends opcode 0x02 for namespace 1 with this address and count, under the number of its slot, and succeeds exactly if the controller reported status 0 for it |
| NvmeController.QueuePair.Write | src/PCI/nvme/nvme.cpp:509-553 | A write sends opcode 0x01, all else alike |
| NvmeController.QueuePair.Transfer | src/PCI/nvme/nvme.cpp:463-553 | What both do alike: one command sent and answered, with success exactly for status 0 |
| NvmeController.QueuePair.Identify | src/PCI/nvme/nvme.cpp:353-392 | Sends opcode 0x06 for the controller and succeeds exactly for status 0; the history before it stays |
| NvmeController.QueuePair.IdentifyNamespace | src/PCI/nvme/nvme.cpp:174-220 | Sends opcode 0x06 for namespace 1 and succeeds exactly for status 0 |
| NvmeController.QueuePair.FormatNamespace | src/PCI/nvme/nvme.cpp:224-260 | Sends opcode 0x80 for namespace 1 and succeeds exactly for status 0 |
| NvmeController.QueuePair.NamespaceAttach | src/PCI/nvme/nvme.cpp:262-318 | Attaching succeeds exactly for status 0 or "already attached" |
| NvmeController.QueuePair.CreateIoQueues | src/PCI/nvme/nvme.cpp:394-461 | Sends opcode 0x05 and, exactly if that gets status 0, opcode 0x01, with these words; success exactly if both get status 0; both sides agree afterwards in every case |
| NvmeController.QueuePair.BringUp | src/PCI/nvme/nvme.cpp:117-145 | A bring-up sends its six commands in this order, each in its own slot, up to the first that is not accepted, and succeeds exactly if all are; "already attached" is accepted for the fourth only; both sides agree afterwards in every case |
| LineGeometry.RoundUnique | src/kernel/display.cpp:59-82 | Rounding is the one value within half a unit, halves upwards |
| LineGeometry.LineEnds | src/kernel/display.cpp:66-71 | The line starts at the first point and ends exactly at the last |
| LineGeometry.HalfPixel | src/kernel/display.cpp:69-81 | Every point is within half a pixel of the ideal line along the shorter axis, and the longer axis advances by one each step |
| LineGeometry.Connected | src/kernel/display.cpp:69-81 | Consecutive points are neighbours and never equal |
| LineGeometry.ReversedAgreesIff | src/kernel/display.cpp:59-82 | Drawn in the other direction, the line has the same pixel at a step if and only if that step is no tie |
| LineGeometry.ReversedDiffers | src/kernel/display.cpp:59-82 | From (0, 0) to (2, 1) and back, the middle pixels differ |
| LineDrawing.StepNear | src/kernel/display.cpp:72-80 | One round moves along the longer axis, keeps the distance to the ideal line within half a unit, and the doubled error bounded |
| LineDrawing.StepOnTrack | src/kernel/display.cpp:72-80 | The error term stays the scaled distance of the current point through both updates |
| LineDrawing.TrackIsPoint | src/kernel/display.cpp:69-81 | The incrementally computed point is the rounded one of the closed form |
| LineDrawing.EndsOnce | src/kernel/display.cpp:71 | No point before step max(dx, dy) is the end point, so the loop cannot stop early |
| LineDrawing.ErrorBounds | src/kernel/display.cpp:72-80 | The doubled error term lies between dx - 2dy and 3dx - 2dy for flat lines, between 2dx - 3dy and 2dx - dy for steep ones, and is constant for horizontal and vertical ones |
| LineDrawing.ShortLinesFit | src/kernel/display.cpp:72-80 | Lines of up to 715827882 steps, and horizontal and vertical ones of up to 1073741823, never leave the `int` range |
| LineOverflow.NoOverflowIff | src/kernel/display.cpp:72-80 | The loop stays in the `int` range on a line if and only if a condition on its two sides and their greatest common divisor holds, for flat, steep and axis-parallel lines |
| LineOverflow.OffsetIs | src/kernel/display.cpp:72-80 | The scaled distance of every point from the ideal line is a multiple of the sides' greatest common divisor, at most half the longer side |
| LineOverflow.OffsetReached | src/kernel/display.cpp:72-80 | Every such multiple is the distance of some point before the end |
| LineOverflow.Bezout | src/kernel/display.cpp:72-80 | The divisor divides both sides and is a combination of them |
| LineOverflow.RightReached | src/kernel/display.cpp:73-76 | On every steep line that is not vertical the lowest error term at which a step in x is taken does occur |
| LineOverflow.LongLineOverflows | src/kernel/display.cpp:72 | A horizontal line of 2^30 steps leaves the range |
| LineDrawing.LoopStep | src/kernel/display.cpp:72-80 | One round goes to the next point of the closed form with its error term, and stays in the `int` range exactly under the condition for that round |
| LineDrawing.NextFits | src/kernel/display.cpp:77-80 | Raising the error term for a step in y leaves the range only where the next round would fail too, and never in the last round |
| LineDrawing.PaintedWords | src/kernel/display.cpp:35-41 | Word by word of the buffer, padding included: word y * pitch + x has the colour exactly if a listed point (x, y) is on the screen, and every other word is unchanged |
| LineDrawing.PaintAllPixel | src/kernel/display.cpp:35-41 | After painting a list of points, a visible pixel has the colour exactly if it is in the list and is untouched otherwise |
| LineDrawing.Screen.SetPixel | src/kernel/display.cpp:35-41 | The one word y * pitch + x changes if the point is on the screen, and no other word in any case |
| LineDrawing.Screen.DrawLine | src/kernel/display.cpp:59-82 | The unbounded loop ends; some operation on the error term leaves the `int` range if and only if a round of the line does not fit; if none does, exactly the visible points of the closed-form line are painted, and otherwise a prefix of them up to that round |
| RequestQueue.FreshMembers | src/gaossd/gaossd.cpp:139-163 | A request is handled exactly if it is queued and not done before |
| RequestQueue.FreshInOrder | src/gaossd/gaossd.cpp:139-163 | No request is handled twice, and the order is that of first submission |
| RequestQueue.ValidStep | src/gaossd/gaossd.cpp:139-163 | What each queue entry contributes to the dispatches, given those before it |
| RequestQueue.Gaossd.SubmitRequest | src/gaossd/gaossd.cpp:125-132 | A request is queued exactly if its handle is valid |
| RequestQueue.Gaossd.Process | src/gaossd/gaossd.cpp:140-162 | One round: at most one hand-over, and the request ends completed with the outcome of the two device calls |
| RequestQueue.Gaossd.ProcessQueue | src/gaossd/gaossd.cpp:134-167 | Each distinct open request with a valid handle is handed over exactly once, in order of first submission, however often it is queued; all end completed with their own outcome; completed ones keep theirs; the queue ends empty |
| StringOrder.LessThan | include/string.hpp:308-318 | The loop says "less" exactly if at the first position where the texts differ the first one ends or has the smaller character, as a number from -128 to 127 |
| StringOrder.LessIff | include/string.hpp:308-318 | The recursive order is that one |
| StringOrder.Equals | include/string.hpp:292-301 | The loop decides equality of texts |
| StringOrder.Trichotomy | include/string.hpp:292-326 | Exactly one of less, equal, greater holds |
| StringOrder.LessTransitive | include/string.hpp:308-318 | The order is transitive |
| BasicString.CopyChars | include/string.hpp:213-228 | The copy loop is a splice of the source as it was, except that a source overlapping the target from below delivers its first characters over and over |
| BasicString.DeliveredIff | include/string.hpp:213-241 | An overlapping slice arrives as it was if and only if what the loop overwrites of it repeats what comes before |
| BasicString.WithTerminatorIff | include/string.hpp:238-241 | Appended in place, a slice of a heap text with its terminator arrives as it was if and only if it is the terminator alone or begins with a NUL |
| BasicString.BasicString.Append | include/string.hpp:202-264 | In all four combinations of representations the text is extended by the source's characters, slices of the string itself and of its buffer beyond the text included; only those of the latter that are copied in place without a detour arrive as the overlapping loop delivers them; one buffer is owned afterwards and the old one freed; the text moves to the heap, and there to a larger buffer, exactly when it does not fit, and the new capacity is twice the new length, at least 32 for the first |
| BasicString.BasicString.AppendInPlace | include/string.hpp:206-218 | Appending in the current buffer, with or without the local copy, extends the text and keeps the terminator |
| BasicString.BasicString.Relocate | include/string.hpp:219-261 | Moving to a new heap buffer reads the source before the old buffer is freed, and frees exactly that one |
| BasicString.BasicString.Clear | include/string.hpp:189-196 | The text is empty and the owned buffer, if any, is freed |
| BasicString.BasicString.Assign | include/string.hpp:105-111 | Copy assignment copies the text, shares nothing, leaves the other string alone, and is safe on itself |
| BasicString.BasicString.MoveFrom | include/string.hpp:113-130 | Move assignment hands over text and buffer, frees only the own old buffer, leaves the other string empty, and does nothing on itself |
| BasicString.Ledger.Delete | include/string.hpp:189-196 | Only a live buffer can be freed |
| StringPool.Exchange | include/string.hpp:202-264 | Replacing one string's buffers by new ones keeps all strings apart and the account of live buffers exact |
| StringPool.HandOver | include/string.hpp:113-130 | Handing one string's buffers to another, whose own were freed, keeps all strings apart and the account of live buffers exact |
| StringPool.Enter | include/string.hpp:55-59 | A new string that owns nothing shares nothing, and the account stays exact |
| StringPool.Leave | include/string.hpp:101-103 | A string that owns nothing can go without changing the account |
| StringPool.PerformAppend | include/string.hpp:202-264 | Appending any slice of any string to any string changes that one text only |
| StringPool.PerformAppendText | include/string.hpp:132-176 | Appending characters from outside, as a C string, a view, an array or one character, changes that one text only |
| StringPool.PerformAssign | include/string.hpp:105-111 | Assigning changes one text only and keeps buffers apart |
| StringPool.PerformMove | include/string.hpp:113-130 | Moving changes two texts only and allocates nothing |
| StringPool.MoveOnItself | include/string.hpp:113-130 | Moving a string onto itself changes neither texts nor buffers |
| StringPool.Construct | include/string.hpp:55-59 | A constructed string is empty, owns nothing and shares nothing with the others |
| StringPool.ConstructFrom | include/string.hpp:61-77 | A string constructed from characters holds them and shares nothing with the others |
| StringPool.DestroyOne | include/string.hpp:101-103 | The destructor frees the string's buffer and leaves the other strings alone |
| StringPool.Program | include/string.hpp:55-264 | Any program that constructs, fills, changes and destroys any number of strings, from each other or with characters from outside, computes the texts of plain sequences; the live buffers are always exactly those owned, each by one string, so nothing is freed twice, and none is left when all strings are destroyed |
| DynArr.DynArr.Grow | include/arr.hpp:314-331 | Contents survive the move to the new buffer |
| DynArr.DynArr.PushBack | include/arr.hpp:197-220 | One element is appended; elements move only when the array is full, and then the capacity doubles |
| DynArr.DynArr.PopBack | include/arr.hpp:245-250 | The last element goes, and an empty array stays empty |
| DynArr.DynArr.Resize | include/arr.hpp:252-266 | A prefix is kept and the rest filled with default values; the buffer grows, to exactly the new size, only if it is too small |
| DynArr.DynArr.Program | include/arr.hpp:197-250 | Any sequence of pushes and pops keeps the contents of a plain sequence and moves fewer than two elements per push |
| DynArr.PushesCounts | include/arr.hpp:197-250 | The number of pushes in that bound is the number of places of the program that hold one |
| PathTree.InsertExtends | src/abtrfs/abtrfs.cpp:139-161 | An insertion only hangs nodes on empty places |
| PathTree.FoundInExtension | src/abtrfs/abtrfs.cpp:139-161 | A path in the tree is found at the same place in every extension, without change |
| PathTree.NodeIsNamed | src/abtrfs/abtrfs.cpp:139-161 | The node a path leads to carries its last segment |
| PathTree.NewNodes | src/abtrfs/abtrfs.cpp:139-161 | The nodes an insertion adds lie on the way to the node it returns, which is a file; those above it are directories, and they carry the last segments of the path in their order |
| PathTree.PathsAreStable | src/abtrfs/abtrfs.cpp:139-161 | After any later insertions a path leads to the same place, and asking again changes nothing |
| PathTree.DifferentNamesDifferentNodes | src/abtrfs/abtrfs.cpp:139-161 | Paths with different last segments never share a node |
| PathTree.SharedNodeIff | src/abtrfs/abtrfs.cpp:151-160 | For every tree, which pairs of paths get one node, because `left` is both first child and smaller sibling |
| PathTree.ShadowedIff | src/abtrfs/abtrfs.cpp:147-160 | In an empty tree two paths get one node if and only if the second runs down the chain of the first, passing greater names |
| PathTree.EarlierPathMatters | src/abtrfs/abtrfs.cpp:151-160 | A pair of paths that share a node only because of a path inserted earlier |
| PathTree.ChildTakenForSiblingIff | src/abtrfs/abtrfs.cpp:151-160 | The path `a` leads to the node of `b/a` if and only if `a` is less than `b` |
| PathTree.FindOrCreateNode | src/abtrfs/abtrfs.cpp:139-161 | The recursion through the pointer reference terminates, changes the linked tree as the insertion function says, returns the node object at that place, and leaves every node object there was where it was |
| PathTree.Descend | src/abtrfs/abtrfs.cpp:155-159 | Recursing through one child pointer leaves the other subtree alone and every node object where it was |
| PathTree.AskAgain | src/abtrfs/abtrfs.cpp:139-161 | After any calls for other paths, asking for a path again returns the very same node object and adds nothing |

## Left out

- AbtrDriver.AbtrFS.WriteFile: excludes the partitions `FindFileHeader` excludes, and requires that offset plus length stays a block below 2^64; larger sums wrap in the program's size arithmetic, and the buffer for them cannot be allocated.
- AbtrDriver.AbtrFS.FindFileHeader: excludes partitions that claim more free blocks than blocks or more than 2^51 blocks, and headers whose numbers make the program's 64-bit arithmetic wrap, on which its loop need not end (`AbtrLayout.StandsStillIff`).
- AbtrDriver.AbtrFS.Exists: the same exclusions, as it scans in the same way.
- AbtrDriver.AbtrFS.ReadFile: the same exclusions; reading into the caller's array is the same loop with that array as target and is not modelled apart from returning a new one.
- AbtrDriver.AbtrFS.Mount: the invalid device handle is one of the causes for an unreadable block 0; `mount_existing` differs only in keeping the mounted flag of an earlier mount, which the fresh object of AVFS does not have, and is not modelled apart from it.
- AbtrRuns.RunRefines: excludes writes that add blocks to an existing file, after which there is no chain to speak of (`AbtrGrowth.ChainKeptIff`).
- AbtrSession.Write: excludes the same; every call uses an object that has just mounted, as AVFS does; an object reused after a failed write keeps a reduced free count in memory.
- AbtrSession.Read: is for devices on which reads do not fail; read errors while reading are part of `AbtrDriver.AbtrFS.ReadFile`.
- AbtrDriver.Device.Turn: which reads fail may change between the two look-ups of a write, in each of which no block is read twice, and between calls.
- AbtrDriver.Device.WriteBlock: a refused single-block write leaves the block unchanged; single-block writes are atomic.
- AbtrFS does not keep the node `find_or_create_node` returns in any later step, so the path tree is a model of its own.
- LimineDevice.Device.CacheBlock: positions do not wrap at 2^64, and the number of the discarded cache is -1, which is no block.
- LimineDevice.Device.InstallAndRollBack: promises nothing for a failed write beyond one block on a device with faults, since the program journals a write only once it is complete (`LimineDevice.FirstBlockStays`).
- LimineDevice.Device.constructor: the block size is given, and the device has whole blocks; how `device_init` guesses the size is not modelled.
- KernelHeap.Heap.FreeMemory: requires a pointer to the payload of a block, or of one merged away whose header still says free; for other pointers the program reads whatever is there as a header.
- KernelHeap.Heap.WritePayload: headers are records at addresses, not bytes, so a client's store is one header-sized record inside its payload.
- The halt of `operator new` when there is no memory.
- NvmeController.QueuePair.Execute: starts from a queue pair on which both sides agree; after other starts `NvmeRestart` and `NvmeRecovery` are about the protocol, not the polling loops; the controller answers after finitely many idle polls; a silent controller makes the program wait forever.
- NvmeController.QueuePair.BringUp: data pointers, address translation, doorbell addresses and the registers of reset and bring-up are not modelled.
- LineDrawing.Screen.DrawLine: requires coordinates below 2^31; from an operation that overflows on, the program's behaviour is undefined and the model stops.
- BasicString.BasicString.Append: the short text and the heap fields are separate fields here, where the program overlays them in a union, so that a pointer into the short text of a string on the heap has no meaning; the unused `heap.size` is omitted and sizes do not wrap.
- DynArr.DynArr.PushBack: element destructors, views of foreign data and pushing a reference to an own element are not modelled.
- RequestQueue.Gaossd.HandOver: the device functions return any status; what they do with the request is not modelled, nor is `register_device`.
- AvfsPaths.FindDrive: the drive list, `retrieveDrive`, mounting of drives and serial output are not modelled.
- LimineRoundTrip.Install: which ranges an installation writes (partition tables, stages, GPT conversion) is any sequence of device accesses.
- The rest of the kernel: other drawing, PCI and ACPI discovery, memory maps, system calls, the unused second NVMe driver, scripts: easy members or hardware access.
