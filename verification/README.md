# vsc-verification

A Dafny model of the Volume Shadow Copy reader in `vsc-core` and of the auditor in
`vsc-forensic`. It follows one pipeline: untrusted volume bytes, three linked-list walks, a block
index and a bitmap, a reconstructed view of the volume, a byte source several threads share, and the
anomaly report. `dafny verify dfyconfig.toml` checks all of it.

| file | models |
|---|---|
| `Bytes.dfy`, `Descriptors.dfy`, `StoreInfo.dfy` | the little-endian readers and the record parsers |
| `Numbers.dfy` | the same fields, flags and records as plain arithmetic on bytes |
| `Reader.dfy` | `Read + Seek` over immutable bytes: a class with one mutable cursor and a log of what happens at it |
| `Chains.dfy` | the theory of the three `next_offset` walks, by record type |
| `BlockMap.dfy`, `Bitmap.dfy`, `Sorting.dfy` | the diff-area index, the store bitmap, the stable sort |
| `View.dfy` | the documented reconstruction rule, per byte, on the flat descriptor list |
| `Reconstruct.dfy` | `SnapshotState`: `read_block_at`, `apply_overlay`, `read_block`, `read_at` |
| `Pairing.dfy`, `Volume.dfy` | catalog entries and their pairing; `open`, `store_info`, `snapshot` |
| `Source.dfy`, `SharedCursor.dfy` | the image source, and threads that share its one cursor |
| `CopyOnWrite.dfy` | the writer the format assumes, and what reconstruction returns after it |
| `Layout.dfy`, `DiskImage.dfy` | writers of the documented layouts, from one record to a whole volume, which the readers invert |
| `OnDisk.dfy` | what the reader finds on any volume, by byte position: walks, lists, bitmap, catalog, stores, snapshot bytes |
| `WriterSteps.dfy` | the steps of the copy-on-write environment and its law, in numbers |
| `OddVolume.dfy` | a volume, written byte for byte, on which the reader departs from its documentation |
| `Audit.dfy` | the report: presence, sequence gaps, non-persistent stores |

Main results:

- **The snapshot survives every run of writes.** For any sequence of byte writes, saves, inert
  descriptors and store housekeeping that obeys the copy-on-write rule, every read of a full block
  outside the store returns the bytes of the moment the snapshot was taken, and the rule is exact.
- **By byte position.** `OnDisk` says what every walk, list, bitmap bit, catalog entry, store, record and
  snapshot byte is on any image, with the format's offsets, flags and caps written out.
- **A written volume reads back.** Catalog, descriptors and bitmap, each written over any number of
  linked blocks, are what `open` and the snapshot show; the run above is carried to the written disk.
- **End to end.** On every image, however corrupt, for every store whose snapshot opens, every offset
  and every buffer, `read_at` delivers the documented rule evaluated on the descriptor list and bitmap
  found on disk, with the saturating cursor included.
- **Every interleaving is sequential.** Threads seek and read one cursor in separate steps; under the
  lock every completed read equals the sequential one, nothing deadlocks, and every step of the lock
  holder brings it nearer to release. What a call does to the cursor while it holds the lock is, seek
  by seek and read by read, what the method `ReadAt` does. A run without the lock serves wrong bytes.
- **The walks** process the longest path of usable, pairwise distinct blocks; uncapped, that is
  everything reachable; and they end even without a cap.
- **Pairing is bracket matching**, per GUID, with the exact number of dropped pointers.
- **The gap report is exact**: which gaps, each once, how many numbers they miss, in any store order.

Every read of a method goes through `Reader.ReadExact`, whose precondition is that the bytes are
there. Each call site proves it, so with a fault-free reader `open`, `store_info`, `snapshot`,
`read_block` and `read_at` never produce an I/O error. The walks' loops terminate by the number of
in-range offsets not yet visited, not by their block caps. Integers are unbounded with the source's
ranges as subset types; `checked_add` and `saturating_add` are written out, and `usize` is 64 bits wide.

## Where the code and its documentation differ

- `core/src/reconstruct.rs:158` and `:184` promise zeros at and past the end of the volume. The index
  lookup is not range-checked, so a descriptor keyed there still supplies data.
  `OddVolume.PastEndCanShowData` is a whole volume whose one snapshot opens and shows a 1 past the end;
  `SnapshotReadsZeroPastEnd` is the exact condition, for every volume and store.
- `docs/RECONSTRUCTION.md:53` promises live passthrough. A partial last block reads as zeros.
  `OddVolume.PartialBlockIsHidden` is a live 1 in that volume that its snapshot shows as 0;
  `SnapshotPassesLiveThrough` is the exact condition, for every volume and store.
- `core/src/reconstruct.rs:118-125` guards against a store with a header offset and no bitmap offset.
  No catalog yields one: `SecondExitUnreachable`.

## Model

| member | source | states |
|---|---|---|
| Bytes.ValueOfEncode | core/src/bytes.rs:18-33 | reading a little-endian field inverts writing it, at every width |
| Bytes.EncodeOfValue | core/src/bytes.rs:18-33 | no two byte strings of one length read as the same number |
| Numbers.BitIsRemainder | core/src/reconstruct.rs:171-178 | bit i of n is the remainder of n / 2^i by 2 |
| Numbers.FlagsAreRemainders | core/src/block.rs:20-57 | forwarder, overlay and not-used are flags % 2, flags / 2 % 2 and flags / 4 % 2; plain is none of them |
| Numbers.ValueIsNumber | core/src/bytes.rs:18-33 | a little-endian field is the sum of its bytes times 2^(8i) |
| Numbers.ParseInNumbers | core/src/block.rs:78-86 | the five fields of a record stand at bytes 0, 8, 16, 24 and 28 |
| Numbers.ParseEntryInNumbers | core/src/catalog.rs:120-139 | the types 0, 2 and 3 of an entry and the bytes of its fields; every other type is ignored |
| Numbers.ParseInfoInNumbers | core/src/store.rs:150-173 | GUIDs, flags and the code units of both strings by byte position, for any buffer |
| Numbers.PersistentIsOdd | core/src/store.rs:96-98 | a store is persistent iff its attributes are odd |
| Descriptors.ParseOfEncode | core/src/block.rs:78-86 | a written block descriptor parses back, field by field |
| Descriptors.EncodeOfParse | core/src/block.rs:78-86 | parsing 32 bytes loses nothing: with ParseOfEncode, a bijection |
| Descriptors.TerminatorIsZeroDescriptor | core/src/reconstruct.rs:332-335 | the all-zero-bytes terminator is exactly the descriptor whose every field is 0 |
| Descriptors.ScanOfEncodeAll | core/src/reconstruct.rs:330-341 | any list of non-zero descriptors that fits in a block is recovered by the scan |
| Readers.LoadBlock | core/src/reconstruct.rs:322-324 | a seek and exact read of an in-range block yields its 16384 bytes |
| Readers.LoadUsable | core/src/reconstruct.rs:317-328 | a chain loop goes on with a block iff it lies in the volume and has the chain's type, and then has its bytes |
| Chains.WalkIsLongestDistinctPath | core/src/lib.rs:200-241 | a sequence is a prefix of the walk iff it follows the links from the head through non-zero, in-range, rightly typed, pairwise distinct blocks, within the cap |
| OnDisk.WalkOnDisk | core/src/lib.rs:200-241 | each walk is the longest sequence that follows byte 40 over different in-range blocks of record type 2, 3 or 6, the catalog's with the identifier, at most 4096 or 1048576 of them |
| Chains.WalkReachesEverything | core/src/reconstruct.rs:313-345 | the walk visits every block on every path through usable blocks, loops included, iff its last link leads nowhere new; it does so whenever it is shorter than the cap |
| Chains.WalkFitsInVolume | core/src/reconstruct.rs:366-390 | whatever the cap, a walk processes at most volume size minus 16384 blocks, aligned or not |
| BlockMaps.FileDescriptors | core/src/reconstruct.rs:330-341 | one block's records, up to its terminator, are added to the index in order |
| BlockMaps.BuildBlockMap | core/src/reconstruct.rs:303-348 | the map indexes exactly the flat descriptor list on disk: keys, contents, order, no empty entry |
| BlockMaps.IndexHoldsEveryRecordOnce | core/src/reconstruct.rs:337-339 | the lengths of the index's lists sum to the number of records scanned |
| OnDisk.DescriptorListOnDisk | core/src/reconstruct.rs:303-348 | the list is, block by block of the walk, the 32-byte records from byte 128 up to an all-zero one |
| Sorting.SortByProperties | core/src/reconstruct.rs:392 | the sort is a permutation into key order that keeps the order of equal keys |
| Sorting.SortedListIsUnique | core/src/reconstruct.rs:392 | key order plus contents per key determine a list, so there is one stable sort |
| Sorting.SortPutsAtRank | core/src/reconstruct.rs:392 | the sort puts an element behind as many as have a smaller key, or an equal one further front |
| Bitmaps.BuildBitmap | core/src/reconstruct.rs:356-402 | the bitmap is the concatenation of the visited payloads in stable relative-offset order |
| Bitmaps.BitOfSortedPiece | core/src/reconstruct.rs:171-178 | block n is unallocated iff bit n%8 of byte (n/8)%16256 of sorted piece (n/8)/16256 is set; false past the end |
| OnDisk.BitmapOnDisk | core/src/reconstruct.rs:356-402 | block n is unallocated iff the visited block with n/8/16256 before it in order has bit n%8 of its byte 128 + n/8%16256 set |
| Bitmaps.InOrderIsStableSort | core/src/reconstruct.rs:392-400 | sorting keeps every piece, and chain order among equal offsets |
| Bitmaps.ChainOrderIrrelevant | core/src/reconstruct.rs:383-401 | with distinct relative offsets the answer does not depend on chain order |
| OnDisk.OverlaySupplies | core/src/reconstruct.rs:208-217 | on disk: the last descriptor of the block with flags / 2 odd, flags / 4 even, a store block that fits and bit p%16384/512 set supplies byte p |
| OnDisk.PlainSupplies | core/src/reconstruct.rs:202-206 | on disk: without one, the last descriptor with none of the three flags supplies it, or a zero when its block does not fit |
| OnDisk.LiveByteShows | core/src/reconstruct.rs:205-227 | on disk: with neither, the byte is live where its block fits, and zero where the block is undescribed and marked |
| OnDisk.ListStart | core/src/reconstruct.rs:131-131 | the list starts at the header offset plus 16384, or saturates and is empty |
| OnDisk.ReadsPerBlock | core/src/reconstruct.rs:188-229 | a block costs one read for a base that fits and one for each overlay whose store block fits |
| Views.LastOverlayWins | core/src/reconstruct.rs:208-217 | a byte comes from the last overlay of its block that is used, in range and has its sub-block's bit |
| Views.LastPlainWins | core/src/reconstruct.rs:202-206 | without such an overlay it comes from the last plain's store block, or is zero when that is out of range |
| Views.LiveOrZero | core/src/reconstruct.rs:205-227 | with neither it is live, and zero only for an undescribed block whose bitmap bit is set |
| Views.ViewDependsOnEssence | core/src/reconstruct.rs:197-219 | the view depends on the last plain and the ordered overlays of the block, and nothing else in the list |
| Views.IndependentNeighboursCommute | core/src/reconstruct.rs:202-217 | moving a plain past an overlay, or overlays with disjoint bitmaps past each other, changes no byte |
| Views.InertDescriptorOnlyHidesBitmap | core/src/reconstruct.rs:198-221 | deleting a not-used or forwarder-only descriptor changes a byte iff it was the block's only one, the block is marked unallocated and the live byte is not zero |
| Views.PastEndReadsZero | core/src/reconstruct.rs:183-184 | a byte of a block that does not fit is zero iff no overlay and no last plain supplies it, or the byte at the supplying address is zero |
| Views.PassthroughNeedsFullBlock | docs/RECONSTRUCTION.md:53-53 | an undescribed byte in use is live iff its whole block fits or it is zero anyway |
| Reconstruct.IndexRefinesList | core/src/reconstruct.rs:197-198 | looking a block up in the index gives the same view as scanning the flat list |
| Reconstruct.MergeIsLastPatch | core/src/reconstruct.rs:208-217 | merging overlays front to back leaves each byte to the last that patches it |
| Reconstruct.RenderIsView | core/src/reconstruct.rs:188-229 | performing the block's reads in order yields the view of each of its bytes |
| Reconstruct.ReadBlockAt | core/src/reconstruct.rs:276-293 | true and the block when it wholly fits, false and zeros otherwise, near 2^64 too |
| Reconstruct.ApplyOverlay | core/src/reconstruct.rs:261-269 | in place, exactly the sub-blocks whose bit is set are replaced |
| Reconstruct.FindLastPlain | core/src/reconstruct.rs:202-204 | the reverse search finds the last plain descriptor |
| Reconstruct.MergeOverlays | core/src/reconstruct.rs:208-217 | every active overlay with an in-range block is read and applied, in list order, and nothing else is read |
| Reconstruct.ReadBlock | core/src/reconstruct.rs:188-229 | every byte of the reconstructed block is the view's, and the seeks and reads made are exactly the planned ones |
| Reconstruct.CopyTurn | core/src/reconstruct.rs:246-254 | one turn copies the part of the cursor's block the request spans, and nothing else |
| Reconstruct.ReadAt | core/src/reconstruct.rs:238-256 | byte i is the view at min(offset + i, 2^64 - 1); the rest of the buffer is untouched; the log grows by one plan a turn |
| Pairing.PairingIsBracketMatching | core/src/lib.rs:216-237 | a store has the offsets of the type-0x03 entry that closes its type-0x02 entry's bracket, and none if nothing closes it |
| Pairing.DroppedIsLargestExcess | core/src/lib.rs:225-229 | the dropped pointers of a GUID number the largest excess of type-0x03 over type-0x02 entries over all prefixes |
| Pairing.PairingIsPerGuid | core/src/lib.rs:225-229 | the stores of a GUID are what the entries of that GUID alone give |
| Pairing.StoresAreSnapshotEntries | core/src/lib.rs:219-233 | stores are the type-0x02 entries, in order and intact; header and bitmap offsets come together |
| OnDisk.ClosedStoreOnDisk | core/src/lib.rs:216-237 | a store has its entry's fields and the two offsets of the first type-0x03 entry of its GUID to tip the balance behind it |
| OnDisk.OpenStoreOnDisk | core/src/lib.rs:216-237 | where no entry tips it, the store has no offsets |
| OnDisk.StoreCountOnDisk | core/src/lib.rs:219-223 | there are as many stores as type-0x02 entries |
| OnDisk.CatalogOnDisk | core/src/lib.rs:190-244 | the catalog is the 127 entries of each block visited from the offset at byte 7728 |
| OnDisk.HeaderInNumbers | core/src/lib.rs:82-95 | there is a header iff 7808 bytes are there and the identifier stands at byte 7680 |
| OnDisk.NoCatalogNoStores | core/src/lib.rs:97-105 | without header or catalog offset there are no stores |
| Volumes.AttachPointer | core/src/lib.rs:225-232 | the reverse search updates the latest unpaired descriptor of the GUID, or nothing |
| Volumes.EnumerateBlock | core/src/lib.rs:216-237 | the 127 entries of a block are fed to the pairing in order |
| Volumes.WalkCatalog | core/src/lib.rs:190-244 | the stores are the pairing of the entries of all visited blocks, across block boundaries |
| Volumes.VssVolume.Open | core/src/lib.rs:78-105 | header, catalog offset and stores are those the image encodes; a short or headerless volume has none |
| Volumes.VssVolume.StoreInfo | core/src/lib.rs:146-179 | each error exactly when it applies, otherwise the record capped by its size field, 1 MiB and the volume's tail |
| OnDisk.StoreInfoOnDisk | core/src/lib.rs:146-179 | each error with its guard and fields, otherwise the record in the least of the size at byte 48, 1 MiB and the volume's tail |
| Volumes.VssVolume.GetSnapshotState | core/src/reconstruct.rs:111-140 | each error exactly when it applies, otherwise the index and bitmap of the chains on disk |
| Volumes.SecondExitUnreachable | core/src/reconstruct.rs:121-125 | for any image, a store without a bitmap offset has no header offset either |
| Volumes.SnapshotOpensIffPaired | core/src/reconstruct.rs:112-127 | the snapshot of a type-0x02 entry's store opens iff some type-0x03 entry closes its bracket |
| Volumes.StateShowsSnapshot | core/src/reconstruct.rs:131-139 | the built state shows the documented rule on the list and bitmap on disk, at every address |
| Volumes.SnapshotReadsZeroPastEnd | core/src/reconstruct.rs:157-158 | on every volume and store: a snapshot byte of a block that does not fit is zero iff the list on disk supplies nothing for it, or a zero |
| Volumes.SnapshotPassesLiveThrough | docs/RECONSTRUCTION.md:53-53 | on every volume and store: a byte the list on disk does not describe and the bitmap does not free is live iff its block fits or it is zero |
| OddVolume.SnapshotOpens | core/src/reconstruct.rs:111-139 | the written volume has one store, whose snapshot opens on the written list and bitmap |
| OddVolume.PastEndCanShowData | core/src/reconstruct.rs:157-158 | a volume whose one snapshot opens and shows a 1 past the end |
| OddVolume.PartialBlockIsHidden | docs/RECONSTRUCTION.md:53-53 | a volume whose one snapshot opens and shows 0 for a live 1 of the partial last block |
| Volumes.OpenSnapshot | core/src/reconstruct.rs:100-106 | pairs that state with the volume's own reader, or passes the error on |
| Volumes.Snapshot.ReadBlock | core/src/reconstruct.rs:151-153 | the whole block an offset falls in: byte w is the snapshot's at offset / 16384 * 16384 + w |
| Volumes.Snapshot.ReadAt | core/src/reconstruct.rs:162-164 | byte i of the buffer is the snapshot's at offset + i, or at 2^64 - 1 beyond that |
| Sources.VssSnapshotSource.Open | core/src/vfs.rs:92-101 | owns the reader and the state of the store, or returns the volume's error |
| Sources.VssSnapshotSource.ReadAt | core/src/vfs.rs:109-134 | serves nothing from the end on, otherwise all that is asked or all that is left, as snapshot bytes; leaves the rest of the buffer alone, and does to the cursor what the served range needs |
| Sources.SplitReads | core/src/vfs.rs:109-134 | splitting a range into consecutive reads serves the same bytes as one read |
| Sources.ServedBytesAreSnapshot | core/src/vfs.rs:127-133 | the bytes served concurrently are those of the snapshot on disk |
| Sources.ReadSnapshot | core/src/vfs.rs:92-134 | end to end from raw bytes: error and untouched buffer, or the documented bytes in the served prefix |
| SharedCursor.EveryInterleavingIsSequential | core/src/vfs.rs:126-133 | in every interleaving, from any cursor, each completed read holds the sequential bytes and no read fails |
| SharedCursor.AnyCallCanBegin | core/src/vfs.rs:109-125 | a thread at rest may begin any call; one with nothing to serve is done at once |
| SharedCursor.AnyStartIsARun | core/src/vfs.rs:70-78 | a run may start with any threads at rest and any cursor |
| SharedCursor.ActKeepsInv | core/src/vfs.rs:70-78 | every step keeps: only the lock owner is in the critical section, and its partial read is a correct prefix |
| SharedCursor.CallPerformsReadAt | core/src/vfs.rs:126-133 | in every interleaving, what happens at the cursor between entering and leaving the critical section is exactly the log of `ReadAt` |
| SharedCursor.SeekStaysPut | core/src/reconstruct.rs:284-285 | between a thread's seek and its read no other thread moves the cursor |
| SharedCursor.NoDeadlock | core/src/vfs.rs:126-128 | while a call is in progress some call can take a step |
| SharedCursor.HolderAdvances | core/src/reconstruct.rs:246-254 | each step of the lock holder frees the lock or lowers a well-founded measure |
| SharedCursor.UnlockedReadServesWrongBytes | core/src/vfs.rs:16-22 | without the lock there is a run in which a read returns another block's byte |
| WriterSteps.EveryRunKeepsTheSnapshot | docs/RESEARCH.md:204-210 | wherever a run has come to, every byte of a full unmarked block outside the store reads as it was |
| WriterSteps.WriteIsStep | docs/RESEARCH.md:207-208 | any byte outside the store may change, once its sub-block or block is saved, or where nothing has to be |
| WriterSteps.SaveIsStep | docs/RESEARCH.md:207-208 | any block or set of sub-blocks not yet saved may be copied to a free store block |
| WriterSteps.MarkIsStep | docs/RESEARCH.md:206-210 | a descriptor that saves nothing may be appended at any time |
| WriterSteps.HousekeepIsStep | docs/RESEARCH.md:206-210 | the store may rewrite what it owns and does not use for saved data |
| WriterSteps.StartIsReachable | docs/RESEARCH.md:206-210 | runs start at the snapshot, with nothing saved |
| WriterSteps.StepIsReachable | docs/RESEARCH.md:206-210 | every step can be taken at the end of every run |
| CopyOnWrite.SnapshotSurvivesWrites | docs/RESEARCH.md:204-210 | after every run of the copy-on-write writer, every byte of a protected block reads as it was |
| CopyOnWrite.NextKeeps | docs/RESEARCH.md:206-210 | each write, save, inert descriptor and housekeeping step keeps the saved copies where reconstruction looks |
| CopyOnWrite.WriteRuleIsExact | docs/RESEARCH.md:207-208 | a write leaves the snapshot intact iff its sub-block was saved before or the byte does not change |
| CopyOnWrite.EveryWriteCanBeMade | docs/RESEARCH.md:207-208 | with a fresh store block, any write to a protected block can follow one save |
| CopyOnWrite.SnapshotByteIsOriginal | core/src/reconstruct.rs:188-229 | in every reachable state, what the reader serves for a protected byte is the snapshot-time byte |
| CopyOnWrite.ReadProtectedBlock | core/src/reconstruct.rs:151-153 | the block reader on the volume as it is now returns the block as it was then |
| Layouts.HeaderFields | core/src/store.rs:43-53 | identifier, record type, relative offset, next offset and size are read where the layout puts them |
| Layouts.BlockReadsAsWritten | core/src/catalog.rs:142-150 | which walks accept a written block, where they go next, and which bitmap piece it is |
| Layouts.VolumeHeaderReads | core/src/catalog.rs:57-68 | the header at byte 7680 gives the identifier check and the catalog offset |
| Layouts.ParseOfEncodeEntry | core/src/catalog.rs:120-139 | a written catalog entry of any type, ignored ones included, parses back whatever the bytes its type leaves free |
| Layouts.EncodeOfParseEntry | core/src/catalog.rs:120-139 | every 128-byte record is such a written entry |
| Layouts.EntriesOfEncode | core/src/lib.rs:216-237 | a full block of 127 written entries of any types reads back entry for entry |
| Layouts.StoreInfoRoundTrip | core/src/lib.rs:146-179 | a store header followed by the record it announces reads back as that record |
| DiskImages.WalkOfWritten | core/src/reconstruct.rs:313-345 | each of the three walks visits exactly the blocks of a written chain, in order |
| DiskImages.DiffAreaRoundTrip | core/src/reconstruct.rs:303-348 | descriptor lists written over any number of chained blocks read back as one list, in order |
| DiskImages.BitmapRoundTrip | core/src/reconstruct.rs:356-402 | a bitmap cut into pieces and linked in any order reads back whole |
| DiskImages.EveryPayloadHoldsEntries | core/src/lib.rs:216-237 | every block payload is one that holds written entries, so the catalog round trip leaves no catalog block out |
| DiskImages.CatalogRoundTrip | core/src/lib.rs:190-244 | a catalog written over any number of chained blocks reads back entry for entry |
| DiskImages.WrittenVolumeRoundTrip | core/src/reconstruct.rs:111-139 | a volume written at the format's own offsets opens each paired snapshot, with the closing entry's two offsets, and shows the descriptors written at header + 16384 and the bitmap by the documented rule |
| WriterSteps.WrittenOutSnapshotIsOriginal | docs/RESEARCH.md:204-210 | in any state of a copy-on-write run, once the store is written out, a full unmarked block outside the store reads as it was |
| StoreInfos.UnitsOfEncode | core/src/bytes.rs:46-51 | code units survive being written as UTF-16LE bytes |
| StoreInfos.ParseOfSerialize | core/src/store.rs:150-164 | parsing inverts writing for all GUIDs, flags and machine strings of any 16-bit byte length |
| StoreInfos.ParseOfTruncated | core/src/store.rs:150-173 | cut anywhere, each field and string wholly present is kept and every other is empty |
| Audits.Audit | forensic/src/lib.rs:301-344 | the report is the one below, and says exactly what the stores and their information on disk call for |
| Audits.ReportSaysExactly | forensic/src/lib.rs:301-344 | on every image: the four kinds of finding, each iff the fields of the stores on disk and their attributes, odd or even, call for it |
| Audits.ReportInOrder | forensic/src/lib.rs:309-343 | stores first, in catalog order, then gaps, rising, then non-persistent stores, in catalog order and each once |
| Audits.ReportIsExact | forensic/src/lib.rs:302-343 | each anomaly is reported iff the volume calls for it; no stores under a header is a finding of its own |
| Audits.ReportHasEachGapOnce | forensic/src/lib.rs:322-330 | no gap is reported twice |
| Audits.GapsAreExact | forensic/src/lib.rs:320-330 | (p, n) is reported iff both are sequence numbers, n > p + 1, and none lies between |
| Audits.GapsPartitionAbsent | forensic/src/lib.rs:322-330 | an absent number between two present ones lies in exactly one gap, and no present one does |
| Audits.GapsCountAbsent | forensic/src/lib.rs:322-330 | together the gaps miss max - min + 1 minus the number of distinct sequences |
| Audits.GapsIgnoreStoreOrder | forensic/src/lib.rs:320-321 | permuting the stores does not change the gaps reported |

## Left out

- WrittenOutSnapshotIsOriginal: the store's own chains are written by housekeeping steps, whose order of writes
  is free; the theorem speaks of the moments at which they are complete, not of a half-written chain.
- StoreInfo: machine strings stop at 16-bit code units; surrogate decoding belongs to the language's library.
- BuildBitmap: the stable sort by relative offset is modelled by its defining function, as a library call on values.
- Audit: GUIDs stay raw bytes, and severity, notes, codes, timestamps and finding assembly are constant tables or library wrappers.
- HolderAdvances: fairness of the scheduler is not modelled, so no claim that a waiting thread eventually enters.
- Real I/O failures: the reader is a byte sequence with a cursor, and short or failing devices do not occur.
- Forwarder resolution and stacking newer stores over older ones: described in docs/RESEARCH.md, not done by the code.
- Store block ranges (record type 0x0005) and `relative_store_offset`: parsed by the source, never used by reconstruction.
- Mutex poisoning, `Send`/`Sync` typing, 32-bit `usize`, allocation size and performance.
