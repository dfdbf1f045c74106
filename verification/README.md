# EWF verification model

A Dafny model of the EWF (E01, Ex01, L01) forensic image reader, recovery, integrity analyser, logical entry tree and
streaming search, with proofs that the several code paths that read the same evidence agree on the same bytes.

A segment is an immutable byte string shorter than 2^63 bytes. `inflate` is an arbitrary function from compressed bytes
to some output and a flag telling whether the stream then ended cleanly; MD5, SHA-1 and SHA-256 are arbitrary functions
of the bytes fed to them. Saturating, checked and truncating arithmetic is written out where the program uses it. Code
that works by changing things step by step is a method with a loop or a class with fields (the chunk-table parser, the
lazy chunk table, the reader with its cursor and caches, the segment cursor, the recovery loop with its output sink, the
walkers, the hash loops, the entry-tree arena, the search buffer); each such method is proved against a function of its
inputs, and the laws are proved about that function.

The files follow the program. `Bytes`, `Text`, `Errors` and `Caches` hold what everything uses; `Sections`, `Adler` and
`Walkers` the on-disk structures and the section walks; `ChunkTables`, `LazyTables`, `Opening`, `OpeningLaws`,
`LazyEager` and `SegmentOrder` the opening of an image; `SegmentSources`, `Images`, `Media`, `Reader`, `Verifying` and
`Concurrent` reading and verifying it, and `LazyReads` reading through either chunk table; `Recover`, `RecoverLoop` and
`Fallback` the tolerant recovery; `VolumeCheck`, `Integrity`, `Analyser` and `ChunkReports` the analyser; `WellFormed`,
`Agreement`, `HashAgreement` and `EndToEnd` the theorems that tie the three together; `Ltree`, `LtreeShape`,
`LtreeRoundTrip` and `LtreeFields` the logical entry tree; `Search` the pattern search; `Ewf2` the EWF2 section list.
`SegmentWriter` writes segments, as the inverse of the parsers and walks, and `Samples` writes concrete ones with it.

Most operations are proved against a specification function, and a function can be wrong together with the code. So
each has a second statement that does not go through it: what is read, reported, kept or refused is told from the bytes
of the segments, the walk over them and the decompressor (`Fallback.CopiesAre`, `Images.ReadIsBytes`,
`Analyser.DigestsReportedIff`, `ChunkReports.FaultsReportedIff`, `OpeningLaws`, `Ewf2.CollectFailsIff`), or from what
was written (`SegmentWriter`, `LtreeFields.RecordsRoundTrip`).

The main results:

- `Agreement.RecoveredIsStrict`, `EndToEnd.RecoverAndRead`: recovering a well-formed image writes, byte for byte, what
  the strict reader serves; the method opens, reads and recovers the same segments and ends with equal buffers.
- `Fallback.RecoveredDespiteDamage`, `RecoverDamaged`: of a well-formed image whose `table2` sections mirror its tables,
  with any of the primary entries, or whole primary tables, gone or made useless, recovery loses and flags nothing and
  writes what the strict reader serves of the undamaged image; when no primary entry is usable, every chunk is counted
  under `table2`. `Samples.RecoverFromTable2` recovers two such segments, one with a table that points past the file and
  one with none.
- `HashAgreement.HashedIsMediaIff`: on such an image the analyser and the hash computation digest exactly the same media
  if and only if every chunk decodes to all the bytes the media needs of it, because neither pads a short chunk while
  recovery and the reader both do. `Samples.OneChunkWellFormed` and `DigestsDiffer` give a well-formed image, byte by
  byte, for which they digest something else.
- `Concurrent.ReadsAreSequential`, `Concurrent.OutcomeIndependent`: under every interleaving of cache probes, lookups,
  decodes and insertions by any number of threads, and any eviction, each positioned read returns what a lone thread
  gets.
- `LazyEager.LazyMatchesEagerIff`, `LazyReads.LazyReadsAsEager`: the exact condition under which the lazy chunk table
  answers as the eager one, and that reads are then the same. The comment at core/src/chunk_table.rs:15-16 demands
  identical tables always; `Samples.TablesDiffer` gives an image that both opens accept and whose tables differ, because
  its `table` comes before its `volume`: there the eager reader serves zeros and the lazy one fails.
- `RecoverLoop.RecoveryConserves`, `CountsAreTotalIff`, `Samples.RecoverOverDeclared`: recovery conserves bytes and
  chunks. The comment at forensic/src/recover.rs:48-51 says the three chunk counts always add up to the declared chunk
  count. The code adds them up to the smaller of that count and the number of chunks the image size needs, as the test at
  forensic/src/recover.rs:1223-1238 expects; the model follows the code, recovers a concrete 183-byte segment that
  declares two chunks and counts one, and proves exactly which volumes meet the comment.
- `Search.SearchIsNaiveIff`, `LongPatternMissed`, `Samples.SearchInVain`: the streaming search finds what naive search
  finds, on every readable image, exactly for patterns of at most 65537 bytes. A longer one is never found; a concrete
  image that is nothing but such a pattern is searched in vain.
- `LtreeFields.RecordsRoundTrip`: a file-system record printed under the documented indicator names, in any order, is
  parsed to that record, and is warned about exactly where a row calls for it; with `LtreeRoundTrip.RoundTrip` for the
  links, and `ColumnOrderIrrelevant`, `LineEndingsIrrelevant`.
- `ChunkReports.FaultsReportedIff`, `Analyser.AnalyseSealed`: the analyser reports exactly the faulty chunks of the
  media, numbered through all segments, and no digest of an image that stores what the hash computation returns.
- `Ewf2.CollectedIff`, `CollectFailsIff`, `WalksAgreeIff`; `SegmentOrder.OrderIndependent`;
  `Walkers.ReachedTamperReported`; `Analyser.OwnHashesAccepted`; `SegmentWriter.WrittenReads`.

## Model

| member | source | states |
|---|---|---|
| Adler.Compute | forensic/tests/builder.rs:51-60 | the accumulating loop returns the Adler-32 defined by recursion over the bytes |
| Adler.ClosedForm | forensic/tests/builder.rs:51-60 | both running sums, reduced at every step, equal the plain and the position-weighted byte sums reduced once |
| Adler.Halves | forensic/tests/builder.rs:51-60 | the weighted sum is the high half of the checksum and the plain one the low half |
| Adler.OneByteChangeDetected | core/src/sections.rs:174-181 | changing any one byte of data of any length changes the checksum |
| Adler.SwapUndetectedIff | core/src/sections.rs:174-181 | swapping two bytes goes unnoticed exactly when distance times difference is a multiple of 65521 |
| Adler.SwapDetectedInShortRange | core/src/sections.rs:174-181 | over at most 256 bytes, so over the 72 a descriptor checksum covers, no swap of two different bytes goes unnoticed |
| Walkers.WalkAscending | forensic/src/recover.rs:179-229 | the tolerant chain runs strictly forward through whole descriptors inside the file |
| Walkers.StrictWalkAscending | core/src/reader.rs:437-460 | the same of the strict reader's chain, which runs on through `done` and `next` |
| Walkers.TolerantIsStrictPrefix | forensic/src/recover.rs:179-229 | the tolerant chain is a prefix of the strict one, and all of it exactly when nothing follows a terminal section |
| Walkers.RecoverWalk | forensic/src/recover.rs:179-229 | the recovery walker returns that chain, and the truncation offset exactly when the chain was cut short or leaves the file |
| Walkers.RecoverFollow | forensic/src/recover.rs:213-225 | the link is followed exactly when the chain continues; a forward link out of the file is a truncation |
| Walkers.TruncatedIff | forensic/src/recover.rs:179-229 | a truncation is reported exactly where the last, non-terminal descriptor links forward (or at the first, if there is none), unless the file ends right there |
| Walkers.NothingBehind | forensic/src/recover.rs:179-229 | where the chain stops short there is no whole descriptor |
| Walkers.AnalyserWalk | forensic/src/integrity.rs:1244-1327 | the analyser's walker returns the same chain as the recovery walker, and the checksum, type, link and gap issues descriptor by descriptor |
| Walkers.CheckDescriptor | forensic/src/integrity.rs:1254-1281 | one descriptor's checksum and type issues |
| Walkers.FollowLink | forensic/src/integrity.rs:1283-1323 | the link is followed exactly when recovery follows it; otherwise a broken chain is reported unless the section is terminal |
| Walkers.GapsReportedOnce | forensic/src/integrity.rs:1304-1321 | among all issues the gap issues are exactly the gaps between followed sections and their successors, once each, in order, non-zero iff some gap byte is |
| Walkers.CrcReportedIff | forensic/src/integrity.rs:1249-1274 | a checksum mismatch is reported at an offset exactly when the walk visits a descriptor there that does not verify |
| Walkers.CrcReported | forensic/src/integrity.rs:1249-1274 | it is reported with its type, the checksum of the first 72 bytes and the stored one |
| Walkers.BrokenReportedIff | forensic/src/integrity.rs:1283-1303 | a broken chain is reported exactly of the last section reached, when it is not terminal and its link is not forward inside the file, with both offsets |
| Walkers.KnownTypes | forensic/src/integrity.rs:40-57 | the section types of the format |
| Walkers.UnknownReportedIff | forensic/src/integrity.rs:1275-1281 | a type is reported as unknown exactly where the walk meets a section of none of those types |
| Walkers.OneByteTamperFails | core/src/sections.rs:174-181 | one changed covered byte makes the checksum fail against the stored value |
| Walkers.SwapTamperFails | core/src/sections.rs:174-181 | so do two swapped, different covered bytes |
| Walkers.TamperReported | forensic/src/integrity.rs:1249-1274 | the walk reports either tampering whenever it reaches the descriptor |
| Walkers.WalkReaches | forensic/src/integrity.rs:1244-1327 | tampering confined to a descriptor does not stop the walk from reaching it |
| Walkers.ReachedTamperReported | forensic/src/integrity.rs:1244-1327 | tampering with a descriptor that the original walk reaches, and that no earlier one overlaps, is always reported |
| ChunkTables.NewChunk | core/src/sections.rs:379-405 | packing keeps the flag, the low 63 bits of the offset, and index and size when they fit |
| ChunkTables.AllKeptIff | core/src/chunk_table.rs:67-75 | no entry is dropped exactly when no absolute offset overflows |
| ChunkTables.KeptAt | core/src/chunk_table.rs:67-75 | when none overflows, chunk i has entry i's flag and base plus offset |
| ChunkTables.KeptInOrder | core/src/chunk_table.rs:67-75 | the entries that do not overflow are all kept, in order, and only the others are skipped |
| ChunkTables.ParseTableSection | core/src/chunk_table.rs:51-110 | the one-pass parser with its in-place back-fill returns the closed form: each compressed chunk ends at the next entry, the last at the end of the sectors data, the rest have the chunk size |
| ChunkTables.PushChunk | core/src/chunk_table.rs:77-95 | one entry: the previous chunk is back-filled and the new one pushed, keeping the closed form |
| ChunkTables.SizeLastChunk | core/src/chunk_table.rs:98-107 | the last chunk, if still unsized, is sized from the end of the sectors data |
| ChunkTables.PushKeepsForm | core/src/chunk_table.rs:77-95 | back-filling and pushing is the closed form of one more entry |
| ChunkTables.LastKeepsForm | core/src/chunk_table.rs:98-107 | the final back-fill is the closed form with the sectors end |
| ChunkTables.ChunksTile | core/src/chunk_table.rs:51-110 | ascending compressed entries tile the sectors range: each chunk ends where the next begins, the last at the end |
| ChunkTables.SizesAre | core/src/chunk_table.rs:51-110 | every size is the distance to where the chunk ends, if that is known and usable, and the chunk size otherwise |
| ChunkTables.SameChunksIff | core/src/chunk_table.rs:51-110 | parsing under two chunk sizes gives the same chunks exactly when the sizes are equal or no size depends on them |
| Caches.Lru.Put | core/src/reader.rs:1110-1114 | a bounded insertion: the new entry is there and any other may be gone, but none is changed |
| LazyTables.SectionFor | core/src/chunk_table.rs:162-177 | the binary search returns the section that holds the id, or nothing when none does |
| LazyTables.HoldsUnique | core/src/chunk_table.rs:162-177 | at most one section holds an id, empty sections included |
| LazyTables.EveryIdHeld | core/src/chunk_table.rs:156-177 | some section holds an id exactly when it is below the length |
| LazyTables.LoadSection | core/src/chunk_table.rs:202-245 | the cold path returns the parse of the section's own bytes, or an error exactly when segment or entries are missing |
| LazyTables.LazyChunkTable.constructor | core/src/chunk_table.rs:145-154 | a new table's cache is faithful to any segments |
| LazyTables.LazyChunkTable.Get | core/src/chunk_table.rs:181-256 | a lookup answers the same whatever was looked up before and is still cached, and keeps the cache faithful |
| LazyTables.PutFaithful | core/src/chunk_table.rs:247-255 | caching one more parsed section keeps every cached section the parse of its bytes, whatever is evicted |
| SegmentOrder.SortByNumber | core/src/reader.rs:178-179 | the sort orders by segment number and keeps the pairs |
| SegmentOrder.CheckSequential | core/src/reader.rs:180-189 | the sorted numbers pass exactly when they are 1 to n; otherwise the error names the first position whose number is not its own, the number expected there and the one found, and every number before it is there |
| SegmentOrder.TakeInOrder | core/src/reader.rs:190-201 | sources are moved out of their slots in segment order |
| SegmentOrder.ValidateAndReorder | core/src/reader.rs:174-201 | succeeds iff the numbers are a permutation of 1 to n, and then segment k + 1 is at position k; otherwise the error is the first gap of the sorted numbers |
| SegmentOrder.OrderIndependent | core/src/reader.rs:174-201 | the result does not depend on the order of the input |
| Opening.WalkStrict | core/src/reader.rs:437-460 | the descriptor loop returns the strict chain |
| Opening.WalkAndOpenSegment | core/src/reader.rs:434-626 | one segment: volume and table arms applied to its chain, preferring `table` over `table2`; a stored digest or error list that is cut off fails it |
| Opening.WalkAndOpen | core/src/reader.rs:434-631 | all segments in order, stopping at the first error; no volume is an error |
| Opening.OpenV1 | core/src/reader.rs:389-670 | no segment, a bad signature and a numbering other than 1 to n each give their own error, checked in that order; otherwise the outcome, success or error, is that of walking the segments in order; the media size is the declared one, unless the first byte says logical or none is declared, when it is that of the chunks (core/src/logical.rs:463-475) |
| OpeningLaws.TablesUsed | core/src/reader.rs:463-474 | a segment with a `table` opens as if it had no `table2`; one without opens as if every `table2` were a `table` |
| OpeningLaws.VolumeRead | core/src/reader.rs:475-506 | the volume arm on the bytes: 94 of them, chunks of at most 128 MiB, the media size of the sectors or else of the chunks |
| OpeningLaws.TableRead | core/src/reader.rs:507-556 | the table arm on the bytes: a header, at most four million entries, and read eagerly the entries too |
| OpeningLaws.OtherSection | core/src/reader.rs:557-626 | any other section is ignored, except that a cut-off digest or error list fails the open |
| OpeningLaws.VolumeNeeded | core/src/reader.rs:629-631 | an image without a volume section is not opened |
| LazyEager.OpensAlike | core/src/reader.rs:507-556 | whenever the eager open succeeds the lazy one does, with the same geometry |
| LazyEager.FlatLength | core/src/chunk_table.rs:156-158 | the lazy length equals the eager one exactly when no section dropped an entry |
| LazyEager.FlatAt | core/src/reader.rs:507-556 | chunk `local` of section j is at that section's first id plus `local` in the eager list |
| LazyEager.FaithfulIff | core/src/chunk_table.rs:51-110 | a section parses to the same, full list under the size then and the final size exactly when no entry overflows and no size depends on the difference |
| LazyEager.InterchangeableIff | core/src/chunk_table.rs:181-256 | on related tables every lazy lookup equals the eager one, with equal lengths, exactly when every section is faithful in that sense |
| LazyEager.LazyMatchesEagerIff | core/src/chunk_table.rs:181-256 | any image that opens eagerly opens lazily, with related tables, so the same holds of it |
| LazyEager.UncompressedUnderOtherSize | core/src/chunk_table.rs:88-93 | a table met under another chunk size is told apart by any uncompressed chunk |
| Samples.TablesDiffer | core/src/chunk_table.rs:15-18 | a concrete image whose table precedes its volume: both opens accept it, the tables are not interchangeable, the eager page is zeros and the lazy one an error |
| LazyReads.PagesAlike | core/src/reader.rs:1118-1164 | interchangeable tables give every chunk the same page, and refuse the same chunks |
| LazyReads.LazyReadsAsEager | core/src/reader.rs:1166-1200 | an image that opens both ways with interchangeable tables reads the same through either, answer and bytes |
| SegmentSources.ReadAt | core/src/segment_source.rs:122-146 | fills the buffer from the offset within the source, short only at its end, and changes nothing else |
| SegmentSources.WindowReadAt | core/src/segment_source.rs:122-146 | the window clamp never reads past the window, and reads the window's own bytes |
| SegmentSources.SegmentCursor.Read | core/src/segment_source.rs:186-192 | a cursor read delivers the bytes at the cursor and advances by their number |
| SegmentSources.SegmentCursor.Seek | core/src/segment_source.rs:194-210 | seeking sets the cursor to the target, or fails and leaves it when the target is negative |
| SegmentSources.SeekExact | core/src/segment_source.rs:194-210 | below 2^63 the signed target arithmetic is exact, and a start offset from 2^63 on is negative |
| SegmentSources.WrapCongruent | core/src/segment_source.rs:194-210 | elsewhere it is off by a multiple of 2^64 |
| Media.PagesAreTheMedia | core/src/reader.rs:1166-1200 | the concatenated pages, cut anywhere, are the media up to there |
| Media.PagesAt | core/src/reader.rs:1177-1197 | byte p of the concatenated pages is byte p modulo the chunk size of page p divided by it |
| Media.ReadableIffPages | core/src/reader.rs:1177-1197 | the first k chunks can be read exactly when each of them decodes |
| Media.PageCovers | core/src/reader.rs:1188-1193 | a range inside one page is readable iff that chunk decodes, and is that part of the page |
| Media.SliceConcat | core/src/reader.rs:1195-1196 | adjacent ranges of the media put together are the whole range |
| Media.FailsUnreadable | core/src/reader.rs:1188-1189 | a read cannot both fail and have been readable |
| Media.FailsOnce | core/src/reader.rs:1188-1189 | a failing read fails with one error, that of the first chunk that does not decode |
| Media.SameOutcome | core/src/reader.rs:1166-1200 | media with equal pages give a positioned read one answer and one buffer, so what a read promises leaves nothing open |
| Reader.Decoder.Read | core/src/reader.rs:1139-1149 | a decoder delivers the next bytes of its stream, as few as it likes, and signals the end or the error only there |
| Reader.InflateInto | core/src/reader.rs:1139-1149 | however the decoder splits its output, the page ends up as the stream's first bytes zero-padded, or the error matters only if reached before the page is full |
| Reader.DecodePage | core/src/reader.rs:1124-1164 | the page buffer ends up as the chunk's page; it fails exactly when the segment is missing, the stream breaks before the page is full, or the segment ends before the bytes due, and otherwise holds the inflated or stored bytes and zeros behind them |
| Images.PageIs | core/src/reader.rs:1118-1164 | the same of the page the caches are compared with |
| Images.ReadIsBytes | core/src/reader.rs:1166-1200 | whatever a positioned read promises of pages it promises of bytes: it fails exactly when a chunk it touches cannot be decoded, for the reason the first of them cannot, and otherwise delivers their bytes |
| Reader.EwfReader.constructor | core/src/reader.rs:389-670 | a new reader serves its image from position 0, with faithful caches |
| Reader.EwfReader.GetChunk | core/src/chunk_table.rs:287-299 | eager and lazy tables answer from the immutable image, leaving cached pages alone |
| Reader.EwfReader.DecompressChunk | core/src/reader.rs:1118-1164 | the cacheless decode gives the chunk's page or error |
| Reader.EwfReader.ReadChunk | core/src/reader.rs:1094-1116 | the cached read gives the same as the uncached decode and keeps every cached page equal to it |
| Reader.EwfReader.ReadPart | core/src/reader.rs:1188-1196 | one turn copies exactly the due part of one page |
| Reader.EwfReader.ReadAt | core/src/reader.rs:1173-1200 | succeeds iff every touched chunk decodes, then delivers min(len, total - offset) bytes of the media (0 past the end) and leaves the rest of the buffer untouched; otherwise the first failing chunk's error; for any cache size and history; and the same told from the segments' bytes |
| Reader.EwfReader.Read | core/src/reader.rs:1203-1209 | a cursor read is the positioned read at the cursor, which moves by what was read |
| Reader.EwfReader.Seek | core/src/reader.rs:1211-1227 | the cursor moves to the target, or stays with an error when that is negative |
| Reader.EwfReader.DecodeBatch | core/src/reader.rs:1041-1046 | a batch is its chunks' pages in order, or an error of one of them |
| Reader.EwfReader.Verify | core/src/reader.rs:1020-1086 | for every batch size the hashers are fed exactly the page concatenation cut to the media size, and the result records that, its addressable size modulo 2^64; it fails iff some chunk does not decode; each verdict is true, false or absent exactly as the stored digest is the computed one, is another, or is missing, and when complete as it is that of the whole media |
| Verifying.FeedNext | core/src/reader.rs:1047-1058 | feeding one more trimmed page extends the stream by that page |
| Verifying.FeedBatch | core/src/reader.rs:1047-1058 | feeding a batch extends the stream by its pages, for both hashers |
| Verifying.VerifiedStream | core/src/types.rs:35-58 | when complete, the digest is that of reading the whole media; otherwise of a prefix short by exactly the missing bytes, unless the addressable size wrapped around, when it is that of the whole media after all |
| Reader.ReadPieces | core/src/reader.rs:1203-1209 | a run of cursor reads of any lengths returns, put together, what one read of their sum returns, and moves the cursor past it; or fails, at the first chunk that does not decode, exactly when that read would |
| Verifying.AnySplitReadsTheSame | core/src/reader.rs:1203-1209 | the pieces of a range, cut anywhere, put together are the range |
| Concurrent.NextKeepsInv | core/src/reader.rs:1088-1200 | one step of any thread keeps both caches within their capacity and equal to the uncached decode and parse, and every thread's bytes equal to the media's |
| Concurrent.RunKeepsInv | core/src/reader.rs:1088-1200 | so does every run of any length |
| Concurrent.ReadsAreSequential | core/src/reader.rs:1166-1200 | in every run a finished thread delivered exactly what a lone positioned read delivers, or failed where and as it fails |
| Concurrent.OutcomeIndependent | core/src/reader.rs:1166-1200 | two runs that finish the same read agree on its outcome |
| Concurrent.NeverBlocked | core/src/reader.rs:1094-1116 | an unfinished thread always has a next step, even when both caches are full |
| Recover.LocateChunk | forensic/src/recover.rs:372-381 | the running-sum search finds the place whose preceding entries and local index add up to the chunk's number, or nothing when there is none |
| Recover.PlaceUnique | forensic/src/recover.rs:372-381 | there is only one such place |
| RecoverLoop.DecodeBest | forensic/src/recover.rs:492-520 | the fall-back chain yields the best copy: lost iff neither table decodes the chunk, flagged only when no copy is good, and from `table2` only when the primary is not good or absent |
| RecoverLoop.ExportChunk | forensic/src/recover.rs:522-547 | the chunk's bytes, cut or zero-padded to its logical span, or zeros, are appended, and every counter and list is updated accordingly |
| RecoverLoop.ExportChunks | forensic/src/recover.rs:486-548 | the loop appends exactly min(chunk count, chunks the size needs) chunks, with their account |
| RecoverLoop.FillTail | forensic/src/recover.rs:553-558 | the rest is zero-filled and counted |
| RecoverLoop.WriteZeros | forensic/src/recover.rs:579-589 | n zeros are appended, in blocks |
| RecoverLoop.GatherEvidence | forensic/src/recover.rs:401-461 | every segment's tables and sectors end, and the first truncation offset |
| RecoverLoop.FirstTruncationIff | forensic/src/recover.rs:401-461 | the truncation reported is that of the first segment that has one |
| RecoverLoop.RecoverSegments | forensic/src/recover.rs:384-576 | succeeds iff recovery can start, and then report and output are those of the account; otherwise nothing is written |
| Fallback.StartsIff | forensic/src/recover.rs:384-443 | recovery starts exactly on an "EVF" segment with usable geometry and chunks of at most 64 MiB |
| Fallback.UsableIff | forensic/src/recover.rs:294-368 | a table gives a good copy exactly where an entry is usable, told from its bytes and the decompressor |
| Fallback.CopiesAre | forensic/src/recover.rs:401-461 | of any segment: the primary copy of a chunk is what the first `table` yields and the redundant one what the first `table2` yields, byte for byte |
| Fallback.EntriesCounted | forensic/src/recover.rs:372-381 | a segment counts for the entries its `table` declares, or else its `table2`, or none |
| Fallback.RecoveredDespiteDamage | forensic/src/recover.rs:492-520 | with unusable or missing primary tables and mirroring `table2` sections nothing is lost and the output is the undamaged media; all chunks are counted under `table2` when no primary entry is usable |
| Fallback.RecoverDamaged | forensic/src/recover.rs:384-576 | the recovery run on such an image |
| Samples.Table2OnlyRecoverable | forensic/src/recover.rs:401-461 | a concrete segment with only a `table2` is such an image |
| Samples.BadTableRecoverable | forensic/src/recover.rs:401-461 | so is one whose `table` entry points past the file |
| Samples.RecoverFromTable2 | forensic/src/recover.rs:492-520 | recovering either counts the chunk under `table2` and loses nothing |
| RecoverLoop.TallyCounts | forensic/src/recover.rs:486-548 | after k chunks each is counted once and the lists are as long as their counters |
| RecoverLoop.TallyLists | forensic/src/recover.rs:538-545 | the lists are strictly ascending and hold exactly the lost and the flagged chunks |
| RecoverLoop.TallyBytes | forensic/src/recover.rs:522-547 | recovered and zero-filled bytes add up to the output so far |
| RecoverLoop.ZeroFilledBytes | forensic/src/recover.rs:536-558 | the zero-filled bytes are those of the lost chunks and those the chunks never reached |
| RecoverLoop.OutputAt | forensic/src/recover.rs:522-547 | each chunk's bytes are at its own place in the output |
| RecoverLoop.RecoveryConserves | forensic/src/recover.rs:463-575 | the output has the image size, recovered plus zero-filled bytes are the image size, and the three counts add up to min(chunk count, chunks the size needs) |
| RecoverLoop.CountsAreTotalIff | forensic/src/recover.rs:48-51 | of any segments recovery accepts: the counts add up to the declared chunk count exactly when the volume's sectors reach into the last chunk it declares |
| Samples.OverDeclaredCounts | forensic/src/recover.rs:48-51 | a concrete segment that recovery accepts, for which they add up to one where two are declared |
| Samples.RecoverOverDeclared | forensic/src/recover.rs:1223-1238 | recovering that segment writes 512 bytes and counts one chunk of two |
| RecoverLoop.FittingVolumeCountsAll | forensic/src/integrity.rs:1369-1380 | a volume that fits its sector count, as the analyser checks, is counted in full |
| RecoverLoop.LossesListed | forensic/src/recover.rs:536-546 | lost and flagged lists are ascending, exact, disjoint and as long as their counters |
| RecoverLoop.OutputHoldsEachChunk | forensic/src/recover.rs:522-558 | every lost span is zero in the output, every saved chunk is at its place, and everything after the last chunk is zero |
| VolumeCheck.CheckVolume | forensic/src/integrity.rs:1329-1380 | the geometry, and each sector-size, chunk-size and sector-count issue exactly when its condition holds, with the values it names |
| VolumeCheck.PowerOfTwoIff | forensic/src/integrity.rs:1361-1366 | the chunk-size test holds of the powers of two and nothing else |
| Integrity.RangesAreLongestPrefix | forensic/src/integrity.rs:1474-1532 | the iterated ranges are the longest prefix of entries for which recovery's chunk range succeeds, with identical ranges and flags |
| Integrity.RangeOfEntry | forensic/src/integrity.rs:1500-1529 | the analyser's own range arithmetic resolves an entry exactly as recovery's does |
| Integrity.IterSegmentChunks | forensic/src/integrity.rs:1474-1532 | the loop returns those ranges, and nothing without table, whole header and sectors section |
| ChunkReports.RangesAre | forensic/src/integrity.rs:1474-1532 | told from the bytes: the entries of the first `table`, and none without a whole header or a sectors section |
| Integrity.ComputeChunk | forensic/src/integrity.rs:2019-2045 | one chunk's contribution, cut to what remains of the media |
| Integrity.FeedRanges | forensic/src/integrity.rs:2015-2046 | the ranges are hashed in order until the media is used up |
| Integrity.ComputeHashes | forensic/src/integrity.rs:1980-2054 | succeeds iff signature and geometry parse, and returns each digest of the media stream in its own field |
| ChunkReports.GeometryIff | forensic/src/integrity.rs:1980-2014 | signature and geometry parse exactly when the first segment says "EVF", "LVF" or "dvf" and holds a volume section |
| ChunkReports.BrokenAddsNothing | forensic/src/integrity.rs:1592-1623 | a chunk that does not inflate adds nothing to the stream but uses up its share; any other adds its first bytes due |
| Analyser.ChunkReportedIffFlagged | forensic/src/integrity.rs:1579-1611 | an uncompressed chunk is reported iff recovery flags it; a full-size compressed one iff recovery loses it and it is not merely empty |
| Analyser.AnalyseChunk | forensic/src/integrity.rs:1564-1623 | one chunk: its issues, and the same feeding as the hash computation |
| Analyser.AnalyseRanges | forensic/src/integrity.rs:1560-1630 | a segment's chunks: issues numbered in order, and the same state as the hash computation |
| Analyser.CheckChunks | forensic/src/integrity.rs:1556-1630 | all segments: chunks are numbered across segments and the stream is the media stream |
| ChunkReports.FaultsReportedIff | forensic/src/integrity.rs:1556-1630 | over the image exactly the faulty chunks within the media are reported, told from their bytes, each under its number counted through all segments |
| Analyser.CheckHashes | forensic/src/integrity.rs:1535-1704 | chunk issues as above; a stored MD5 or SHA-1 of the last segment, or a reference digest, is reported exactly when it is there and differs from that of the media stream, and a missing hash section when there is none |
| Analyser.DigestsReportedIff | forensic/src/integrity.rs:1645-1704 | the comparisons told from the bytes behind the first `hash` and `digest` descriptors, an all-zero SHA-1 being none |
| Analyser.AnalyseSealed | forensic/src/integrity.rs:574-743 | an image that stores what the hash computation returns, analysed with it, is reported for no digest |
| Analyser.AnalyseDigests | forensic/src/integrity.rs:574-743 | the analyser's route to that check takes its geometry from the first segment's volume section, as the hash computation does |
| Analyser.OwnHashesAccepted | forensic/src/integrity.rs:1980-2054 | whenever the hash computation succeeds, the analyser hashes the same stream: an external mismatch is raised iff a reference digest differs from the computed one, so never for its own |
| Analyser.ExternalIff | forensic/src/integrity.rs:1679-1704 | no external issue exactly when every given reference digest is the computed one |
| Analyser.StoredNotExternal | forensic/src/integrity.rs:1645-1677 | comparing with stored digests never raises an external mismatch |
| WellFormed.EagerTableIs | core/src/reader.rs:430-631 | on a chain of one volume and one table per segment the eager table is the segments' chunks, one after the other |
| WellFormed.ChunkOfPlace | core/src/reader.rs:507-556 | chunk l of segment s is at the number of entries before that segment plus l |
| Agreement.EntryAgrees | forensic/src/recover.rs:279-287 | when no entry overflows, recovery reads the same flag and absolute offset as the table parser |
| Agreement.RangeAgrees | forensic/src/recover.rs:294-312 | and the same range as the parsed chunk's |
| Agreement.ChunkAgrees | forensic/src/recover.rs:331-368 | on a good chunk recovery's bytes, zero-padded, are the reader's page |
| Agreement.GeometryAgrees | forensic/src/recover.rs:232-251 | both sides read the same geometry from the volume section |
| Agreement.BothOpen | forensic/src/recover.rs:384-443 | the section walk and the recovery both accept a well-formed image, with the same chunk and media size |
| EndToEnd.StrictOpens | core/src/reader.rs:389-670 | the open of a well-formed image, signatures and numbering included, succeeds with exactly its chunks, chunk size and media size |
| Agreement.ChunksSuffice | forensic/src/recover.rs:486-490 | when every byte of the media is in a declared and tabled chunk, the loop runs over all the chunks the size needs |
| Agreement.OutcomeAgrees | forensic/src/recover.rs:486-520 | every chunk comes good from its primary table and is the reader's page of that number |
| Agreement.WholeOutput | forensic/src/recover.rs:486-548 | the exported chunks are the whole media |
| Agreement.RecoveredIsStrict | forensic/src/recover.rs:384-576 | recovering a well-formed image loses and flags nothing, never uses `table2`, and writes what the strict reader returns for the whole media |
| EndToEnd.ReadWhole | core/src/reader.rs:1173-1200 | opening a well-formed image and reading all of it fills the buffer with its media |
| EndToEnd.RecoverAndRead | forensic/src/recover.rs:384-576 | recovering a well-formed image and reading it, from the same segments, end with the same bytes |
| HashAgreement.AllRangesResolve | forensic/src/integrity.rs:1474-1532 | on a well-formed segment the analyser iterates over every table entry |
| HashAgreement.ContributionIs | forensic/src/integrity.rs:1592-1622 | the hash loop's contribution of a decodable chunk is recovery's bytes, cut to what is asked for |
| HashAgreement.SharesAreOutputIff | forensic/src/integrity.rs:1592-1623 | unpadded shares add up to the recovered output iff no chunk needed padding |
| HashAgreement.HashedIsMediaIff | forensic/src/integrity.rs:1535-1634 | on a well-formed image the digested stream is the media the reader serves iff every chunk decodes to all the bytes the media needs of it |
| Samples.OneChunkWellFormed | forensic/src/recover.rs:384-443 | a concrete one-chunk image is well formed whenever its stored byte inflates cleanly to something |
| Samples.OneChunkHashedIff | forensic/src/integrity.rs:1592-1622 | its digested stream is its media iff that byte inflates to at least a sector |
| Samples.DigestsDiffer | forensic/src/integrity.rs:1592-1622 | with a decompressor that yields one byte the image is well formed and readable, and what is digested is not its media |
| Text.SplitJoin | core/src/logical.rs:164-175 | splitting what was joined gives the parts back |
| Text.SplitUnlines | core/src/logical.rs:155 | splitting text made of lines gives the lines and one empty line after the last break |
| Text.SplitOnce | core/src/logical.rs:257-268 | the parts before and after the first separator, or nothing when there is none |
| Text.ParseDecimal | core/src/logical.rs:223-227 | printing a 64-bit number and parsing it, trimmed or not, gives it back |
| Text.ParseU64Iff | core/src/logical.rs:223-227 | what is accepted as a number: its decimal form behind any zeros and at most one plus sign |
| Text.Trims | core/src/logical.rs:223-227 | trimming takes the white space at both ends and nothing else |
| Ltree.LogicalTree.AddEntry | core/src/logical.rs:231-284 | the entry is appended with its fields and warnings, and its index to its parent's children |
| Ltree.ReadRow | core/src/logical.rs:240-244 | the raw map pairs indicators and values as far as both go, later columns winning |
| LtreeFields.RecordRead | core/src/logical.rs:231-281 | a row that describes a record, in whatever columns, is read to that record: name, short name, directory flag, size, hash unless all zero, id |
| LtreeFields.RowDescribes | core/src/logical.rs:713-727 | every record whose hash, if any, is not all zeros has such a row |
| LtreeFields.WarnedIff | core/src/logical.rs:231-281 | a row is warned about exactly when it has too many or too few values, or its short name is not as long as its size says |
| Ltree.LogicalTree.ParseOne | core/src/logical.rs:213-291 | the recursive cursor-passing parser terminates on any text and any sub-counts and grows the arena as specified |
| Ltree.ParseEntryTree | core/src/logical.rs:152-206 | the whole text: the three malformed cases in order, or the parsed tree |
| LtreeShape.MalformedIff | core/src/logical.rs:156-199 | each of the three malformed cases exactly when its line is missing or not a number |
| LtreeShape.LeafWithoutCount | core/src/logical.rs:221-227 | an entry whose count is not a number has no sub-entries |
| LtreeShape.OneEntryShape | core/src/logical.rs:213-291 | one entry: links stay right, the cursor never moves back nor leaves the text, every entry used up two lines |
| LtreeShape.SubEntriesShape | core/src/logical.rs:287-290 | the same for any number of sub-entries |
| LtreeShape.TreeShape | core/src/logical.rs:152-206 | in every parsed tree parents precede children, `children` and `parent` are mutual inverses with ascending lists, and entries number at most half the lines |
| LtreeShape.PathIsLineage | cli/src/main.rs:394-406 | they are the non-empty names along the entry's lineage, root first |
| LtreeShape.FullPath | cli/src/main.rs:394-406 | the climb to the root ends, and gives the non-empty names from the root down |
| LtreeRoundTrip.ParsePrinted | core/src/logical.rs:713-727 | parsing the printed lines of a forest grows the arena by exactly that forest, in preorder |
| LtreeRoundTrip.RoundTrip | core/src/logical.rs:713-727 | printing any forest of printable rows behind any other categories and parsing it gives the same entries, raw fields, parents and children, for any root count at least the number of top-level entries |
| LtreeFields.RecordsRoundTrip | core/src/logical.rs:713-727 | printing records as any forest and parsing it gives those records in preorder, and exactly the warnings their rows call for |
| LtreeRoundTrip.FieldsByName | core/src/logical.rs:240-244 | with distinct indicators each field can be read back by its name and there is nothing else |
| LtreeRoundTrip.ColumnOrderIrrelevant | core/src/logical.rs:737-783 | permuting the columns changes nothing in the parsed arena |
| LtreeRoundTrip.LineEndingsIrrelevant | core/src/logical.rs:153-155 | a text parses to the same tree whether its lines end in a line break alone or behind a carriage return |
| Search.HitsAreAll | cli/src/handlers.rs:189-197 | naive search lists every occurrence once, ascending |
| Search.HitIff | cli/src/handlers.rs:189-191 | an occurrence matches byte by byte |
| Search.NaiveIs | cli/src/handlers.rs:174-197 | capped, naive search leaves out no occurrence before the last it lists, nor any below the cap |
| Search.ScanWindow | cli/src/handlers.rs:182-197 | scanning the buffer finds the media's occurrences up to the last position that fits, cut at the cap |
| Search.CopyToFront | cli/src/handlers.rs:199-202 | the overlap is moved to the front of the buffer |
| Search.ScanBlock | cli/src/handlers.rs:182-205 | after each block everything that ends inside what was read has been found, and the carry holds what a match can straddle |
| Search.ReadBlock | cli/src/handlers.rs:175-181 | a block lands behind the carried bytes, or the read fails as reading from the start would |
| Search.SearchBlock | cli/src/handlers.rs:174-207 | one turn of the loop keeps that state |
| Search.HandleSearch | cli/src/handlers.rs:142-213 | an empty pattern is refused; otherwise the matches are those in a prefix that is the whole media unless the cap was reached, or the first unreadable chunk's error |
| Search.ShortPatternFound | cli/src/handlers.rs:168-207 | on readable media a pattern of at most 65537 bytes is found exactly as naive search finds it, up to the cap |
| Search.LongPatternMissed | cli/src/handlers.rs:171-207 | a longer pattern that occurs in the media is not found |
| Search.SearchIsNaiveIff | cli/src/handlers.rs:168-207 | the search finds on every readable media what naive search finds iff the pattern has at most 65537 bytes |
| Samples.SearchInVain | cli/src/handlers.rs:142-213 | searching a concrete image, which is nothing but a pattern of 65538 bytes, for that pattern answers no match |
| SegmentWriter.DescriptorParses | forensic/tests/builder.rs:63-73 | a written section descriptor parses to what was written, and its checksum verifies |
| SegmentWriter.VolumeParses | core/src/sections.rs:210-240 | a written volume body parses to what was written, read in 24 bytes or in 94 |
| SegmentWriter.TableParses | core/src/sections.rs:326-338 | the body of a written table of any number of entries parses to its header, with the entries' bytes right behind it |
| SegmentWriter.EntriesParse | core/src/sections.rs:288-304 | each written entry parses to what was written |
| SegmentWriter.WalkWritten | core/src/reader.rs:437-460 | walking a written chain finds every section that was written, where it was written, and nothing else |
| SegmentWriter.WrittenReads | forensic/src/recover.rs:1138-1192 | a written segment, physical or logical, reads back: signature, number and sections |
| Ewf2.CollectDescriptors | core/src/reader.rs:214-251 | the backward walk terminates on every file and returns the chased list or the error met |
| Ewf2.CollectedIff | core/src/reader.rs:214-251 | it succeeds iff the links lead from 64 bytes before the end to a descriptor without predecessor; the list is then linked pairwise and names none twice |
| Ewf2.ChainUnique | core/src/reader.rs:214-251 | there is at most one such list |
| Ewf2.CollectFailsIff | core/src/reader.rs:214-251 | it fails exactly when the links, followed through different offsets, get stuck, and how they do is the error |
| Ewf2.WrittenParses | core/src/ewf2.rs:190-218 | a written descriptor is read back field by field |
| Ewf2.EncryptedIff | core/src/ewf2.rs:225-227 | encryption is the second-lowest bit of the flags |
| Ewf2.AnalyserWalk | forensic/src/integrity.rs:1890-1917 | the analyser visits the strictly decreasing chain (the same loop header as forensic/src/integrity.rs:805-902) and chooses its last unencrypted chunk table |
| Ewf2.ChosenIff | forensic/src/integrity.rs:1903-1909 | the chosen table is the body in front of the last visited unencrypted chunk-table descriptor |
| Ewf2.BackWalkDescends | forensic/src/integrity.rs:893-902 | its offsets strictly decrease and never enter the file header |
| Ewf2.WalksAgreeIff | forensic/src/integrity.rs:805-902 | where the reader has a list to collect, the analyser visits its descriptors in reverse iff they lie in increasing order at offsets of at least 32 |

## Left out

- Operating-system behaviour: opening, globbing, memory mapping, `pread`, temporary files, output-file errors and path discovery.
- The internals of inflate, MD5, SHA-1 and SHA-256; a decoder asked for no bytes delivers none.
- The order in which an LRU cache evicts: the proofs hold for every choice of victim.
- Scheduling inside the parallel verification: only the ordered result of a batch is modelled, and which failing chunk's error it reports is left open.
- The ltree and session sections of an image, header and case metadata, and the EWF2 sector tables and case data.
- Opening.OpenV1: does not model the `header` arm (core/src/reader.rs:586-607), which fails an open when a header section is cut off and no case metadata was found yet; nor the values of stored digests and error lists, only that their bytes must be there.
- Opening.WalkAndOpenSegment: leaves out the same `header` arm, so the program may fail a segment with a cut-off header section that the model accepts.
- Opening.WalkAndOpen: leaves out the same `header` arm.
- EndToEnd.StrictOpens: speaks of that open, so of images whose header sections, if any, are not cut off.
- SegmentSources.ReadAt: covers file, memory and window sources; a backing supplied by a caller may return anything.
- VolumeCheck.CheckVolume: leaves out the media-type and body-checksum issues of the same function.
- Reader.Decoder.Read: a read into an empty range is taken to deliver nothing and to raise no stream error, which the decompression library does not promise.
- Reader.EwfReader.Verify: the addressable size wraps around modulo 2^64 as in a release build; the overflow panic of a debug build is not modelled.
- The segment-set and table checks and the progress callbacks of the analyser.
- The EWF2 analyser's per-section hash and media-information checks along its walk.
- Section type names are compared byte by byte as characters; lossy decoding of names that are not UTF-8 is not modelled.
- ChunkTables.PushChunk: a packed chunk is a value replaced in its list rather than an object updated in place.
- Reader.EwfReader.DecodeBatch: decodes one chunk after the other where the program uses a thread pool.
- Reader.EwfReader.Seek: two's-complement wrap-around as in a release build; the overflow panic of a debug build is not modelled.
- Search.HandleSearch: takes the pattern as bytes; hexadecimal parsing and the JSON result are not modelled.
- Ltree.ParseEntryTree: takes decoded text; the UTF-16 decoding, the ltree header, file extents and `read_entry` are not modelled.
- The MCP server, the rest of the command line, hex dumps, `Display`, severities and codes.
- The segment extension scheme, with only 775 values.
