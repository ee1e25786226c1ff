# UMDReplaceK patch engine in Dafny

UMDReplaceK replaces files inside an ISO 9660 image (a PSP UMD image) in place. The image is
held in memory as one byte buffer. For each `(path in the image, replacement file)` pair the
program does the following:

1. It reads the primary volume descriptor in sector 16.
2. It normalises the path.
3. It finds the file's directory record by a depth-first walk of the directory tree.
4. It splices the replacement's sectors over the old file's sectors.
5. It rewrites the record's size fields.
6. When the file's sector count changed, it moves every later LBA:
   - the descriptor's sector total;
   - the entries of up to four path tables;
   - every directory record in the tree.

This project models that engine as pure functions over `seq<Byte>` and proves what each
stage promises.

Modules, one per file:

- `Outcomes` (`outcomes.dfy`): `Result` and `Option`. The runtime exceptions of the program
  become faults:
  - a slice or index outside the buffer is `OutOfRange`;
  - an array too long for a span is `TooLarge`;
  - the "file not found" exit is `NotFound`;
  - running out of the recursion bound is `DepthExhausted`.
- `ByteBuffer` (`bytes.dfy`):
  - bytes, `uint` wrap-around, and the `(int)` reinterpretation;
  - little- and big-endian 32-bit fields (section 7.3.3 of ECMA-119);
  - `ChangeEndian`, and framed writes.
- `Sectors` (`sectors.dfy`): sector counts, `ConvertToSectors` (`Pad`) and `ExchangeSectors`.
- `Names` (`names.dfy`):
  - record-name decoding and the `;1` version suffix;
  - `.`/`..` detection;
  - case-insensitive comparison;
  - path normalisation.
- `Layout` (`layout.dfy`): descriptor and directory-record offsets (sections 8.4 and 9.1 of
  ECMA-119) and the program's address arithmetic.
- `DirectorySearch` (`search.dfy`): `Search`.
- `PathTables` (`path_tables.dfy`): `PathTable` and the four-slot loop of `Replace`.
- `TocUpdate` (`toc.dfy`): `TOC`.
- `Replacement` (`replace.dfy`): `Replace`, split into the following stages:
  - the read phase `Locate`;
  - `Splice`;
  - `PatchSize`;
  - `Propagate`, which covers the descriptor total, the path tables and the TOC pass.
- `Batch` (`batch.dfy`): the loop of `Main` with its running byte delta and sticky
  `wasChanged` flag.

The model keeps the program's arithmetic as written:

- `uint` sums and products wrap modulo 2^32:
  - sector counts `(size + 2047) / 2048`;
  - record positions `2048 * (lba + i) + pos`;
  - the shifted LBAs `LBA + (uint)diff`;
  - the new total `imageSectors + diff`.
- The TOC pass's `newfound` is computed in `ulong`, so only `lba + i` wraps there.
- `Search` adds its `long` in-sector offset after the `uint` sector base has wrapped.
- The sector delta is `newSectors - oldSectors` in `uint`, reinterpreted as `int`.
- The splice arguments go through `(int)` casts.

The model also keeps the program's own choices:

- The directory test is "flag byte == 2".
- The TOC pass recurses into a subdirectory at the LBA it has just written (lines 549 and
  569), not at the one it read.
- The size fields are written at the record position found before the splice.
- Only path-table slot 2 is read big-endian.
- No splice happens for an empty payload, so the image keeps its length while the delta is
  minus the old sector count.

It departs from the code in one place, logged under "Findings" with the code as written
modelled beside the correction: for a `;1` name, `DirectorySearch.Search` builds the
candidate path from the stripped name, where the code decodes the whole buffer with a NUL
in place of the ';'.

The TOC scan of each sector is bounded as in the code, by `pos < len` with `len` the length
of the whole directory (line 521), so a full sector's scan runs on into the next sector.
That is the second "Findings" row; `TocUpdate.TocDirCorrected` is the same walk with each
sector's scan stopped at offset 2048, as `Search` does (line 407).

Every stage that writes returns the list of record or entry positions it rewrote. The frame of
each stage is stated against that list: only the LBA bytes of the listed positions change, and
every other byte keeps its value. What the list holds is stated too:

- For a path table, the list is exactly the entries a read-only reference walk
  (`PathTables.TableEntries`, same stride and stop tests) visits whose LBA is above the
  file's old LBA, and every visited entry ends holding its shifted LBA.
- For the four path-table slots together, every listed entry passed the test on the image
  the passes started from and ends holding its old LBA plus the delta in its table's byte
  order, provided no two listed entries overlap. The first slot with a non-zero pointer
  contributes its whole table's list as a prefix.
- For the TOC pass, every listed record passed the shift test on the image the pass started
  from and ends holding its old LBA plus the delta in both byte orders, provided no two
  listed records overlap. The record under a scan's cursor (the first record of a
  directory or of a sector, or the record being visited) is listed first when it passes the
  test; that the later records of a scan are listed is not stated (see "Left out").
- For the whole write phase (`Replacement.Moves`), when no two listed windows overlap and
  none meets the size field or the descriptor total, every listed path-table entry and
  every listed directory record passed its test on the spliced image and ends holding its
  old LBA plus the delta.

## Model

| member | source | states |
|---|---|---|
| ByteBuffer.Wrap32 | UMDReplaceK/Program.cs:273 | the `(uint)` conversion: the result is a 32-bit value congruent to the input modulo 2^32, and equal to the input when that is already in range |
| ByteBuffer.ToInt32 | UMDReplaceK/Program.cs:212 | the `(int)` reading of a 32-bit pattern: result in the `int` range, congruent to the input modulo 2^32, and equal to the input when that is already an `int` |
| ByteBuffer.LeBytesRoundTrip | UMDReplaceK/Program.cs:256-263 | reading back the four bytes `GetBytes` lays out for a value gives the value |
| ByteBuffer.LE32RoundTrip | UMDReplaceK/Program.cs:177 | `ToUInt32` loses nothing: the bytes of the value it reads are the four bytes it read |
| ByteBuffer.ChangeEndian | UMDReplaceK/Program.cs:576-579 | the bytes of the result are the bytes of the input in reverse order |
| ByteBuffer.ChangeEndianInvolution | UMDReplaceK/Program.cs:576-579 | swapping the byte order twice gives back the input |
| ByteBuffer.BE32IsChangeEndian | UMDReplaceK/Program.cs:551-557 | reading a field big-endian gives `ChangeEndian` of its little-endian reading, which is why writing `GetBytes(ChangeEndian(v))` stores `v` big-endian |
| ByteBuffer.PutBE32 | UMDReplaceK/Program.cs:257-265 | writing the little-endian bytes of `ChangeEndian(v)` makes the field read `v` big-endian, and no byte outside the four changes |
| ByteBuffer.PutBoth32 | UMDReplaceK/Program.cs:256-266 | a both-byte-order write: the field then reads `v` little-endian at `off` and big-endian at `off + 4`, and no other byte changes |
| ByteBuffer.ReadLE32 | UMDReplaceK/Program.cs:177-180 | a 4-byte read succeeds exactly when the slice lies inside the buffer, and then yields the little-endian value |
| ByteBuffer.TryPutBoth32 | UMDReplaceK/Program.cs:277-283 | the indexed writes succeed exactly when all eight bytes lie inside the buffer; then both readings give the value and no other byte changes |
| Sectors.CeilSectors | UMDReplaceK/Program.cs:208 | without wrap-around the count is the least number of 2048-byte sectors covering the size; for sizes within 2047 of 2^32 the `uint` sum wraps and the count is 0 |
| Sectors.Pad | UMDReplaceK/Program.cs:590-599 | the input is a prefix of the output, all added bytes are 0, the length is the least multiple of 2048 not below the input length, and aligned input comes back unchanged |
| Sectors.PadCoversCeilSectors | UMDReplaceK/Program.cs:590-599 | the padded payload is exactly `CeilSectors(|data|)` sectors long |
| Sectors.CutPoint | UMDReplaceK/Program.cs:584 | the `(int)(offset * sectorSize)` cut: an `int`, congruent to the true product modulo 2^32, and equal to it when the product fits an `int` |
| Sectors.ResumePoint | UMDReplaceK/Program.cs:586 | the resume point, whose sum `offset + count` wraps as an `int` before the product does: an `int`, congruent to `2048 * (offset + count)` modulo 2^32, and equal to it when that fits an `int` |
| Sectors.ExchangeSectors | UMDReplaceK/Program.cs:581-588 | succeeds exactly when both cut points lie inside the image and the result fits a span; then it is the prefix before the cut, the payload, zero padding, and the suffix from the resume point |
| Sectors.SpliceFraming | UMDReplaceK/Program.cs:581-588 | for in-range sector numbers, `image[0 .. off*2048)` and `image[(off+k)*2048 ..)` survive byte for byte around the padded payload, and the length is `|image| - k*2048 + |Pad(data)|` |
| Sectors.SpliceLength | UMDReplaceK/Program.cs:246-250 | through the program's `(int)` casts, a splice over a run below sector 2^20 changes the length by 2048 times the difference of the payload's sector count and the old count |
| Sectors.SpliceRoundTrip | UMDReplaceK/Program.cs:581-588 | splicing the removed sectors back over the payload's sectors restores the original image |
| Names.Ascii | UMDReplaceK/Program.cs:433 | ASCII decoding keeps the length and maps each byte on its own, with bytes above 127 becoming '?' |
| Names.StrippedLength | UMDReplaceK/Program.cs:426-431 | the name is shortened, by exactly two, if and only if it is longer than two bytes and its second-to-last byte is ';' |
| Names.DecodeName | UMDReplaceK/Program.cs:426-433 | the name used for paths: the ASCII decoding of the stripped prefix, character by character |
| Names.DecodeNameAsWritten | UMDReplaceK/Program.cs:426-433 | the name as `GetString` decodes it: as long as the whole buffer; for a versioned name the ';' position holds NUL and every other position the decoded byte, the trailing `1` included; otherwise the same as `DecodeName` |
| Names.DecodeNameStripsVersion | UMDReplaceK/Program.cs:426-433 | a name `base;1` decodes to `base` |
| Names.DecodeNameWithoutVersion | UMDReplaceK/Program.cs:426-433 | a name without a version suffix decodes in full |
| Names.EqualsIgnoreCaseIsFoldEquality | UMDReplaceK/Program.cs:456 | the case-insensitive comparison holds exactly when the upper-cased strings are equal |
| Names.EqualsIgnoreCaseEquivalence | UMDReplaceK/Program.cs:456 | the case-insensitive comparison is reflexive, symmetric and transitive |
| Names.JoinPath | UMDReplaceK/Program.cs:439 | a candidate path is the parent path, one '/', then the name |
| Names.Normalize | UMDReplaceK/Program.cs:186-193 | fails exactly on an empty name (the program throws at `oldName[0]`); otherwise the result starts with '/', contains no backslash, and is the input, with a '/' put in front unless it began with a separator, and with each '\\' turned into '/' |
| Names.NormalizeIdempotent | UMDReplaceK/Program.cs:186-193 | normalising a normalised path changes nothing |
| Names.NormalizeIgnoresSeparatorKind | UMDReplaceK/Program.cs:186-193 | names that differ only in which separators they use normalise to the same path |
| Names.NormalizeBackslashExample | UMDReplaceK/Program.cs:186-193 | `A\SUB\FILE.BIN` normalises to `/A/SUB/FILE.BIN` |
| Names.AsWrittenDecodingMissesVersionedNames | UMDReplaceK/Program.cs:426-456 | for a versioned name, a target that matches the stripped candidate path never matches the candidate built from the whole decoded buffer |
| Names.VersionedNameExample | UMDReplaceK/Program.cs:426-456 | the record name `A.BIN;1` decodes as `A.BIN` when stripped and as `A.BIN`, NUL, `1` as written; only the first matches `/a.bin` |
| Layout.RecordPosition | UMDReplaceK/Program.cs:523-528 | the record address of the TOC pass is the 64-bit ordinal reduced modulo 2^32, since the pass computes it in `uint` |
| Layout.SearchPosition | UMDReplaceK/Program.cs:410-415 | the record address of the search is the in-sector offset added to the sector base `2048 * (lba + i)` reduced modulo 2^32 |
| Layout.RecordOrdinal | UMDReplaceK/Program.cs:544 | the TOC pass's 64-bit `newfound`: for an in-sector offset below 2048 it splits into the wrapped sector number `lba + i` and that offset |
| Layout.PositionsAgree | UMDReplaceK/Program.cs:541-546 | while `2048 * (lba + i) + pos` stays below 2^32, the search's address, the TOC pass's address and the TOC pass's 64-bit `newfound` are the same number |
| Layout.NameBytes | UMDReplaceK/Program.cs:422-424 | the name field has the length given by the byte at +32 |
| DirectorySearch.FindInDir | UMDReplaceK/Program.cs:402-405 | a hit inside a directory is a file record (length byte not 0, flag byte not 2, not `.`/`..`) reached through a chain of directory records that starts in the directory's extent, each record lying in the extent of the one before. Its path is the parent path followed by '/' and the decoded name of each directory, then '/' and the file's name, and it equals the target up to case. The only faults are a slice outside the image and the depth bound |
| DirectorySearch.FindInSectors | UMDReplaceK/Program.cs:405-463 | the same guarantee for a hit of the scan of sectors `i` to `n - 1`: its chain starts in one of those sectors |
| DirectorySearch.FindInRecords | UMDReplaceK/Program.cs:408-461 | the same guarantee for a hit of the scan of sector `i`: its chain starts at an offset below 2048 of that sector |
| DirectorySearch.FindAt | UMDReplaceK/Program.cs:433-459 | the same guarantee for the visit of one record and the scan after it |
| DirectorySearch.DescendAt | UMDReplaceK/Program.cs:440-455 | the same guarantee when the visited record is a directory: a hit from its extent, with that record put in front of the chain, is a hit of the enclosing sector |
| DirectorySearch.MatchIsHit | UMDReplaceK/Program.cs:456-460 | a file record in sector `i` whose candidate path equals the target up to case is a hit with an empty chain |
| DirectorySearch.DescentKeepsHit | UMDReplaceK/Program.cs:440-452 | a hit under a subdirectory's extended path, with the subdirectory's record put in front of its chain, is a hit of the enclosing extent |
| DirectorySearch.Search | UMDReplaceK/Program.cs:402-467 | a non-zero result is the position of a file record reached from the root extent through directories whose names, with the file's, make up the target up to case; its own name is the target's last component up to case. A fault is never "not found" |
| DirectorySearch.ScanFindsMatch | UMDReplaceK/Program.cs:408-461 | completeness of one sector's scan: when the records from the cursor up to a file record whose path matches the target are `.`/`..` records or other file records, each reached from the one before by its length byte within the sector, the scan reports a hit |
| DirectorySearch.SearchFindsRootMatch | UMDReplaceK/Program.cs:402-467 | completeness of the search for a file named in the root directory: when the root's records, from the first up to a matching file record, are `.`/`..` or other file records, the walk finds a hit and the search returns its position |
| PathTables.ShiftEntry | UMDReplaceK/Program.cs:486-509 | an entry changes if and only if its LBA, read in the table's byte order, exceeds the replaced file's LBA. It then reads `LBA + diff` modulo 2^32 in that byte order, and only its four LBA bytes at +2 change |
| PathTables.ShiftTable | UMDReplaceK/Program.cs:469-511 | the pass over one table changes only the four LBA bytes of the entries it lists, all inside the image, and its only fault is a read past the image. Its list is exactly the entries the reference walk visits whose LBA exceeds the file's old LBA, in order, and every visited entry ends holding its LBA shifted by the delta when above the old LBA and unchanged otherwise (from cursor 0 this holds for every table) |
| PathTables.ShiftTables | UMDReplaceK/Program.cs:285-300 | the loop over the four pointer slots changes only the LBA bytes of the listed path-table entries, all inside the image. When no two listed entries overlap, each passed the test on the starting image and ends holding its old LBA plus the delta in the byte order of its slot (big-endian for slot 2 only). The first slot read with a non-zero pointer has its table walked in full, and that table's list is a prefix of the whole list |
| PathTables.QualifyingSelects | UMDReplaceK/Program.cs:494-508 | every entry of a table's list is one of the entries the walk visits and has an LBA above the file's old LBA |
| PathTables.TablePassMoves | UMDReplaceK/Program.cs:469-511 | a table's pass moved every entry it listed: the entry passed the test and now holds its old LBA plus the delta in the table's byte order |
| PathTables.SelectedMoved | UMDReplaceK/Program.cs:494-508 | where every visited entry holds its shifted LBA, every listed entry holds its old LBA plus the delta |
| PathTables.EntryKept | UMDReplaceK/Program.cs:494-508 | writes to LBA windows four bytes clear of an entry leave its LBA as it was |
| PathTables.TablesJoin | UMDReplaceK/Program.cs:285-300 | one slot's pass followed by the later slots' passes: when no two listed entries overlap, entries of the first pass survive the later writes and entries of the later passes read the original LBA |
| PathTables.EarlierEntrySurvives | UMDReplaceK/Program.cs:285-300 | a moved entry stays moved through later writes four bytes clear of it |
| PathTables.LaterEntryReadsOriginal | UMDReplaceK/Program.cs:285-300 | an entry moved by a later pass read the original LBA when the earlier writes are four bytes clear of it |
| PathTables.EmptySlotsChangeNothing | UMDReplaceK/Program.cs:288-300 | slots whose pointer is 0 are skipped: with no pointer set, the image is unchanged and nothing is rewritten |
| TocUpdate.ShiftRecord | UMDReplaceK/Program.cs:540-559 | a record is rewritten if and only if its LBA is above the file's old LBA, or equal to it with the record placed after the file's record. The rewrite puts `LBA + diff` modulo 2^32 both little-endian at +2 and big-endian at +6, and changes nothing else |
| TocUpdate.OwnShift | UMDReplaceK/Program.cs:540-559 | the visit's own rewrite lists the record, with its ordinal, exactly when it passes the shift test, and keeps the walk's frame and its meaning |
| TocUpdate.EarlierSiblingNotShifted | UMDReplaceK/Program.cs:543-546 | a zero-length sibling sharing the file's LBA and placed before it is not moved |
| TocUpdate.FramedByTrans | UMDReplaceK/Program.cs:518-572 | the frames of successive record rewrites compose |
| TocUpdate.MovedTrans | UMDReplaceK/Program.cs:518-572 | two successive stages that each move their listed records compose: when no two listed records of both overlap, every record listed by either passed the shift test on the first image and ends holding its old LBA plus the delta |
| TocUpdate.Chain | UMDReplaceK/Program.cs:518-572 | joining two stages keeps the frame and the meaning of the log, and the joined log starts with the first stage's log |
| TocUpdate.TocDir | UMDReplaceK/Program.cs:513-521 | the pass over a directory, each sector scanned while the offset is below the directory length, changes only the eight LBA bytes of the records it lists, all inside the image. When no two listed records overlap, each passed the shift test on the starting image and ends holding its old LBA plus the delta in both byte orders. The directory's first record, when it passes the test, is listed first with its ordinal. Its only faults are a slice outside the image and the depth bound |
| TocUpdate.TocDirCorrected | UMDReplaceK/Program.cs:513-521 | the same promises for the walk whose sector scans stop at offset 2048, as the search's do (line 407) |
| TocUpdate.TocSectors | UMDReplaceK/Program.cs:516-573 | the same for the sectors `i` to `n - 1` of an extent, each scanned in the image as patched so far; the first record of sector `i`, when it passes the test, is listed first |
| TocUpdate.TocRecords | UMDReplaceK/Program.cs:521-571 | the same for the scan of one sector from offset `pos`; the record at `pos`, when it passes the test, is listed first |
| TocUpdate.TocVisit | UMDReplaceK/Program.cs:530-570 | the same for the visit of one record and the scan after it; a record that passes the shift test is listed first, with its ordinal |
| TocUpdate.ScanLimit | UMDReplaceK/Program.cs:521 | the corrected scan bound of a sector: the directory length or 2048, whichever is smaller, so it never exceeds either |
| TocUpdate.ScanLimitAsWritten | UMDReplaceK/Program.cs:521 | the bound as written is never below the corrected one and, for a directory longer than a sector, passes the end of the sector |
| TocUpdate.RunOnShiftsNextSector | UMDReplaceK/Program.cs:521-558 | under the bound as written, offset `2048 + q` of sector `i` is offset `q` of sector `i + 1`, so the scan of sector `i` rewrites, first of all, a record of sector `i + 1` that passes the shift test |
| TocUpdate.ShiftTestPassesAgain | UMDReplaceK/Program.cs:543-546 | a record that passed the shift test still passes it, at the same ordinal, after its LBA moved by a positive delta that does not wrap |
| TocUpdate.ScanVisitsDistinct | UMDReplaceK/Program.cs:523-528 | offsets below 2048 in distinct (sector, offset) pairs address distinct bytes while the addresses stay below 2^32, so a scan bounded by the corrected limit never reaches the same record from two sectors |
| Replacement.SectorDelta | UMDReplaceK/Program.cs:212 | the delta is an `int` congruent modulo 2^32 to the difference of the new and old sector counts |
| Replacement.SectorDeltaExact | UMDReplaceK/Program.cs:212 | for sector counts below 2^21, the `uint` difference reinterpreted as `int` is the true signed difference |
| Replacement.Locate | UMDReplaceK/Program.cs:176-212 | a located plan carries the descriptor's total, root LBA and root length, and a non-zero record position of a file reached from the root through the target's path up to case. It also carries that record's old size and LBA, the payload size, sector counts covering both sizes, and the signed delta. An empty name fails, and a search result of 0 is "not found" |
| Replacement.Splice | UMDReplaceK/Program.cs:244-250 | an empty payload splices nothing and leaves the image as it is |
| Replacement.PatchSize | UMDReplaceK/Program.cs:252-267 | when the size changed, the record's size field, at the pre-splice position, reads the payload size little-endian at +10 and big-endian at +14. Nothing else changes, and nothing at all when the size is the same |
| Replacement.StagesCompose | UMDReplaceK/Program.cs:244-306 | the size-patch frame and the propagation frame compose into the frame of the write phase |
| Replacement.Propagate | UMDReplaceK/Program.cs:269-306 | the propagation keeps the length. It changes only the descriptor total and the logged path-table and record LBA bytes. The total reads `imageSectors + diff` modulo 2^32 in both byte orders unless a later logged write lands on it. When the logged windows are apart and clear of the total, every logged path-table entry and directory record passed its test on the size-patched image and holds its old LBA plus the delta. When path-table slot 0 holds a pointer, the list of that table's pass, exactly the entries the reference walk visits above the old LBA, is a prefix of the logged path-table entries |
| Replacement.PropagationStages | UMDReplaceK/Program.cs:269-306 | the descriptor write, the path-table passes and the TOC pass compose into the frame and the total value of the propagation |
| Replacement.PropagationMoves | UMDReplaceK/Program.cs:269-306 | the path-table passes and the TOC pass compose into the moves of the propagation: entries survive the record writes, and records read the LBA the path-table passes left, which is the original one |
| Replacement.EntryThroughRecords | UMDReplaceK/Program.cs:285-300 | a moved path-table entry stays moved through record writes clear of its LBA |
| Replacement.RecordThroughTables | UMDReplaceK/Program.cs:302-305 | a record moved by the TOC pass read the LBA the propagation started from when the path-table writes are clear of it |
| Replacement.MovesBeforeFields | UMDReplaceK/Program.cs:252-283 | the moves carry back over the size and total writes, which the logged windows miss |
| Replacement.EntryBeforeFields | UMDReplaceK/Program.cs:252-283 | a moved entry read the same LBA before the size and total writes |
| Replacement.RecordBeforeFields | UMDReplaceK/Program.cs:252-283 | a moved record read the same LBA before the size and total writes |
| Replacement.Finish | UMDReplaceK/Program.cs:269-306 | the writes after the size patch touch only the allowed fields, and only the descriptor total and logged LBA bytes relative to the size-patched image; with a zero delta there are none. When the logged windows are apart and clear of the size field and the total, every logged entry and record passed its test on the spliced image and holds its old LBA plus the delta |
| Replacement.Apply | UMDReplaceK/Program.cs:244-306 | a successful write phase needs a successful splice. It changes the spliced image only in the size field (when the size changed), the descriptor total (when the delta is not zero) and the logged LBA fields. With a zero delta neither propagation pass runs. Every logged entry and record moved, relative to the spliced image, as for `Replacement.Finish` |
| Replacement.ApplyIsFinish | UMDReplaceK/Program.cs:244-306 | the write phase is the splice, then the size patch, then the propagation |
| Replacement.FinishSetsSize | UMDReplaceK/Program.cs:252-306 | when the size changed, the record's size field still holds the payload size in both byte orders after the propagation, unless a logged write lands on it or, with a non-zero delta, the descriptor total overlaps it |
| Replacement.ApplySetsSize | UMDReplaceK/Program.cs:244-306 | the same for the whole write phase |
| Replacement.ReplaceSetsSize | UMDReplaceK/Program.cs:159-309 | the same for a whole replacement, for the record `Locate` found: its size field held a different size before and holds the payload length after |
| Replacement.PropagateSetsTotal | UMDReplaceK/Program.cs:269-283 | with a non-zero delta the descriptor total reads `imageSectors + diff` modulo 2^32 in both byte orders after the propagation, unless a logged write lands on it |
| Replacement.FinishSetsTotal | UMDReplaceK/Program.cs:269-283 | the same for the writes after the size patch |
| Replacement.ApplySetsTotal | UMDReplaceK/Program.cs:269-283 | the same for the whole write phase |
| Replacement.Replace | UMDReplaceK/Program.cs:159-309 | a successful replacement located the file and spliced successfully. It then differs from the spliced image only in the allowed fields, and with a zero delta it rewrites no path-table entry and no record. When the logged windows are apart and clear of the size field and the total, every logged path-table entry and directory record passed its test on the spliced image and holds its old LBA plus the delta |
| Replacement.ReplaceIsApply | UMDReplaceK/Program.cs:159-309 | a successful replacement is the write phase applied to the located plan, whose counts come from the sizes it read |
| Replacement.SplicedLength | UMDReplaceK/Program.cs:244-250 | an empty payload keeps the image length while the delta is minus the old sector count; otherwise, without wrap-around, the length changes by 2048 times the delta |
| Replacement.ReplaceLength | UMDReplaceK/Program.cs:183-250 | the same length statement for a whole replacement |
| Replacement.SameSectorCountKeepsLayout | UMDReplaceK/Program.cs:244-306 | a payload with as many sectors as the old file keeps the image length and runs neither propagation pass |
| Batch.Run | UMDReplaceK/Program.cs:100-113 | the running delta is the starting delta plus the change in image length, and the flag is sticky. After at least one step, a non-zero delta has raised the flag |
| Batch.RunMatchesTrace | UMDReplaceK/Program.cs:100-113 | the loop succeeds exactly when every step does, ends with the last step's image, and ends with the flag raised exactly when it started raised or the running delta was non-zero after some step |
| Batch.FlagStep | UMDReplaceK/Program.cs:108-112 | one step of the flag: a flag that is raised exactly when the flag after this step or the running delta after some later step says so is raised exactly when the starting flag was, or the running delta was non-zero after this step or a later one |
| Batch.ReplaceAll | UMDReplaceK/Program.cs:100-113 | over a whole batch of replacements, the reported delta is the change in image length, and a non-zero delta raises the flag |
| Batch.UnchangedLengthsRaiseNoFlag | UMDReplaceK/Program.cs:100-113 | if every intermediate image keeps the starting length, the flag stays clear |

## Left out

- Argument parsing, batch-file reading and usage text are not modelled. The requests are a
  parameter of `Batch.ReplaceAll`.
- File I/O is not modelled. The image and each payload are parameters, and the output image
  is the result.
- Exit codes and console messages are not modelled. "File not found" is `Err(NotFound)`; the
  other runtime exceptions are the faults listed above.
- The commented-out temporary-file block in `Replace` is dead code, and the unused
  constants and the `mode` field are not modelled.
- .NET culture semantics are not modelled: `InvariantCultureIgnoreCase` is modelled as ASCII
  upper-case folding. Non-ASCII case pairs and characters the culture comparison ignores
  (such as NUL) are out of scope.
- Recursion depth: `Search` and `TOC` recurse without a bound. The model takes a `fuel`
  depth and fails with `DepthExhausted` when it runs out, so an image nested deeper than the
  fuel, or a self-referencing one, is reported as a fault rather than looping.
- The `uint` loop cursors of `PathTable` and `TOC` are unbounded naturals here. The program's
  cursor would wrap only by passing 2^32 while still below the loop bound `len`. The stride is
  at most 8 + 255 + 1 = 264 bytes for `PathTable` and at most 255 for `TOC`, so this needs
  `len` above 2^32 - 264 or 2^32 - 255. Every entry the cursor reaches has been read at
  `base + pos` below the image length, which is below 2^31, so for a table whose base does not
  wrap the cursor stays below 2^31 and cannot wrap.
- The root directory record inside the descriptor (offset 156) is not shifted by the program,
  and the model does not shift it either.
- DirectorySearch.Search: uses the stripped name to build candidate paths, where the program
  decodes the whole buffer (see "Findings"), so a versioned name is found here and not by the
  program.
- DirectorySearch.Search: does not state that a matching file present anywhere in the tree
  is found, nor that the first match in depth-first order is returned. Completeness fails
  anyway when the depth bound or the scan's `pos + 4` length test cuts the walk short, and
  "first" needs a depth-first enumeration of the tree that the model does not define apart
  from the walk. `DirectorySearch.SearchFindsRootMatch` states completeness for a file named
  in the root whose earlier records are plain.
- DirectorySearch.FindInDir: has the same two gaps as `DirectorySearch.Search`, for the same
  reason; completeness is stated only by `DirectorySearch.ScanFindsMatch`.
- DirectorySearch.FindInSectors: has the same two gaps as `DirectorySearch.Search`, for the
  same reason.
- DirectorySearch.FindInRecords: has the same two gaps as `DirectorySearch.Search`, for the
  same reason; `DirectorySearch.ScanFindsMatch` covers a sector whose records before the
  match are `.`/`..` or file records.
- DirectorySearch.FindAt: has the same two gaps as `DirectorySearch.Search`, for the same
  reason.
- DirectorySearch.DescendAt: has the same two gaps as `DirectorySearch.Search`, for the same
  reason.
- Replacement.Locate: inherits both gaps of `DirectorySearch.Search`.
- PathTables.ShiftTables: states that the listed entries moved only when no two listed
  entries overlap. Each pass re-reads its pointer and the table length from the image the
  earlier passes patched, and two slots may name the same table, which is then shifted twice.
  That every entry above the old LBA is listed is stated only for the first slot read with a
  non-zero pointer; the per-table promise is `PathTables.ShiftTable`'s.
- TocUpdate.TocDir: states that every listed record was shifted only when no two listed
  records overlap. A record reached twice (a directory extent listed by two records, or
  extents that overlap) is rewritten twice, and excluding that needs a notion of a
  well-formed directory tree that the model does not define. It does not state that every
  record of the tree above the old LBA is listed, beyond the directory's first record, for
  the same reason.
- TocUpdate.TocDirCorrected: has the same two gaps as `TocUpdate.TocDir`.
- TocUpdate.TocSectors: has the same two gaps as `TocUpdate.TocDir`.
- TocUpdate.TocRecords: has the same two gaps as `TocUpdate.TocDir`.
- TocUpdate.TocVisit: has the same two gaps as `TocUpdate.TocDir`.
- Replacement.Propagate: states the moved LBAs only when no two logged windows overlap and
  none meets the descriptor total, and the total only when no logged write lands on it; a
  malformed image could place one there. Like `PathTables.ShiftTables` and
  `TocUpdate.TocDir`, it does not state that every entry and record above the old LBA is
  logged.
- Replacement.Finish: has the same gaps as `Replacement.Propagate`, and also needs the
  logged windows clear of the size field.
- Replacement.Apply: has the same gaps as `Replacement.Finish`. The size and total values
  are stated by `Replacement.ApplySetsSize` and `Replacement.ApplySetsTotal` under their
  conditions.
- Replacement.Replace: has the same gaps as `Replacement.Finish`. The size value is stated
  by `Replacement.ReplaceSetsSize`. No round trip across two replacements is stated,
  because a second replacement re-reads record positions that the first one may have moved.
- Replacement.ApplySetsTotal: holds only when no path-table or record write lands on the
  descriptor total.
- Replacement.FinishSetsSize: holds only when no logged write lands on the size field and,
  with a non-zero delta, the size field does not overlap the descriptor total.

## Findings

| source | as written | input that shows it | evidently intended | confidence | as-written member | corrected member |
|---|---|---|---|---|---|---|
| UMDReplaceK/Program.cs:426-433 | the `;1` discard shortens `nChars` and overwrites the ';' with NUL, but `GetString` decodes the whole buffer, so the candidate path of `A.BIN;1` is `/A.BIN`, NUL, `1` | a record named `A.BIN;1` and the request `/A.BIN` (or `/A.BIN;1`): no candidate equals the target, so the search reports "not found" | the candidate path is built from the stripped name, `/A.BIN`, as the comment "discard the ';1' final" says | medium, not executed | Names.DecodeNameAsWritten (Names.AsWrittenDecodingMissesVersionedNames, Names.VersionedNameExample) | Names.DecodeName (Names.DecodeNameStripsVersion), used by DirectorySearch.Search |
| UMDReplaceK/Program.cs:521 | the TOC scan of sector `i` runs while `pos < len`, the length of the whole directory, so in a directory longer than one sector a scan that reaches the end of a full sector goes on at offset 2048, which is the first record of sector `i + 1` | a 4096-byte directory whose sector-0 records end exactly at byte 2048 and whose first sector-1 record has an LBA above the file's: the scan of sector 0 rewrites that record first, at the ordinal the scan of sector 1 uses; with a positive delta that does not wrap, the rewritten LBA passes the test again, so the scan of sector 1 rewrites it a second time | each sector is scanned only up to its own end, as `Search` bounds its scan by `sectorData` (line 407) | medium, not executed | TocUpdate.TocDir with TocUpdate.ScanLimitAsWritten (TocUpdate.RunOnShiftsNextSector, TocUpdate.ShiftTestPassesAgain) | TocUpdate.TocDirCorrected with TocUpdate.ScanLimit (TocUpdate.ScanVisitsDistinct) |
