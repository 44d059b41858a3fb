# NtfsReader MFT scan, modelled in Dafny

This project models the core of NtfsReader. NtfsReader enumerates every file of an NTFS volume
by reading the volume's Master File Table ($MFT) directly instead of walking directories.
The model covers:

- **Boot sector.** It is decoded into the volume geometry (`InitializeDiskInfo`).
- **Update-sequence fixup.** The fixup runs on every FILE record before the record is trusted
  (`FixupRawMftdata`).
- **Run lists.** They are decoded into fragments: LCN/VCN pairs, with sparse runs marked as
  virtual fragments (`ProcessRunLength`, `ProcessRunOffset`, `ProcessFragments`).
- **Attribute walk.** It turns one FILE record into a node, its streams, its name and its
  timestamps (`ProcessAttributes`, `ProcessMftRecord`).
- **Scan of the $MFT.** It reads the $MFT's own record, then the in-use bitmap
  (`ProcessBitmapData`), then the remaining records chunk by chunk along the $MFT's fragments
  (`ReadNextChunk`, `ProcessMft`).
- **Name table.** It interns names (`GetNameIndex`, `GetNameFromIndex`).
- **Full path.** It is assembled by walking parent links up to the root directory, record 5
  (`GetNodeFullNameCore`).
- **Query layer.** `NodeWrapper` and `StreamWrapper` sit on the finished tables, and
  `AggregateByFragments` / `AggregateBySize` group nodes by fragment count or size.

How the code is modelled:

- **Arithmetic.** Integers are unbounded in Dafny, so every C# `uint`/`ulong` wrap is written out
  (`Wrap32`, `Wrap64`, `Add64`, `Sub64`, `Mul64`), except the `uint` sum of attribute offset and
  length in the attribute loop. That sum is modelled as written only in `Records.AdvanceAsWritten`;
  the attribute walk uses the unwrapped check (see "## Findings"). Signed LCN/VCN values are 64-bit patterns
  added modulo 2^64.
- **Unchecked reads.** Every place where the source reads through a pointer without a bounds
  check becomes an explicit check. It fails with `OutOfBounds` for a read past the data, or
  `Overrun` for a write past a buffer or past the 8-byte run-field local.
- **Mutable state.** The reader is a class (`Reader.NtfsReader`) whose fields are the tables the
  scan fills. Streams are objects updated in place (`Structures.Stream`). Loops are `while` loops
  with invariants, each proved against a function on values. The properties are proved about
  those functions.

Where the code and the reader's documentation disagree, the model follows the code:

- **Name index 0 is not reserved.** The first name interned gets index 0, and `GetNameFromIndex`
  then reads it back as null (`Names.FirstNameReadsAsNull`).
- **Two timestamps are swapped.** `StandardInformation` is built positionally with the record's
  FileChangeTime and LastAccessTime (NtfsReader.cs:403-408). As a result, the `LastAccessTime`
  slot holds the change time and `LastChangeTime` holds the access time. The model keeps that
  assignment.

Modules: `Common`, `Bytes`, `Structures`, `Names`, `Geometry`, `Fixup`, `FixupProperties`,
`Runs`, `Records`, `RecordProperties`, `Scan`, `Reader`, `Paths`, `Views`, `Aggregation`.

## Model

| member | source | states |
|---|---|---|
| Names.Intern | src/NtfsReader/NtfsReader.cs:43-52 | the index returned names the requested string; the table only grows, by at most one entry, and stays the same exactly when the name was already present |
| Names.InternIdempotent | src/NtfsReader/NtfsReader.cs:43-52 | asking for the same name twice gives the same index and the same table as asking once |
| Names.InternKeepsUnique | src/NtfsReader/NtfsReader.cs:43-52 | a table without duplicates stays without duplicates |
| Names.InternKeepsIndices | src/NtfsReader/NtfsReader.cs:43-52 | every index handed out earlier still names the same string |
| Names.NameFromIndex | src/NtfsReader/NtfsReader.cs:57-58 | the lookup succeeds exactly for index 0 or an index inside the table, and a non-null result is a name of the table |
| Names.InternThenLookup | src/NtfsReader/NtfsReader.cs:43-58 | a name interned at a non-zero index reads back as itself |
| Names.FirstNameReadsAsNull | src/NtfsReader/NtfsReader.cs:43-58 | the first name interned receives index 0, and that index reads back as null |
| Reader.NtfsReader.constructor | src/NtfsReader/NtfsReader.cs:20-27 | a new reader holds the given disk and mode, an empty name table with its index, and no tables |
| Reader.NtfsReader.GetNameIndex | src/NtfsReader/NtfsReader.cs:43-52 | the dictionary-backed method returns the index and leaves the table that `Intern` specifies, and keeps the dictionary in step with the list |
| Geometry.BootSectorRoundTrip | src/NtfsReader/Structures/BootSector.cs:6-18 | parsing the bytes of any boot sector written at the struct's field offsets gives back that boot sector |
| Geometry.DecodeDiskInfo | src/NtfsReader/NtfsReader.cs:155-177 | decoding succeeds exactly when the signature is "NTFS    " |
| Geometry.DecodeEncodedBootSector | src/NtfsReader/NtfsReader.cs:155-177 | a boot sector with the wrong signature is refused; otherwise the geometry copies its fields, gives bytes per cluster as the product, and gives total clusters as the floor of sectors over sectors per cluster (0 when that is 0) |
| Geometry.NegativeClustersPerRecord | src/NtfsReader/NtfsReader.cs:169-170 | a ClustersPerMftRecord byte of 193..255 means a record of 2^(256 - v) bytes; 0xF6 gives 1024 |
| Geometry.ShiftCountMasked | src/NtfsReader/NtfsReader.cs:169-170 | for 0x80 and 0xC0 the shift count wraps to 0 in the 64-bit shift, so the record size is 1 |
| Geometry.PositiveClustersPerRecord | src/NtfsReader/NtfsReader.cs:171-172 | a value below 128 counts clusters: the record size is v times the bytes per cluster |
| Geometry.TotalClusters | src/NtfsReader/NtfsReader.cs:176-177 | the total is the floor of sectors over sectors per cluster, and 0 when sectors per cluster is 0 |
| Reader.NtfsReader.InitializeDiskInfo | src/NtfsReader/NtfsReader.cs:145-181 | it fails with IoError when the disk is shorter than a boot sector and with InvalidFormat on a bad signature; otherwise the stored geometry is the decoded boot sector |
| Fixup.FixupRawMftdata | src/NtfsReader/NtfsReader.cs:186-214 | the record bytes and the outcome are those of `FixupSpec` on the old bytes, and nothing else in the buffer changes |
| Fixup.FixupSectors | src/NtfsReader/NtfsReader.cs:193-213 | the sector loop leaves the record and outcome `FixupWords` gives from sector 1 and word increment - 1, and leaves the rest of the buffer alone |
| Fixup.FixupWordsStops | src/NtfsReader/NtfsReader.cs:200-204 | the loop passes after the last slot, fails with UsaDataMissing when the word index lies past the record, and fails with OutOfBounds when only half the word fits |
| Fixup.FixupWordsMismatch | src/NtfsReader/NtfsReader.cs:207-208 | a sector whose last word is not USA[0] stops the loop with BadFixupSignature and the record as it then stands |
| FixupProperties.TailWordClosedForm | src/NtfsReader/NtfsReader.cs:196-212 | the word the loop inspects for sector k is the last word of that sector, at byte k * BytesPerSector - 2 |
| FixupProperties.FixupCharacterized | src/NtfsReader/NtfsReader.cs:186-214 | on a FILE record with a well-placed array, the fixup restores the saved words of the sectors before the first torn one, and passes exactly when no sector is torn |
| FixupProperties.FixupTouchesOnlyTails | src/NtfsReader/NtfsReader.cs:200-213 | every byte the fixup changes lies in the last word of a sector |
| FixupProperties.FixupUndoesWriter | src/NtfsReader/NtfsReader.cs:200-213 | a record as a writer leaves it passes, and the fixup gives back the original contents outside the array, whatever the writer chose for everything else |
| FixupProperties.FixupUndoesProtect | src/NtfsReader/NtfsReader.cs:200-213 | the fixup inverts the writer's protection (`Protect`) on every byte outside the array, and passes |
| FixupProperties.FixupRefusesMismatch | src/NtfsReader/NtfsReader.cs:206-208 | any sector whose last word differs from USA[0] makes the fixup fail with BadFixupSignature |
| FixupProperties.FixupDetectsTornSector | src/NtfsReader/NtfsReader.cs:206-208 | changing any byte of any sector's last word in a record a writer protected makes the fixup fail |
| FixupProperties.FixupDetectsTornWrite | src/NtfsReader/NtfsReader.cs:206-208 | the same for a record produced by `Protect` |
| Runs.ReadFieldClosedForm | src/NtfsReader/NtfsReader.cs:224-230 | a run field is read without error exactly when it has at most 8 bytes and ends before the run data's last byte, and it is then the bytes at the index |
| Runs.ReadFieldInSpan | src/NtfsReader/NtfsReader.cs:224-230 | when the run data lies inside the buffer, a field read never reads past the buffer |
| Runs.ProcessRunLength | src/NtfsReader/NtfsReader.cs:219-233 | the byte loop computes the length field that `RunLengthSpec` specifies, errors included |
| Runs.RunLengthValue | src/NtfsReader/NtfsReader.cs:219-233 | a run length read without error is the unsigned little-endian value of its bytes, and 0 for an empty field |
| Runs.ProcessRunOffset | src/NtfsReader/NtfsReader.cs:238-258 | the byte loop computes the offset field that `RunOffsetSpec` specifies, errors included |
| Runs.RunOffsetValue | src/NtfsReader/NtfsReader.cs:238-258 | a run offset read without error is the sign-extended little-endian value of its bytes as a 64-bit pattern, and 0 for an empty field |
| Runs.ReadFieldInto | src/NtfsReader/NtfsReader.cs:221-230 | the 8-byte local holds the field's bytes followed by zeros, with the index past the field, or the read's error |
| Runs.OffsetImageValue | src/NtfsReader/NtfsReader.cs:252-255 | filling the high bytes with 0xFF when the top bit is set makes the 64-bit pattern the field's two's-complement value |
| Runs.SignedLeBounds | src/NtfsReader/NtfsReader.cs:252-255 | a field is negative exactly when its last byte has the top bit set, and it lies in the signed range of its width |
| Runs.SignPadValue | src/NtfsReader/NtfsReader.cs:252-255 | padding with the sign byte adds 2^(8n) to a negative value and nothing to a positive one |
| Runs.ReadRun | src/NtfsReader/NtfsReader.cs:637-650 | one run header with its two fields is decoded as `NextRun` specifies |
| Runs.ProcessFragments | src/NtfsReader/NtfsReader.cs:620-669 | the stream gains one fragment per decoded run and the real clusters of those runs, its size is untouched, and a malformed run list fails with the decoder's error |
| Runs.FragmentAt | src/NtfsReader/NtfsReader.cs:652-667 | fragment k ends at the starting VCN plus the first k+1 lengths, and lies at the sum of the first k+1 offsets, or is virtual when its offset is 0, all modulo 2^64 |
| Runs.RunsSnoc | src/NtfsReader/NtfsReader.cs:652-667 | appending a run appends exactly one fragment and advances LCN, VCN and cluster count by that run |
| Runs.ClustersAfterSum | src/NtfsReader/NtfsReader.cs:659-660 | the cluster count grows by the lengths of the runs with a non-zero offset, modulo 2^64 |
| Runs.DecodeEncodedRuns | src/NtfsReader/NtfsReader.cs:637-668 | decoding the encoding of any run list, followed by the 0 terminator, gives back that run list |
| Runs.DecodeEncodedRunList | src/NtfsReader/NtfsReader.cs:637-668 | the same at the start of a run buffer, whatever follows the terminator |
| Records.Advance | src/NtfsReader/NtfsReader.cs:353-365 | an attribute that is accepted lies inside the data, is at least 3 bytes long, and its successor starts exactly Length bytes later |
| Records.AdvanceAgreesBelowWrap | src/NtfsReader/NtfsReader.cs:353-365 | whenever offset + Length does not wrap in 32 bits, the check as written and the corrected check agree |
| Records.AsWrittenNeverEnds | src/NtfsReader/NtfsReader.cs:353-365 | with the 32-bit sum as written, the looping attribute pair brings the offset back to 0 after every two steps, forever |
| Records.LoopingAttributesRejected | src/NtfsReader/NtfsReader.cs:363-365 | the corrected check accepts the first attribute and refuses the second as CorruptAttribute |
| Records.AsWrittenEndsInsideHeader | src/NtfsReader/NtfsReader.cs:353-365 | with the 32-bit sum as written, the backwards attribute pair sends the offset back into the first header, whose bytes read as the end marker, and the loop ends as if the record were well formed |
| Records.BackwardsAttributesRejected | src/NtfsReader/NtfsReader.cs:363-365 | the corrected check accepts the first attribute of that pair and refuses the second as CorruptAttribute |
| Records.FindStream | src/NtfsReader/NtfsReader.cs:63-64 | the first stream with the given type and name index, or none when no stream has them |
| RecordProperties.FindOrAddKeeps | src/NtfsReader/NtfsReader.cs:433-442 | find-or-create adds at most one stream, at the end; it changes no other stream, keeps a found stream's fragments, and keeps the (type, name) keys unique |
| RecordProperties.FileNameKeeps | src/NtfsReader/NtfsReader.cs:383-395 | a FileName attribute keeps the walk's invariants: names only grow, name indices stay valid, streams are untouched |
| RecordProperties.StandardInfoKeeps | src/NtfsReader/NtfsReader.cs:397-410 | a StandardInformation attribute only adds attribute flags, and records timestamps only when the mode asks for them |
| RecordProperties.NonresidentKeeps | src/NtfsReader/NtfsReader.cs:417-455 | a nonresident attribute keeps the walk's invariants |
| RecordProperties.AttributeStreamKeeps | src/NtfsReader/NtfsReader.cs:425-454 | registering a stream keeps keys unique and name indices valid, and adds fragments only when the mode or the $MFT record asks for them |
| RecordProperties.StreamNameKeeps | src/NtfsReader/NtfsReader.cs:428-430 | reading a stream name only grows the name table, keeps it without duplicates, and yields a valid index |
| RecordProperties.EffectKeeps | src/NtfsReader/NtfsReader.cs:377-455 | each attribute, resident or not, keeps the walk's invariants |
| RecordProperties.WalkFromKeeps | src/NtfsReader/NtfsReader.cs:353-456 | the whole attribute loop keeps the walk's invariants |
| RecordProperties.WalkFromStops | src/NtfsReader/NtfsReader.cs:353-365 | the loop ends at the end of the data or at the end marker, and fails with the header check's or the attribute's error |
| RecordProperties.AttributesKeeps | src/NtfsReader/NtfsReader.cs:350-498 | the walk keeps its invariants, and with streams the node's size is the first stream's size |
| RecordProperties.MftRecordSkips | src/NtfsReader/NtfsReader.cs:680-691 | a record is skipped exactly when it is not a FILE record, is not in use, or is an extension record (non-zero base inode) |
| RecordProperties.MftRecordCorrupt | src/NtfsReader/NtfsReader.cs:693-697 | an attribute offset or a bytes-in-use count past the record is refused as CorruptRecord |
| RecordProperties.MftRecordResult | src/NtfsReader/NtfsReader.cs:699-705 | a processed record only grows the name table; it marks the node a directory when the record's directory flag is set; its streams and timestamps appear only when the mode asks for them; and it is well formed |
| RecordProperties.LoopingAttributesFail | src/NtfsReader/NtfsReader.cs:353-365 | the corrected walk over the looping attribute pair ends with CorruptAttribute |
| RecordProperties.BackwardsAttributesFail | src/NtfsReader/NtfsReader.cs:353-365 | the corrected walk over the backwards attribute pair ends with CorruptAttribute |
| Reader.SearchStream | src/NtfsReader/NtfsReader.cs:63-64 | the index of the first stream with the given type and name, or none when no stream has them |
| Reader.SearchStreamOfType | src/NtfsReader/NtfsReader.cs:60-61 | the index of the first stream of the given type, or none when there is none |
| Reader.NtfsReader.ReadFile | src/NtfsReader/NtfsReader.cs:70-79 | a read of the 32-bit truncated length copies exactly those disk bytes into the buffer; otherwise it fails with Overrun (buffer too small) or IoError (short read) and leaves the buffer alone |
| Reader.NtfsReader.ProcessBitmapData | src/NtfsReader/NtfsReader.cs:713-752 | without a $BITMAP stream the scan fails; otherwise the bitmap is `Bitmap`: a zeroed buffer of the summed size, filled by the reads of the stream's real fragments |
| Reader.NtfsReader.FillBitmap | src/NtfsReader/NtfsReader.cs:729-749 | the read loop performs exactly the planned reads in order, and stops at the first failure |
| Reader.SumBitmap | src/NtfsReader/NtfsReader.cs:715-725 | the size loop computes `BitmapSize`: the bytes of the real fragments, sparse ones skipped |
| Scan.BitmapReadsTile | src/NtfsReader/NtfsReader.cs:734-748 | the planned reads tile the bitmap buffer: each starts where the previous ended, from 0 to the summed size |
| Scan.PerformCopies | src/NtfsReader/NtfsReader.cs:738-742 | a read copies its disk range into its buffer range and changes nothing else |
| Scan.MaxInode | src/NtfsReader/NtfsReader.cs:789-791 | the record count is the smaller of the bitmap's bits and the $MFT data size in records (32-bit) |
| Scan.MaxInodeHasBits | src/NtfsReader/NtfsReader.cs:789-819 | every record below that count has its bit inside the bitmap, so the in-use test never reads past it |
| Reader.NtfsReader.ReadNextChunk | src/NtfsReader/NtfsReader.cs:84-140 | it fails on a zero record size; otherwise it runs the search as written from the given fragment index and `Vcn`/`RealVcn`, hands back the `Vcn`/`RealVcn` it ends with, returns false past the last fragment, clamps the chunk end to the buffer, the stream size and the fragment's end, and reads the chunk from that fragment's position on disk |
| Reader.FindChunk | src/NtfsReader/NtfsReader.cs:101-125 | the fragment loop computes the search as written, `FindAsWritten` |
| Reader.SkipSparse | src/NtfsReader/NtfsReader.cs:114-124 | the do-while computes `SkipAsWritten`: it passes the fragment fetched by the enclosing loop once if that one is real, and again and again to the end of the list if it is sparse |
| Scan.FindAsWrittenFound | src/NtfsReader/NtfsReader.cs:101-128 | the search as written never moves back; when it finds a fragment, that fragment ends past the record and `u1` is its end |
| Scan.RestartWithoutSparse | src/NtfsReader/NtfsReader.cs:811-827 | without sparse fragments, restarting the search of NtfsReader.cs:104-125 at fragment 0 with the kept `Vcn`/`RealVcn` stops on the same cursor with the same `u1` as continuing from the fragment found for the previous record, and the condition carries over to the next, later record |
| Scan.RestartFromAccounted | src/NtfsReader/NtfsReader.cs:104-125 | the restart from fragment 0 catches up with the cursor of fragment k when every fragment before k ends at or before the record |
| Scan.FindIntendedPassesEnded | src/NtfsReader/NtfsReader.cs:104-112 | without sparse fragments, every fragment the search passes ends at or before the record |
| Reader.NtfsReader.PerformRead | src/NtfsReader/NtfsReader.cs:137 | a chunk read leaves the buffer `Perform` specifies, or fails and leaves it alone |
| Scan.SkipIntendedAccounts | src/NtfsReader/NtfsReader.cs:114-124 | after skipping, the cursor counts exactly the clusters of the fragments passed, lands on a real fragment or the end, and passes only sparse fragments after the first |
| Scan.FindIntendedAccounts | src/NtfsReader/NtfsReader.cs:104-125 | the search stops at a fragment whose end record lies past the requested one, with the cursor accounting for every fragment before it |
| Scan.AsWrittenWithoutSparse | src/NtfsReader/NtfsReader.cs:104-125 | on an $MFT without sparse fragments the search as written and the corrected one agree |
| Scan.SparseMftAsWritten | src/NtfsReader/NtfsReader.cs:114-124 | as written, the search for record 4 of the sparse example stops on the sparse fragment |
| Scan.SparseMftAsWrittenGivesUp | src/NtfsReader/NtfsReader.cs:104-128 | as written, with the fragment index passed by value, the search for record 9 runs off the end of the list and the scan stops |
| Scan.SparseMftIntended | src/NtfsReader/NtfsReader.cs:104-125 | the corrected search finds the real fragment after the sparse one for both records |
| Scan.ChunkLimit | src/NtfsReader/NtfsReader.cs:96-99 | the chunk ends at the buffer's capacity in records or at eight times the data size, whichever is smaller |
| Scan.ChunkEnd | src/NtfsReader/NtfsReader.cs:96-131 | the chunk also ends no later than the end of the fragment, and is one of the three bounds |
| Scan.ChunkPositionInFragment | src/NtfsReader/NtfsReader.cs:133-135 | the disk position is the fragment's byte on the volume plus the record's offset, once the real clusters before the fragment are accounted for |
| Reader.ScanFactsStore | src/NtfsReader/NtfsReader.cs:856-859 | storing one in-use record's node, timestamps and streams keeps the scan's table invariants |
| Reader.NtfsReader.ProcessMft | src/NtfsReader/NtfsReader.cs:757-864 | a failure in reading, fixing up or interpreting the $MFT's own record (`ReadMftSpec` on the zeroed buffer) is the error returned, and a skipped $MFT record gives `UninterpretableMft`; on success the tables satisfy the scan's invariants (`ScanFacts`), names only grew, and tables the mode does not ask for are left untouched |
| Reader.NtfsReader.ScanMft | src/NtfsReader/NtfsReader.cs:781-862 | the four early exits: the bitmap's failure (`MissingBitmap` without `$BITMAP`) passed through, `NullReference` without a `$DATA` stream, `DivisionByZero` for a zero record size, `IndexOutOfRange` for no records; the bitmap stored is `Bitmap` of the `$BITMAP` stream; on success the tables satisfy `ScanFacts`, names only grew, and the tables the mode does not ask for are untouched |
| Reader.NtfsReader.AllocateTables | src/NtfsReader/NtfsReader.cs:789-804 | one node slot per record with the $MFT's node first and every other slot the empty node, the timestamp table (when asked) keeping the $MFT's entry first and zero timestamps after it, and the stream table (when asked) with no stream list in any slot |
| Reader.NtfsReader.ReadMftRecord | src/NtfsReader/NtfsReader.cs:767-779 | passes exactly when `ReadMftSpec` (the load, then `MftRecord` with all streams and `$MFT` handling) yields a walk; its error is the one returned, and a skipped record gives `UninterpretableMft`; on success the buffer holds the fixed-up $MFT record read from cluster `MftStartLcn`, and the $MFT's node, the grown name table, its stream values and its first timestamp slot are exactly that walk's |
| Reader.NtfsReader.LoadMftRecord | src/NtfsReader/NtfsReader.cs:767-771 | passes exactly when `LoadedMftRecord` succeeds, else returns its error (`Overrun` when the buffer is too short, `IoError` when the disk is, or the fixup's error); on success the buffer's first `BytesPerMftRecord` bytes are the fixup of the bytes read at the $MFT's first cluster, the read length taken as a `uint` |
| Reader.NtfsReader.ScanRecords | src/NtfsReader/NtfsReader.cs:806-860 | on success the record loop keeps the scan's invariants, the size of the node table and the $MFT's node in slot 0, and leaves the tables the mode does not ask for untouched |
| Reader.NtfsReader.ScanRecord | src/NtfsReader/NtfsReader.cs:838-859 | fixing up and interpreting one in-use record fails exactly when `ScannedRecord` (fixup, then `MftRecord` without `$MFT` handling) fails, with its error; the buffer holds the fixed-up record there and is unchanged outside it; on success the tables are as `Stores` says: unchanged for a record passed over, else the node in slot `nodeIndex`, the grown names, its standard information and (when asked) its streams stored there; other slots and the scan's invariants kept |
| Reader.WithStreams | src/NtfsReader/NtfsReader.cs:858-859 | storing a record's streams keeps the table's presence and length, puts the list in that slot and leaves every other slot |
| Reader.NtfsReader.InterpretRecord | src/NtfsReader/NtfsReader.cs:843-859 | fails exactly when `MftRecord` of the record fails, with its error; the record is taken exactly when `MftRecord` yields a walk, and then the node, names, streams and standard information are that walk's; a skipped record changes nothing, a taken one keeps the table invariants |
| Reader.NtfsReader.NextAttribute | src/NtfsReader/NtfsReader.cs:353-365 | the header checks of the loop compute `Advance`: None at the end marker, CorruptAttribute or OutOfBounds for a bad header, else the next offset |
| Reader.NtfsReader.ProcessAttributes | src/NtfsReader/NtfsReader.cs:350-498 | the loop over the attributes gives the node, names, stream values and timestamp slot of `Attributes`, or its error |
| Reader.NtfsReader.ProcessMftRecord | src/NtfsReader/NtfsReader.cs:674-708 | a record is skipped, refused or walked exactly as `MftRecord` says, with the resulting node, names, streams and timestamps |
| Reader.NtfsReader.ProcessAttribute | src/NtfsReader/NtfsReader.cs:353-455 | one attribute updates the state as `Effect` specifies |
| Reader.NtfsReader.ProcessResident | src/NtfsReader/NtfsReader.cs:377-416 | a resident attribute updates the state as `Resident` specifies |
| Reader.NtfsReader.ProcessFileName | src/NtfsReader/NtfsReader.cs:383-395 | a FileName attribute sets the parent and name as `FileName` specifies, touching nothing else |
| Reader.NtfsReader.ProcessStandardInformation | src/NtfsReader/NtfsReader.cs:397-410 | a StandardInformation attribute adds the flags and stores the timestamps as `StandardInfo` specifies |
| Reader.NtfsReader.ProcessNonresident | src/NtfsReader/NtfsReader.cs:417-455 | a nonresident attribute updates the streams as `Nonresident` specifies |
| Reader.NtfsReader.ProcessAttributeStream | src/NtfsReader/NtfsReader.cs:425-454 | the stream of an attribute is found or created and its runs decoded as `AttributeStream` specifies |
| Reader.NtfsReader.ProcessStreamName | src/NtfsReader/NtfsReader.cs:428-430 | the attribute's name is interned as `StreamName` specifies |
| Reader.FindOrCreate | src/NtfsReader/NtfsReader.cs:433-442 | the stream objects hold the values `FindOrAdd` specifies, new objects are fresh, and the list stays free of aliases |
| Reader.DecodeInto | src/NtfsReader/NtfsReader.cs:446-453 | only the target stream changes, and it gains the decoded fragments and clusters |
| Structures.Stream.constructor | src/NtfsReader/Stream.cs:5-14 | a new stream has the given name, type and size, no clusters and no fragments |
| Structures.Utf16At | src/NtfsReader/NtfsReader.cs:393 | the name is the count UTF-16 code units read little-endian from the offset |
| Paths.TrimEnd | src/NtfsReader/NtfsReader.Algorithms.cs:38 | the result is the longest prefix that does not end in a backslash; only backslashes are removed |
| Paths.AncestorsSound | src/NtfsReader/NtfsReader.Algorithms.cs:19-35 | the parent walk returns a chain of valid nodes linked by parent pointers, ending at a node whose parent is the root, with no immediate back-step |
| Paths.AncestorsComplete | src/NtfsReader/NtfsReader.Algorithms.cs:19-35 | every such chain within the bound is the one the walk returns |
| Paths.AncestorsIff | src/NtfsReader/NtfsReader.Algorithms.cs:19-35 | the walk returns a chain exactly when that chain is such a parent chain |
| Paths.SelfParentIsLoop | src/NtfsReader/NtfsReader.Algorithms.cs:28-29 | a node that is its own parent is reported as a loop |
| Paths.TwoNodeCycleIsLoop | src/NtfsReader/NtfsReader.Algorithms.cs:28-29 | two nodes that are each other's parent are reported as a loop |
| Paths.ThreeNodeCycleRunsOut | src/NtfsReader/NtfsReader.Algorithms.cs:20-35 | a three-node cycle escapes the loop check and only the bound stops the walk |
| Paths.FuelMonotone | src/NtfsReader/NtfsReader.Algorithms.cs:20-35 | a walk that finishes within a bound gives the same result with any larger bound |
| Paths.WalkBoundSuffices | src/NtfsReader/NtfsReader.Algorithms.cs:20-35 | the bound of one more than the node count never cuts off a walk that reaches the root |
| Paths.PathOrder | src/NtfsReader/NtfsReader.Algorithms.cs:16-46 | the path runs from a child of the root down to the node, each node the parent of the next |
| Paths.PathLength | src/NtfsReader/NtfsReader.Algorithms.cs:16-46 | the path of a parent chain is that chain reversed |
| Paths.Component | src/NtfsReader/NtfsReader.Algorithms.cs:45 | a path component can be read exactly when the node's name index can |
| Paths.UnnamedComponentIsEmpty | src/NtfsReader/NtfsReader.Algorithms.cs:45 | a node with name index 0 contributes an empty component |
| Paths.NamedComponent | src/NtfsReader/NtfsReader.Algorithms.cs:45 | any other node contributes its interned name |
| Paths.JoinedStep | src/NtfsReader/NtfsReader.Algorithms.cs:40-46 | each popped node appends a backslash and its component, or fails with the component's error |
| Paths.FullNameShape | src/NtfsReader/NtfsReader.Algorithms.cs:37-48 | a full name starts with the trimmed drive name and ends with a backslash and the node's own name |
| Paths.ExampleChain | src/NtfsReader/NtfsReader.Algorithms.cs:12-49 | on a two-level example the full name is `C:\b\c` |
| Paths.ExamplePath | src/NtfsReader/NtfsReader.Algorithms.cs:12-49 | the example's path is the parent followed by the node |
| Paths.ExampleText | src/NtfsReader/NtfsReader.Algorithms.cs:12-49 | the example's components join to `\b\c` |
| Paths.GetNodeFullNameCore | src/NtfsReader/NtfsReader.Algorithms.cs:12-49 | the push-then-pop loops compute `FullName`: the drive followed by the path's components |
| Paths.PushAncestors | src/NtfsReader/NtfsReader.Algorithms.cs:14-35 | the first loop stacks the node and then its ancestors, or reports the loop or the bound |
| Paths.PopComponents | src/NtfsReader/NtfsReader.Algorithms.cs:37-48 | the second loop joins the components of the stack in reverse |
| Views.StreamView.Entry | src/NtfsReader/Structures/StreamWrapper.cs:10-14 | the stream entry can be read exactly when the stream table exists and holds that node and that stream index |
| Views.FragmentsProjection | src/NtfsReader/Structures/StreamWrapper.cs:16-36 | fragments are refused without the Fragments flag; otherwise null for a stream without fragments, and else one view per fragment, in order, with the same LCN and next VCN |
| Views.StreamViewOfConsistent | src/NtfsReader/Structures/StreamWrapper.cs:10-36 | on a consistent volume a stream's name and size can always be read, and its fragments are refused exactly when the mode did not retrieve them, in which case none were kept |
| Views.ScannedVolumeIsConsistent | src/NtfsReader/NtfsReader.cs:793-859 | the tables a scan leaves form a consistent volume |
| Views.NodeWrapper.constructor | src/NtfsReader/Structures/NodeWrapper.cs:8-10 | a new wrapper holds the node and an empty full-name cache |
| Views.NodeWrapper.FullName | src/NtfsReader/Structures/NodeWrapper.cs:22 | the full name is the resolver's; a filled cache is kept, and an empty one is filled on success |
| Views.NodeWrapper.StreamsOf | src/NtfsReader/Structures/NodeWrapper.cs:24-42 | streams are refused when the table was not retrieved, and fail only when the table lacks the node |
| Views.NodeWrapper.Streams | src/NtfsReader/Structures/NodeWrapper.cs:24-42 | the method builds the views `StreamsOf` describes |
| Views.NodeWrapper.StandardInformationOf | src/NtfsReader/Structures/NodeWrapper.cs:44-75 | the timestamps can be read exactly when the table exists and has the node, and are refused as not retrieved otherwise |
| Views.NodeViewOfConsistent | src/NtfsReader/Structures/NodeWrapper.cs:12-75 | on a consistent volume the name can be read, the timestamps exactly when the mode asks for them, and the streams exactly when the mode asks for them, view i showing stream i |
| Views.FullNameEndsWithName | src/NtfsReader/Structures/NodeWrapper.cs:18-22 | `FullName` ends with a backslash and `Name` |
| Aggregation.GroupedIsMembers | src/NtfsReader/Algorithms.cs:28-36 | a key is in the grouping exactly when some node has it, and maps to those nodes in order |
| Aggregation.KeyedNodeIsMember | src/NtfsReader/Algorithms.cs:28-36 | every keyed node is in its key's group |
| Aggregation.MembersCount | src/NtfsReader/Algorithms.cs:28-36 | a group holds a node exactly as often as the node occurs with that key |
| Aggregation.MemberHasKey | src/NtfsReader/Algorithms.cs:28-36 | a non-empty group's key was given to some node |
| Aggregation.AggregateByFragments | src/NtfsReader/Algorithms.cs:7-40 | the loop fails with the first node's refusal, or returns the grouping of the nodes by fragment-count key |
| Aggregation.FragmentsAggregateMembers | src/NtfsReader/Algorithms.cs:7-40 | a count is a key exactly when some node's first stream has that many fragments; its group is those nodes; the count is at least the minimum |
| Aggregation.FragmentKeysFailureSticks | src/NtfsReader/Algorithms.cs:11-18 | once a node's accessor refuses, the aggregation fails with that refusal |
| Aggregation.FragmentKeyBound | src/NtfsReader/Algorithms.cs:25-26 | no key below the minimum fragment count is kept |
| Aggregation.FirstStreamWithoutFragmentsIsSkipped | src/NtfsReader/Algorithms.cs:18-21 | a node whose first stream has no fragments is skipped |
| Aggregation.SizeKeys | src/NtfsReader/Algorithms.cs:46-49 | each node's key is its size, or none for a directory or a size below the minimum |
| Aggregation.AggregateBySize | src/NtfsReader/Algorithms.cs:42-63 | the loop returns the grouping of the nodes by size key |
| Aggregation.SizeAggregateMembers | src/NtfsReader/Algorithms.cs:42-63 | a size is a key exactly when some non-directory node at or above the minimum has it, and maps to those nodes |
| Aggregation.DirectoriesNotSized | src/NtfsReader/Algorithms.cs:48 | a node carrying the directory flag is never grouped by size |

## Left out

- Disk I/O: the volume is a `disk` byte sequence held by the reader, and a read past its end is an IoError. The volume handle, `CreateFile`/`SetFilePointerEx`/`ReadFile` and the public constructor that opens the drive are left out; NtfsReader.Public.cs is not part of this model.
- The buffer size that `ProcessMft` derives from the operating-system version is a parameter.
- The `BitmapDataAvailable` event and the `totalBytesRead` counter change nothing the model tracks and are left out.
- .NET allocation limits and exceptions other than the modelled error cases are not modelled.
- After an error, the source throws out of the constructor and the reader is never used again, so the model does not specify the state after an error.
- `GetNodes` and its `Parallel.For` over the node table, and `NodeWrapper.ToString`, are left out.
- The conversion of timestamps with `DateTime.FromFileTimeUtc` is left out: timestamps are the raw 64-bit FILETIME values.
- `ProcessNonResidentData` (NtfsReader.cs:264-345) is never called and is left out. So is the commented-out attribute-list code (NtfsReader.cs:458-494, 500-615): attribute lists are skipped, as the code does.
- The query layer works on a frozen `Volume` value, because the tables are never written again after the scan.
- Paths.Ancestors: the parent walk carries a bound (`WalkBound`, one more than the node count). The source's loop check only catches cycles of length 1 and 2, so on a longer cycle the source never returns; the model returns OutOfFuel instead (`ThreeNodeCycleRunsOut`).
- Reads the source performs through unchecked pointers fail in the model with `OutOfBounds` (or `Overrun` for writes past an 8-byte local or a buffer), where the source reads or writes arbitrary memory.
- Runs.RunOffsetSpec: an offset field of size 0 is modelled as 0, where the source reads `runOffsetBytes[-1]`.
- Runs.ReadField: a run-field nibble above 8 is an Overrun error, where the source writes past its 8-byte local.
- Records.Advance: the test `AttributeOffset + attribute->Length > BufLength` and the loop's advance are unwrapped; the source's `uint` sum can wrap and jump backwards, so a record the source loops on forever (`LoopingAttributes`) or reads to a normal end from inside a header (`BackwardsAttributes`) is a CorruptAttribute error here. The as-written check is `Records.AdvanceAsWritten`, and the discrepancy is the first row of "## Findings".
- Reader.NtfsReader.NextAttribute: computes the unwrapped `Advance`, not the wrapping check, for the reason above.
- Reader.NtfsReader.ProcessAttributes: walks with the unwrapped check, for the reason above; on records where the source's sum wraps it does not give the source's result, which is non-termination or a normal end after a backwards jump.
- RecordProperties.WalkFromStops: the ends and errors it states are those of the unwrapped check, for the reason above.
- Reader.NtfsReader.ScanRecords: states on success the scan's invariants, the node table's size and slot 0, not which node each in-use record leaves in its slot, nor when the loop fails (a chunk read, or the fixup or interpretation of a later record); the restart of the chunk search from fragment index 0 is in its body, and each record's effect is stated by `Reader.NtfsReader.ScanRecord`.
- Reader.NtfsReader.ScanMft: states its four early exits, and on success the same invariants as `ProcessMft`, not which records end up in the tables, nor when the record loop after the exits fails.
- Reader.NtfsReader.ProcessMft: states the failures of the $MFT's own record and, on success, the invariants (`ScanFacts`) of the tables, not which records end up in them, nor when the rest of the scan fails (see `Reader.NtfsReader.ScanMft`). Each record's node is specified separately, by `ProcessMftRecord` against `MftRecord`.

## Findings

| source | as written | input that shows it | evidently intended | confidence | as-written member | corrected member |
|---|---|---|---|---|---|---|
| src/NtfsReader/NtfsReader.cs:353-365 | the bounds check adds `AttributeOffset + attribute->Length` in 32-bit `uint`, so a huge Length wraps the sum below `BufLength` and the offset jumps backwards | `LoopingAttributes`: two attribute-list headers, the first of Length 8 at offset 0 and the second of Length 0xFFFFFFF8 at offset 8; the sum wraps to 0, so the loop revisits offset 0 forever. `BackwardsAttributes`: a header of Length 24 at 0 whose bytes 8-11 are FF FF FF FF, then one of Length 0xFFFFFFF0 at 24; the sum wraps to 8, where the loop reads the end marker and returns normally | the attribute is refused as corrupt, so every accepted attribute moves the offset forward | not executed | Records.AsWrittenNeverEnds, Records.AsWrittenEndsInsideHeader | RecordProperties.LoopingAttributesFail, RecordProperties.BackwardsAttributesFail |
| src/NtfsReader/NtfsReader.cs:114-124 | the do-while that skips sparse fragments tests the `fragment` fetched before the loop, not the fragment it has moved to; and `fragmentIndex` is a by-value parameter, so the caller (NtfsReader.cs:813-827) restarts every search from fragment 0 with `Vcn` and `RealVcn` already advanced | `SparseMft` = [(LCN 100, next VCN 1), (sparse, next VCN 2), (LCN 200, next VCN 4)], with 512-byte sectors, 8 sectors per cluster and 1024-byte records: record 4 is read from the sparse fragment, and the later search for record 9 runs off the end of the list, ending the scan | the loop passes every sparse fragment and stops at the next real one, and the search resumes at the fragment it stopped at | not executed | Scan.SparseMftAsWrittenGivesUp | Scan.SparseMftIntended |

The chunk search of the scan (`Reader.FindChunk`, `Reader.SkipSparse`, `Reader.NtfsReader.ReadNextChunk`, `Reader.NtfsReader.ScanRecords`) is modelled as written, restart from fragment 0 included. The corrected search (`Scan.FindIntended`, `Scan.SkipIntended`) is its reference: `Scan.AsWrittenWithoutSparse` and `Scan.RestartWithoutSparse` prove that the two agree on an $MFT without sparse fragments.
