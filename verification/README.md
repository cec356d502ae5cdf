# Disk partitions on a cached block device: a verified model

This project models, in Dafny, the parts of the DiskStorage library that decide what ends up on a disk and what is read
back from it, and proves what they guarantee.

* **The sector cache** (`Buffer`, `Cache`, `Transfer`, `BlockDevice`, `Runs`). A device that transfers whole
  sectors, and may fail at any transfer, gives access to single bytes through a direct-mapped set of write-back buffers.
  The class keeps its fields as the program does. Ghost fields hold the logical contents of each sector and the values
  it has had since the last successful sync, and count raw transfers, raw syncs and raw faults.
* **The partition validator** (`PartInfo`, `Placement`, `PlacementSafety`, `Validation`, `ValidationLimits`,
  `Termination`, `TableLayout`, `PastEnd`, `Refusals`, `Validator`). Percentages become sizes, and partitions without an
  offset are placed first-fit. All arithmetic is unsigned and wraps at 64 bits. `Validator` has the loops over the table;
  the other modules say what they compute and what holds of it.
* **The tables on disk** (`Registers`, `Crc32`, `CrcValue`, `GptLayout`, `GptImage`, `GptFormat`, `GptFacts`,
  `GptRoundTrip`, `MbrLayout`, `MbrFormat`, `MbrRoundTrip`, `MbrChains`, `ScanSpec`, `Scanner`, `HeaderChecks`,
  `DiskBytes`, `GptListing`, `MbrListing`, `EndToEnd`). GPT (section 5.3 of the UEFI 2.10 specification) and MBR
  (section 5.2) are written byte by byte through the cache, with the checksum of section 8 of RFC 1952, and read back by
  a scanner object that keeps its place between calls. `DiskBytes` says which bytes are on a formatted disk, one by one;
  `HeaderChecks`, `GptListing` and `MbrListing` say what is accepted and listed of any disk, in terms of its bytes.
  `EndToEnd` formats and scans one device.
* `Bits`, `Bytes`, `Picks`, `Sectors` and `SectorIO` hold the arithmetic, byte fields, selections and sector addressing
  they share.

`dafny verify dfyconfig.toml` checks everything.

## What was found

Where a property one would expect does not hold of the code, the code is kept as it is, an input is given for which it
fails, and the exact condition under which it holds is proved.

* Explicit partition sizes are added in bytes to a count of blocks (src/PartInfo.cpp:133), so a table of explicit sizes
  is refused exactly when its bytes outnumber the blocks (`ExplicitTurnedDown`). Through the same sum a clipped share
  wraps, exactly when more blocks are gone than there are (`ClippedShare`), and validation may never end
  (`NeverReturns`). It goes on for ever exactly when a round is reached whose gap lies behind a partition with a rounded
  end of 0 (`HangsByWrapping`), which is one that reaches into the last MiB of the addresses or past them (`EndIsZero`,
  `WrappedEntry`). That follows the rounds; a condition on the table alone is that no share wraps as above and no size in
  bytes does, and then it ends (`ValidationEnds`).
* The room behind the last partition is also taken when its rounded end is already past the space (`LastGapTaken`). If
  that is the only flaw of the fixed partitions, validation reports success for every such table, and it leaves the
  space exactly when the gaps between the fixed partitions do not take all others (`LeavesTheSpace`, `PlacedPastEnd`).
  The assertion at src/PartInfo.cpp:189 is what is left to notice it in a debug build.
* The table is not put in order of position, although src/include/Storage/Disk/PartInfo.h:144 says so, and fixed
  partitions that overlap are accepted (`FixedTableUnmoved`). A partition without an offset always comes behind the
  lowest given one, also if it is listed before it and would fit there (`FreeBehindFixed`).
* The working buffer is not cleared before the GPT headers are put into it. What is left of the last entries shows behind
  them exactly in the cases of `ReservedZero`.
* Partitions past the 128th are dropped without an error (`GptFacts.ExtraPartitionsDropped`), so a table comes back
  exactly if it has no more, and each can be recognised (`GptRoundTrip.FormatThenScan`). A drive too small for the tables
  makes the free space wrap (`SmallDriveWraps`).
* The test that picks the number of heads lets one cylinder too many through (`AllSectorsFit`, `LastCylinderLost`).
* src/MBR.cpp:35 tests macros that no file of the library defines, so the sector size is the configured one whatever the
  device has; `MbrFormat.FormatDisk` takes it as a parameter.
* Offsets and sizes from 4 GiB on do not survive an MBR (`BytesExact`); records behind an extended one are never seen
  (`MbrChains.ExtendedHidesRest`); and extended partitions that lead back to where one was are followed for ever
  (`ScanNeverEnds`): the scan ends exactly if no way through them is longer than the disk has sectors (`EndsExactly`),
  which holds of all disks whose chains do not wrap 32 bits (`ChainsEnd`).
* A scanner that failed before it had any entries reports the end without an error when it is asked again; in `Scanner`,
  `Remaining` says so.
* A whole sector past the end of the medium is accepted into a buffer and reported as written (`WriteChunk`), and then
  no sync can succeed (`Sync`).

## Model

| member | source | states |
|---|---|---|
| `Buffers.Buffer.constructor` | src/include/Storage/Disk/Buffer.h:17-20 | a new buffer is empty, clean and of one sector |
| `Buffers.Buffer.Invalidate` | src/include/Storage/Disk/Buffer.h:22-26 | an invalidated buffer is empty and clean |
| `BlockDevices.BlockDevice.constructor` | src/include/Storage/Disk/BlockDevice.h:33-100 | a device starts without buffers, its logical contents those of the medium |
| `BlockDevices.BlockDevice.FlushBuffer` | src/BlockDevice.cpp:198-208 | a dirty buffer is written back and becomes clean only if the raw write succeeds; at most one raw write; the logical contents stay, even if the failing write tears its sector; it can fail without a raw fault only for a sector past the end |
| `BlockDevices.BlockDevice.Load` | src/BlockDevice.cpp:93-102 | the miss path of a read: only the slot of the sector changes, and it then holds the logical sector; the logical contents stay whatever fails |
| `BlockDevices.BlockDevice.Claim` | src/BlockDevice.cpp:130-140 | the miss path of a write: the sector is read in only if it is not overwritten as a whole |
| `BlockDevices.BlockDevice.ReadChunk` | src/BlockDevice.cpp:90-109 | a chunk of the logical sector; a sector that is held costs no raw transfer and cannot fail; otherwise at most one raw read and one raw write |
| `BlockDevices.BlockDevice.WriteChunk` | src/BlockDevice.cpp:127-150 | one chunk of one logical sector changes; a whole sector is never read first; a sector that is held costs no raw transfer; a whole sector past the end is taken into a buffer and reported as written |
| `BlockDevices.BlockDevice.Read` | src/BlockDevice.cpp:78-113 | what is read are the bytes of one flat array, whatever address and length; without raw faults it succeeds exactly if the device is buffered or the transfer whole sectors; one raw read and write at most for each sector spanned; a read that fails leaves the logical contents alone, and one that succeeds was inside the medium, and through buffers its last sector is held afterwards, unless it reaches sector 2 to the 32 minus 1; a transfer within a sector that is held succeeds without raw transfers; the bytes of the buffer behind the transfer stay as they were |
| `BlockDevices.BlockDevice.Write` | src/BlockDevice.cpp:115-153 | after success the flat array has the source at the address; after a failure a prefix of it that ends at a sector boundary, and nothing else has changed; raw transfers are bounded by the sectors spanned, and whole sectors are written without raw reads; through buffers the last sector is held after success, and a transfer within a sector that is held succeeds without raw transfers |
| `BlockDevices.BlockDevice.WriteDirect` | src/BlockDevice.cpp:117-120 | without buffers only whole sectors are written, and a failure touches none but the sectors of the transfer |
| `BlockDevices.BlockDevice.EraseRange` | src/BlockDevice.cpp:158-183 | a sector-aligned range inside the medium reads as zero afterwards, buffered or not; anything else is refused with nothing changed, and a raw erase that fails changes nothing but sectors of the range, which with atomic writes then hold what they held or zeros |
| `BlockDevices.BlockDevice.FlushBuffers` | src/BlockDevice.cpp:210-221 | a failure does not stop the buffers behind it from being written: at most one dirty buffer whose sector is on the medium is left for each raw fault; the result says whether all are clean, in which case the medium is the logical contents |
| `BlockDevices.BlockDevice.Sync` | src/BlockDevice.cpp:223-226 | success means no buffer is dirty, the medium equals the logical contents, and the device was told to sync once, after the last raw write; without raw faults it succeeds exactly if no dirty buffer is past the end; after a failure at most one buffer that could be written is left dirty for each raw fault |
| `BlockDevices.BlockDevice.AllocateBuffers` | src/BlockDevice.cpp:185-196 | the logical contents stay; the old buffers are kept if one cannot be flushed, the others flushed all the same; otherwise there are as many as the power of two at or below the number asked for, and the result says whether that is the number |
| `Cache.OnlySlot` | src/include/Storage/Disk/Buffer.h:43-46 | a sector can only be found in the slot its number masks to |
| `Cache.FlushKeeps` | src/BlockDevice.cpp:198-208 | writing a slot back, whole or torn, keeps the cache invariant for the same logical contents |
| `Cache.ClaimKeeps` | src/BlockDevice.cpp:130-143 | giving a clean slot to a sector keeps the invariant, with the new bytes in the logical contents |
| `Cache.EraseKeeps` | src/BlockDevice.cpp:166-180 | clearing the raw sectors and the buffers that hold them keeps the invariant, with zeros in the logical contents |
| `Cache.TornErase` | src/BlockDevice.cpp:165-168 | after an erase that failed half way the buffers still fit the medium if and only if the sectors held clean were left alone |
| `Cache.CleanMeansFlushed` | src/BlockDevice.cpp:210-221 | if no slot is dirty the medium is the logical contents |
| `Sectors.SpannedIsCeiling` | src/BlockDevice.cpp:89-110 | the number of chunks of a transfer is (offset + size) / sector size rounded up |
| `Runs.Run` | src/BlockDevice.cpp:78-226 | any run of reads, writes, erases, syncs and reallocations: without raw faults its outcomes are those of one flat byte array; and with atomic raw writes every raw sector holds a whole value that its logical sector had at or after the last successful sync, or, if an erase failed half way and stopped the run, zeros in a sector of that erase; before and after every operation the logical contents are as many sectors of the one size as the device has |
| `Runs.Apply` | src/BlockDevice.cpp:78-226 | one operation does to the flat contents only what it may, raw faults included (a write changes no byte outside its range, and through buffers a prefix of it), and exactly what the flat array does without them; an erase that fails half way changes no sector but its own |
| `Crc32s.Crc32Byte` | src/diskdefs.cpp:27-35 | the eight branch-free steps of one byte |
| `Crc32s.ComputeCrc32` | src/diskdefs.cpp:37-46 | the loop computes the checksum of the whole message, from the complement of the old one to the complement of the new |
| `Crc32s.StepUndone` | src/diskdefs.cpp:31-32 | one step of the register can be undone |
| `Crc32s.OctetLinear` | src/diskdefs.cpp:29-33 | eight steps are linear over exclusive or |
| `Crc32s.OctetInjective` | src/diskdefs.cpp:29-33 | eight steps are one-to-one on 32-bit registers |
| `Crc32s.Crc32Chain` | src/diskdefs.cpp:37-46 | a checksum carried on over a second piece is the checksum of both pieces together |
| `Crc32s.Crc32BurstDetected` | src/diskdefs.cpp:27-46 | two messages of any equal length that differ within four consecutive bytes have different checksums |
| `CrcValues.GeneratorTerms` | src/diskdefs.cpp:32 | the divisor has the fourteen terms of the generator polynomial and no other, and the table of RFC 1952 its known entries |
| `CrcValues.Crc32Residue` | src/diskdefs.cpp:27-46 | a message followed by its checksum, lowest byte first, always has the checksum 0x2144DF1C |
| `CrcValues.CheckValue` | src/diskdefs.cpp:37-46 | the checksum of the bytes of "123456789" is 0xCBF43926 |
| `Crc32s.FeedIsTableFeed` | src/diskdefs.cpp:27-35 | feeding a byte is the table look-up of the code in section 8 of RFC 1952 |
| `PartInfos.U64IsRemainder` | src/PartInfo.cpp:106-107 | the wrapping arithmetic of the model is arithmetic modulo 2 to the 64 |
| `PartInfos.AlignDownIsRemainder` | src/PartInfo.cpp:106 | rounding down is taking the remainder off |
| `PartInfos.AlignUpFacts` | src/PartInfo.cpp:107 | rounding up gives the multiple at or above, if nothing wraps |
| `PartInfos.PercentagesShared` | src/PartInfo.cpp:115-127 | every percentage but the last becomes at least its part of the blocks and less than 1 MiB more, a multiple of 1 MiB; the last too or it gets the rest; the sum never exceeds the space |
| `Validator.ResolveSizes` | src/PartInfo.cpp:114-140 | the first loop, in place, is the pass that the results on sizes are about |
| `Refusals.OffsetsJudged` | src/PartInfo.cpp:128-139 | unless space runs out, the first pass accepts a table if and only if every size in bytes has an offset in whole MiB and every given offset is in the space, and otherwise reports the rule that the first entry to break one breaks, alignment before range |
| `Refusals.ValidationJudged` | src/PartInfo.cpp:98-140 | the same for validation as a whole, which reports bad parameters exactly if there are any |
| `Refusals.SpaceEdges` | src/PartInfo.cpp:111-112 | the first and the last byte that an offset may be at |
| `Refusals.SizesResolved` | src/PartInfo.cpp:114-140 | tables of percentages and sizes in bytes in any order: a percentage becomes its share in whole blocks or all that is left, any other size stays; the count is that of the blocks taken; and space runs out only at a percentage that finds all of them taken |
| `Refusals.TotalChecked` | src/PartInfo.cpp:142-145 | such a table is then turned down for its total exactly if it takes more blocks than there are |
| `Validator.SortList` | src/PartInfo.cpp:154 | references are sorted by offset, equal ones in their old order |
| `Validator.FindPlace` | src/PartInfo.cpp:160-181 | the inner loop finds what the gap search of the model finds |
| `Validator.PlaceFirst` | src/PartInfo.cpp:182-183 | setting one offset and sorting again moves that entry to its slot and leaves the others as they were |
| `Validator.AssignOffsets` | src/PartInfo.cpp:147-184 | the second loop, in place, settles the table as specified, or gets to the entry it would place for ever |
| `Validator.Validate` | src/PartInfo.cpp:98-194 | the whole of validation, in place; hangs tells exactly the tables on which the program never ends |
| `Placement.SortSplits` | src/PartInfo.cpp:154-155 | sorting brings the entries without an offset to the front in table order, and orders the others |
| `Placement.SortAgain` | src/PartInfo.cpp:182-183 | after the first entry got its offset, sorting again keeps the free ones first and puts it in its place: one free entry fewer |
| `PlacementSafety.FirstFit` | src/PartInfo.cpp:161-181 | the lowest gap behind a placed entry that is large enough is taken, and NoSpace is reported only if none is |
| `PlacementSafety.AssignSafe` | src/PartInfo.cpp:157-184 | placing ends, and everything placed is aligned, in range and apart |
| `PlacementSafety.AssignKeeps` | src/PartInfo.cpp:157-184 | whatever the sizes, no entry is lost, resized or, if it had an offset, moved |
| `PlacementSafety.LastGapTaken` | src/PartInfo.cpp:173-177 | the room behind the last entry is taken if and only if the new one fits there or the rounded end is already past the limit, where the difference wraps |
| `Validation.SettleKeeps` | src/PartInfo.cpp:147-184 | only offsets that were 0 change |
| `Validation.MixedTableSafe` | src/PartInfo.cpp:147-191 | with sound fixed entries and whole units for free ones placing ends, and on success no two partitions overlap or leave the space |
| `Validation.MixedTableValidated` | src/PartInfo.cpp:98-194 | the same for validation as a whole, and no fixed entry has moved |
| `Validation.ClosingAssertion` | src/PartInfo.cpp:186-189 | the assertion that closes validation holds |
| `Validation.PercentageLayout` | src/PartInfo.cpp:98-194 | a table of percentages fails only for lack of blocks in the first pass; otherwise its partitions lie one behind the other in table order from the first available byte |
| `Validation.PercentagesSound` | src/PartInfo.cpp:98-194 | and they are disjoint, aligned and in range |
| `ValidationLimits.ClippedShare` | src/PartInfo.cpp:118-121 | a clipped share is within the space if and only if no more than the space was gone before |
| `ValidationLimits.ExplicitTurnedDown` | src/PartInfo.cpp:133-145 | a table of explicit sizes is turned down if and only if its bytes, rounded up, outnumber the blocks |
| `ValidationLimits.FixedTableUnmoved` | src/include/Storage/Disk/PartInfo.h:144 | a table whose offsets are all given comes back as it was, in whatever order and overlapping or not, against what the comment says |
| `Termination.AssignEnds` | src/PartInfo.cpp:157-184 | placing ends for overlapping, unaligned and odd-sized entries alike, as long as 64 bits have room for everything behind everything |
| `Termination.AssignForever` | src/PartInfo.cpp:157-183 | and goes on for ever if and only if, after some rounds that all find a place other than 0, the first gap that is large enough lies behind an entry, as it lies then, whose rounded end is 0 |
| `Termination.EndIsZero` | src/PartInfo.cpp:166 | a rounded end is 0 if and only if the end lies in the last MiB of the 64-bit addresses or wraps, to 0 or to there |
| `Termination.ValidationEnds` | src/PartInfo.cpp:98-194 | validation ends for every table of which no percentage is reached after more blocks are gone than there are, and no size in bytes wraps |
| `Termination.PercentagesFirst` | src/PartInfo.cpp:115-127 | so it ends for any table that has its percentages before its sizes in bytes, whatever the offsets, if the bytes do not wrap |
| `Termination.HangsByWrapping` | src/PartInfo.cpp:98-194 | validation never ends if and only if the first pass and the total accept the table and that happens in some round of placing it |
| `Termination.WrappedEntry` | src/PartInfo.cpp:166-183 | and then an entry of the table, at the offset it was given or has got by that round, reaches to within 1 MiB of the end of 64 bits |
| `TableLayout.MixedLayout` | src/PartInfo.cpp:98-194 | a table without offsets, of percentages and sizes in bytes in any order, of which no share wraps: it is turned down only by the first pass or for its total, and otherwise its partitions lie in table order, each at the rounded end of the one before, all within the space; placing never finds too little room |
| `TableLayout.MixedErrors` | src/PartInfo.cpp:114-140 | the only error the first pass reports of a table without offsets is that nothing is left for a percentage |
| `TableLayout.FreeBehindFixed` | src/PartInfo.cpp:157-184 | room before the lowest given offset is never used: every partition without an offset comes behind it, so that a table that lists one before it is not in order of position |
| `PastEnd.AssignBeyond` | src/PartInfo.cpp:157-184 | once the last rounded end is past the limit, entries are placed as if the space had no end |
| `PastEnd.LeavesTheSpace` | src/PartInfo.cpp:147-191 | a table whose fixed entries are sound but for the rounded end of the last one is always accepted, and the result is sound if and only if the gaps between the fixed entries take all others |
| `PastEnd.ValidatedLeavesTheSpace` | src/PartInfo.cpp:98-194 | the same for validation as a whole |
| `PastEnd.PlacedPastEnd` | src/PartInfo.cpp:98-194 | a table that validation accepts with a partition past the end of the space |
| `ValidationLimits.NeverReturns` | src/PartInfo.cpp:157-184 | a table of two entries for which the loop never ends |
| `Bytes.LEByte` | src/GPT.cpp:148-162 | byte i of a number stored on disk has the weight 256 to the power i |
| `Bytes.FromLEByte` | src/Scanner.cpp:57-91 | and so it is read |
| `DiskBytes.HeaderBytewise` | src/include/Storage/Disk/linux/efi.h:21-52 | all 92 bytes of a header, from EFI PART to the checksum of the table |
| `DiskBytes.EntryBytewise` | src/include/Storage/Disk/linux/efi.h:60-67 | all 128 bytes of an entry, the two of each character of the name included |
| `DiskBytes.MbrBytewise` | src/include/Storage/Disk/linux/efi.h:71-90 | all 512 bytes of a boot record: no code, four records, 55 AA |
| `DiskBytes.GptOnDisk` | src/GPT.cpp:99-202 | the bytes on a formatted drive: boot record, both headers, both tables, what is left behind them; the identifier is the one given, or the generated one if that is all zero |
| `DiskBytes.MbrOnDisk` | src/MBR.cpp:68-110 | the bytes of a formatted first sector: type, first sector and number of sectors of each partition in 32 bits, and zeros behind |
| `DiskBytes.BootBytes` | src/Scanner.cpp:205-209 | what is looked for in the first sector: 55 AA, and EE as the type of the first record |
| `DiskBytes.SeenBytes` | src/Scanner.cpp:154-159 | the bytes that are read of a record |
| `DiskBytes.HeaderReads` | src/Scanner.cpp:224-225 | the bytes that are read of a header besides its checks |
| `DiskBytes.EntryReads` | src/Scanner.cpp:281-304 | the bytes that are read of an entry; the name is the low bytes up to the first character that is zero |
| `DiskBytes.VolumeBytes` | src/Scanner.cpp:93-143 | what the first bytes of a sector must be for it to be taken for a volume |
| `GptLayout.NameRoundTrip` | src/GPT.cpp:123-126 | a name is read back up to its first NUL or 36th character, so whole if and only if it has no NUL and at most 36 |
| `GptLayout.EntryFields` | src/GPT.cpp:116-126 | every field of a written entry is read back, and the attributes are zero |
| `GptLayout.HeaderRoundTrip` | src/include/Storage/Disk/linux/efi.h:27-48 | every field of a header is read back from its place in the specification |
| `GptLayout.EntryPlace` | src/Scanner.cpp:286-287 | both ends of a partition are read back rounded down to sectors |
| `GptLayout.EntryExact` | src/Scanner.cpp:286-287 | so offset and size come back if and only if both ends are sector boundaries |
| `GptLayout.SealedOk` | src/Scanner.cpp:57-91 | a sealed header passes the checks if and only if it announces the standard entry size and at most 128 entries, whatever follows it in its sector |
| `GptImage.GeometryFacts` | src/GPT.cpp:86-92 | for each supported sector size the table fills its sectors exactly with 128 entries |
| `GptImage.FirstSectorFacts` | src/GPT.cpp:92 | the first sector for partitions is the one at 1 MiB, behind the table |
| `GptImage.RowsFlat` | src/GPT.cpp:134-145 | the sectors of the table hold the entries one behind the other |
| `GptFormat.StoreEntry` | src/GPT.cpp:112-126 | an entry is put into the working buffer in place |
| `GptFormat.WriteTables` | src/GPT.cpp:99-146 | the entry loop writes the same table at sector 2 and at the backup, and its running checksum is that of all 128 entries |
| `GptFormat.WriteGpt` | src/GPT.cpp:99-200 | after success the disk is as specified, sector by sector; whatever fails, no sector between the tables is touched |
| `GptFormat.FormatDisk` | src/GPT.cpp:60-210 | an empty table and unsupported sectors are refused, errors of validation are passed on with the disk unchanged, and success means the disk is formatted for the validated table, flushed and told to sync after the last raw write, with no buffer left past its end; hangs tells exactly when validation never ends |
| `GptFacts.ChecksumsAgree` | src/GPT.cpp:131-181 | both headers pass the checks of the scanner, and each holds the checksum of the table it refers to as that is stored |
| `GptFacts.MetadataCoversDrive` | src/GPT.cpp:148-181 | the headers as they are on the disk declare the usable sectors to be those between the two tables, each other, their own tables and the disk identifier; boot record, header, table, usable sectors, backup table and backup header follow one another and fill the drive |
| `GptFacts.ProtectiveBootRecord` | src/GPT.cpp:183-199 | the boot record on the disk is signed and has one record, of GPT type, from sector 1 to the end of the drive or of 32 bits |
| `GptFacts.PartitionsUntouched` | src/GPT.cpp:99-200 | on a sound table every partition lies in the usable sectors, and not one byte of any has changed |
| `GptFacts.GptSpaceFacts` | src/GPT.cpp:92-94 | the blocks given to validation are the bytes from 1 MiB to the backup table, and nothing overflows |
| `GptFacts.PercentagesFormat` | src/GPT.cpp:94-97 | percentages that validation accepts make a sound table for a GPT |
| `GptFacts.GptValidationEnds` | src/GPT.cpp:92-97 | on the space of a GPT, validation ends for up to four billion entries under the same condition, whatever the drive |
| `GptFacts.BootRecordNoVolume` | src/Scanner.cpp:93-137 | a boot record as written is not taken for a FAT or exFAT volume |
| `GptFacts.ReservedZero` | src/GPT.cpp:148-171 | the rest of a header sector is zero, as it should be, if and only if the partitions do not reach into the last sector of the table, or just one does and has a name of at most 18 characters |
| `GptFacts.SmallDriveWraps` | src/GPT.cpp:90-93 | the number of sectors for partitions wraps if and only if the drive is too small, which is not checked |
| `GptRoundTrip.EntryComesBack` | src/Scanner.cpp:278-305 | an entry is seen as the partition it was written for if and only if that has a type, a name that fits, ends on sectors and a first sector that is readable and no volume of another size, or need not be read |
| `GptRoundTrip.CellsGiveExactly` | src/Scanner.cpp:269-306 | the 128 entries written for a table are read as that table if and only if it has no more than 128 partitions and each can be recognised |
| `GptRoundTrip.FormatThenScan` | src/Scanner.cpp:165-315 | scanning a disk formatted from a sound table gives the same partitions in the same order, then done, if and only if there are at most 128 and each can be recognised |
| `MbrLayout.RecordReadBack` | src/include/Storage/Disk/linux/efi.h:71-90 | each of the four records is read back whole, unused ones as zero |
| `MbrFormat.Heads` | src/MBR.cpp:59-66 | the loop finds the least number of heads from 8, 16, 32, 64 and 128 with which the drive fits, or 255 |
| `MbrFormat.ChsRoundTrip` | src/MBR.cpp:79-87 | the packed fields give a sector back if and only if it is below 1024 cylinders; the head is below the number of heads and the sector field between 1 and 63 |
| `MbrFormat.RecordChs` | src/MBR.cpp:89-107 | the packed fields of a record give the first and the last sector of its partition, among sectors that can be packed |
| `MbrFormat.AllSectorsFit` | src/MBR.cpp:61 | all sectors of a drive can be packed if and only if there are at most 1024 cylinders of them |
| `MbrFormat.LastCylinderLost` | src/MBR.cpp:61 | a drive that the loop lets through although its last sector is packed like its first |
| `MbrFormat.MbrSpaceIs` | src/MBR.cpp:45-48 | the space for partitions is the drive from 1 MiB on if and only if the drive is not smaller than that; otherwise it wraps at 32 bits |
| `MbrFormat.FormatDisk` | src/MBR.cpp:28-121 | no or more than four partitions are refused, errors of validation are passed on with the disk unchanged, and success means the boot sector is written, flushed and the device told to sync after the last raw write, with no buffer left past the end, and nothing else changed; hangs tells exactly when validation never ends |
| `MbrRoundTrip.BytesExact` | src/Scanner.cpp:252-257 | a number of bytes survives counting in sectors and the 32-bit shift back if and only if it is whole sectors and below 4 GiB |
| `MbrRoundTrip.RecordReturns` | src/Scanner.cpp:246-266 | a record is seen as the partition it was written for under exactly those conditions |
| `MbrRoundTrip.FormatThenScan` | src/Scanner.cpp:165-315 | scanning a formatted disk, if that ends, gives the partitions in table order at the same places with the same indicators, named mbr1, mbr2 and so on, then done, if and only if each can be recognised and the first is not of GPT type |
| `MbrChains.SearchEnds` | src/Scanner.cpp:240-251 | where going through all records ends, so does the search for the next partition |
| `MbrChains.EndsExactly` | src/Scanner.cpp:149-163 | going through the records ends, whichever sectors can be read, if and only if no way from extended partition to extended partition has more steps than the disk has sectors |
| `MbrChains.ChainsEnd` | src/Scanner.cpp:149-163 | so it ends if no chain of extended partitions leaves 32 bits |
| `MbrChains.ScanNeverEnds` | src/Scanner.cpp:149-163 | three sectors on which the search for the first partition never ends, because the third wraps back to the second |
| `Scanners.VerifyGptHeader` | src/Scanner.cpp:57-91 | the checks on a header; the buffer is put back as it was |
| `HeaderChecks.OneChecksum` | src/Scanner.cpp:75-80 | a header sector whose fields are all right, whatever its size from 92 bytes on, passes with exactly one value of its checksum field |
| `HeaderChecks.MalformedRefused` | src/Scanner.cpp:60-89 | a header with another signature, revision or entry size, with a size below 92, or with more than 128 entries is refused |
| `HeaderChecks.CorruptionRefused` | src/Scanner.cpp:75-80 | an accepted header is refused after any change within four consecutive bytes behind its checksum |
| `Scanners.TableReadsInOrder` | src/Scanner.cpp:271-276 | the sectors of the table are read one after another, each once |
| `Scanners.Scanner.ScanMbrEntries` | src/Scanner.cpp:149-163 | the records in use, counted from the sector they were read from, in 32 bits |
| `Scanners.Scanner.MbrStep` | src/Scanner.cpp:241-267 | one record: unreadable ones are skipped, an extended one replaces what is left, any other is a partition |
| `Scanners.Scanner.NextMbr` | src/Scanner.cpp:240-267 | the next partition of the boot records, within the rounds that are enough for them whichever reads fail |
| `Scanners.Scanner.LoadEntries` | src/Scanner.cpp:270-276 | a sector of the table is read when the first of its entries is due, and kept for the others |
| `Scanners.Scanner.GptStep` | src/Scanner.cpp:269-306 | one entry: empty and unreadable ones are skipped, and a table sector that cannot be read is an error |
| `Scanners.Scanner.Start` | src/Scanner.cpp:171-238 | the first call: volume, GPT, boot records, or error |
| `Scanners.Scanner.Next` | src/Scanner.cpp:165-315 | each call gives the next partition of the listing that the disk determines, or its end, and comes to an end whatever raw reads do, on every disk whose records can be gone through |
| `GptListings.TableListed` | src/Scanner.cpp:269-306 | any table, in terms of its bytes: listed are, in order, all entries that have a type, and whose first sector can be read if that type is unknown, each with its type, identifier, name and place; without an error exactly if all sectors of the table are on the disk |
| `GptListings.GptScanned` | src/Scanner.cpp:165-315 | the same for the scan of any disk with a GPT |
| `GptListings.OtherDisks` | src/Scanner.cpp:171-221 | a volume in the first sector is all that is listed, an unsigned disk lists nothing, and a GPT whose header is missing or refused ends in an error |
| `MbrListings.MbrScanned` | src/Scanner.cpp:149-163 | any disk with an MBR, in terms of its bytes: listed are, in order, the records in use of a chain of boot records, those behind an extended one excepted, each with its type, its number among them, and its place counted from its boot record |
| `MbrListings.DecimalDigits` | src/Scanner.cpp:259 | the digits in a name denote the number, without zeros in front |
| `Scanners.NamedAt` | src/Disk.cpp:14-18 | a partition without a name, but with an identifier, is named after that; no other is changed |
| `Scanners.ScanPartitions` | src/Disk.cpp:7-23 | without raw faults exactly the partitions of the listing are collected, those without a name named after their identifier, and the result says whether an error ended it |
| `EndToEnd.FormatAndScanGpt` | test/app/Basic.cpp:45-92 | formatting a device with a GPT and scanning it: a table or device that is refused is reported as such; if the validated table is sound, has at most 128 entries and each can be recognised, the scan ends without an error and lists the validated table |
| `EndToEnd.ShareOutAndScanGpt` | test/app/Basic.cpp:73-90 | for percentages that holds on every large enough drive without volumes, or with known types: without raw faults the only error is lack of blocks, the partitions lie one behind the other with their shares, and the scan lists exactly them |
| `EndToEnd.FormatAndScanMbr` | test/app/Basic.cpp:25-41 | the same for an MBR, with names that count, and if and only if each partition can be recognised and the first is not of GPT type; extended partitions are let in where the scan of the result ends |
| `EndToEnd.ShareOutAndScanMbr` | test/app/Basic.cpp:25-41 | and for percentages on every drive of at most 4 GiB without volumes |
| `EndToEnd.ValidatedInfos` | src/PartInfo.cpp:98-194 | validation changes offsets and sizes and nothing else |

## Left out

- HostFileDevice: file operations of the operating system; raw sector operations are abstract and may fail at any time.
- Statistics, printing and error texts: no effect on results.
- Allocation failure: memory is always there.
- The raw layer is taken to refuse transfers that are not within the medium; the code leaves that to the derived device.
- BlockDevices.BlockDevice.Read: that a read which reaches sector 2 to the 32 minus 1 was inside the medium, and left its last sector in a buffer, is not claimed, since that number is the tag of an empty buffer, which the code takes for a hit.
- BlockDevices.BlockDevice.Write: addresses stop short of that sector. Behind it the tag of a buffer is the sector number cut to 32 bits, so that what is written shows at another sector; the model has no such buffers.
- SectorIO.ReadSector: from sector 2 to the 32 minus 1 on it fails; the code takes that number for a hit on an empty buffer and reports success, so that a listing with such a start sector differs.
- BlockDevices.BlockDevice.EraseRange: after an erase that failed and changed raw sectors the object is not claimed to be valid, since buffers and medium may no longer agree (`TornErase` says exactly when); a run stops there.
- Runs.Run: a device may only hold fewer than 2 to the 32 minus 1 sectors, so that every sector has a tag of its own.
- storage_size_t is 64 bits wide, as with ENABLE_STORAGE_SIZE64.
- Vector::sort and getSizeBits are not part of the library: a stable insertion sort, and the exact logarithm of powers of two, are assumed.
- Validator.Validate: an empty table is excluded because the code then reads past its list. Where the code loops for ever the model returns, and says so.
- The assertion at the end of validation is not modelled as a way to stop; `ClosingAssertion` says when it holds.
- Validator.Validate: block sizes above 1 MiB, for which the code divides by zero, are excluded.
- PlacementSafety.AssignSafe: the conditions under which what is placed is safe are sufficient, not necessary.
- Termination.ValidationEnds: the condition is sufficient; a share may wrap to a size that does no harm, or in a table with nothing left to place. `HangsByWrapping` is exact, but follows the rounds of placing.
- TableLayout.MixedLayout: tables of which a share or a size wraps are left to `HangsByWrapping`.
- Scanners.ScanPartitions: a disk on which going through the records of an MBR does not end, which is one that is not `Shallow`, is excluded, since a method that runs for ever cannot be stated to end; and so is a device with a buffer to be written past its end, since a read may have to write it first.
- EndToEnd.FormatAndScanMbr: for the same reason what is on the disk after formatting must be such that the scan ends, which it is without extended partitions (`NoneExtendedScannable`).
- Type, subtype and system type of partitions, which say nothing about where they are; and moving the table into the list of the device.
- GUIDs are sixteen bytes; a generated one is a parameter, and so is the test for types that belong to Sming.
- The field tests for FAT and exFAT volumes: which sector is a volume, and its size, is a parameter, except that what the first bytes rule out is modelled (`Plausible`).
- Scanners.VerifyGptHeader: a header that claims to be longer than its sector is refused; the code would compute its checksum over memory behind the buffer.
- GptFormat.FormatDisk: the drive must be large enough, which the code does not check; the largest sector of the build is taken to be 4096 bytes.
- GptFormat.WriteGpt: the header structure is taken as 92 bytes; where the compiler pads it to 96, four of the left-over bytes are unspecified instead.
- MbrFormat.FormatDisk: if the configured sector size is not that of the device, only the flat contents after success are stated.
- The scanner as a whole: a disk that changes between two calls.
