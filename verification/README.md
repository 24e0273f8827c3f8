# A verified model of the QUADStor VTL core

QUADStor VTL presents disks as tape libraries. This project models, in Dafny 4.11, the parts of its core
that decide where data goes and whether it comes back: the two compressors that store tape blocks, the maps and
lookup index that make SPACE and LOCATE fast, the allocator that hands out 64 MB units of the disks, the tables
that say which units a tape holds, the cursor that places data inside them, the check that repairs a bitmap, and
the two SCSI state machines in front of it all, the task set and persistent reservations.

`dafny verify dfyconfig.toml` checks everything. Each module follows one part of the source:

| file | what it models |
|---|---|
| `Bytes`, `Lz4Format`, `Lz4Decoder`, `Lz4Parse`, `Lz4Encoder`, `Lz4Exhibits` | LZ4: a byte-at-a-time reference decoder, the fast decoder, what the encoder makes of an input, the encoder, inputs on which it goes too far |
| `LzfFormat`, `LzfDecoder`, `LzfParse`, `LzfEncoder` | LZF, in the same parts |
| `BlockCodec` | how a tape block is stored compressed and read back |
| `TapeScan`, `TapeMaps`, `TapeWriter`, `TapeIndex`, `TapeLayout`, `TapeIndexWriter`, `TapeMiscount` | a tape as a flat sequence of elements; the maps and lookups that cut it up; SPACE, LOCATE and writing; the index kept up to date by every write, and LOCATE where it is not |
| `Units`, `Allocator`, `Disks`, `Pools`, `Libraries`, `Tapes` | bitmap positions, one disk's allocator, a pool of disks, the partitions that hold units of it, the tapes that write into them |
| `Segments`, `EntryBits`, `DataArea`, `DataCursor`, `DataExhibits` | the segments of a partition, the word that stores an element, where elements lie, the data cursor, runs on which it goes wrong |
| `Checker`, `LibraryCheck` | the consistency check of the bitmaps, and what it comes to for a library |
| `TaskSet`, `Reservations` | command ordering and persistent reservations |

How it is modelled. Objects that the source updates in place are classes, loops are loops, and each is proved
against a specification that does not mention it: the fast decoder against a reference decoder, the index walks
against a scan of the flat tape, the free counter against the number of clear bits. Whether a read or write of the
disk succeeds, whether a discard is accepted and what the allocator answers are parameters. A method of the
allocator is one step under the disk's lock; the completion of a discard is a step of its own. Bitmaps are sequences
of bits (bit j of byte i is bit 8i+j). Logical ids and counters are unbounded integers, except where a field of a
stored word or a table limits them; there the width is explicit.

Where the code and what it says of itself disagree, the code is modelled and the difference is a result:

- `lz4.h` says that the limited-output compressor never writes past the output size. The check before a match length
  is an estimate (`Lz4Encoder.CheckIsSound`, `EstimateError`), and the token and offset of a match that follows
  another at once are written before any check. Of the input lengths that are accepted it keeps its word, for every
  input and output size, exactly for those below 134674 bytes: `CompressLimitedOutput` promises it below
  that, and at most `Overrun` bytes from there on; `Lz4Exhibits.TwoMatchesOverrun` gives for every length from there on an input and an output size for which the last
  of these `Overrun` bytes is written. `OneMatchOverruns` is an input where a single match is enough.
  `BlockCodec.Deflate` shows that a tape block always leaves that much room.
- SPACE backward over blocks uses the length of the wrong map to decide whether to skip one. It ends where the flat
  scan ends, for every position and count, if and only if every interior map without marks is as long as the one
  before it (`TapeMaps.BackwardBlocksOnTape`; for one command, `BackwardBlocksExactly`). `TapeWriter.CleanRunsAgree`
  shows that this holds on every tape where no overwrite began at the first element of a later map, and
  `UncleanRunDisagrees` is a run after which it does not.
- A cut of the tape counts the filemarks of a lookup before it drops the entries behind the cut, and counts them again
  only when it also drops elements of the map it is made in. `TapeIndexWriter.CutTotal` gives the exact condition under
  which the count is right, `TapeMiscount.CountedTwice` a run after which it is not. What is appended then leaves LOCATE
  by file right about every address if and only if no lookup has been begun since (`TapeMiscount.AfterCarelessCut`);
  `LocateShifted` says about which addresses it is wrong and where it ends, and `LocateGoesWrong` is a whole run.
- A free unit can be refused although it would be ready after a wait. On a disk that has been filled and had one unit
  released, this happens if and only if the unit is on the last page of the bitmap and the disk does not end on a byte of
  it (`Disks.PaddingHidesFreeUnit`); the exact condition for any disk is in `Disks.Disk.Allocate`.
- A release whose bitmap write fails still counts the unit as free (`Disks.Disk.Release`).
- A cut of a segment table that fails after its first page leaves a hole (`Segments.HalfCut`).
- A write whose maps cannot be flushed puts the data cursor back behind elements that stay. `DataCursor.Area.Write`
  says when the cursor is then still past all live data: exactly when only marks were kept. A rewind repairs it, the
  next write does not: `DataExhibits.SharedSectors` is a run after which two live blocks share sectors.
- "Can never happen" in `tape_partition_lookup_cur_data_segment` can. The first write after a load fails that way if
  and only if it is at the first element of a map other than the first (`DataExhibits.WriteAfterLoad`), and
  `DataExhibits.CanHappen` is such a run.
- A simple task overtakes an ordered task that waits: exactly when is in the contract of `TaskSet.Initiator.Queue`,
  a run is `TaskSet.Overtake`.
- A holder that registers another key can lose its registration and not its reservation (`Reservations.HolderLost`).

## Model

| member | source | states |
|---|---|---|
| `Bytes.PeriodicIsMatchCopy` | core/lz4.c:639-662 | a stretch in which every byte equals the one d places before it is the byte-by-byte copy at distance d |
| `Lz4Format.DecodedFits` | core/lz4.c:551-674 | whatever the input, decoding yields at most as many bytes as the buffer holds, or fails inside the input |
| `Lz4Format.DecodesBlock` | core/lz4.c:551-674 | every list of well-formed sequences with final literals, serialized, decodes to exactly the text it stands for |
| `Lz4Decoder.CorrectedDistances` | core/lz4.c:573-574 | the two correction tables move a short offset to a multiple of it that is at least eight |
| `Lz4Decoder.FastCopyIsMatchCopy` | core/lz4.c:639-662 | copying words at the corrected distance gives the bytes of the byte-by-byte copy, for every overlapping distance |
| `Lz4Decoder.CopyMatch` | core/lz4.c:639-662 | a whole match is copied exactly when it ends before the last five bytes, and then correctly, writing inside the buffer |
| `Lz4Decoder.ReadLengthAt` | core/lz4.c:590-637 | the length loop reads what the reference reads and stops where it stops |
| `Lz4Decoder.DecodeSequence` | core/lz4.c:586-663 | one iteration is one step of the reference decoder, in every outcome |
| `Lz4Decoder.DecompressSafe` | core/lz4.c:551-680 | for every input, valid or corrupt, the return code of the reference decoder, and its bytes |
| `Lz4Parse.SearchEnds` | core/lz4.c:424-446 | in a text of period two, a search that has room for 64 positions finds a match at one of them, whatever the table holds |
| `Lz4Parse.ParseIsGreedy` | core/lz4.c:420-512 | the pieces of an input follow each other without a gap from its start, every match is a match within reach, and none can be extended forwards or backwards |
| `Lz4Parse.GoesOn` | core/lz4.c:467-484 | in a text of period two a match at any distance goes on to the end; at an odd one because all bytes are equal |
| `Lz4Parse.PeriodicParse` | core/lz4.c:420-512 | such a text is at most 64 literals and one match up to its last five bytes; only one below 78 bytes has no match |
| `Lz4Parse.PeriodicShrinks` | core/lz4.c:388-528 | its block takes a byte in 255 and at most 79 more, and every check passes where there is so much room |
| `Lz4Encoder.FindMatch` | core/lz4.c:424-446 | the search probes the positions that its steps lead to and stops at the first whose table entry is a match; a period of two is noticed within 64 positions |
| `Lz4Encoder.CatchUp` | core/lz4.c:448-449 | a match extended backwards is still a match, takes no byte already emitted, and cannot be extended further: it begins where the parse says |
| `Lz4Encoder.CountMatch` | core/lz4.c:470-484 | counting by words, half words and bytes finds the first byte that differs |
| `Lz4Encoder.EmitLiterals` | core/lz4.c:451-465 | token, length and literals of a run are written as the format has them, inside the output |
| `Lz4Encoder.CheckIsSound` | core/lz4.c:486-488 | the limit check before a match length keeps it inside the output if and only if the length satisfies an inequality |
| `Lz4Encoder.EstimateError` | core/lz4.c:486-498 | by how much the check can be wrong, for every length |
| `Lz4Encoder.SurplusFits` | core/lz4.c:486-508 | the overrun covers the length of any match that the input has room for, and a token and offset behind any match that another one can follow |
| `Lz4Encoder.NoneFollows` | core/lz4.c:500-508 | a long match that begins at position 1 or 2 is not followed at once by another, whatever the input |
| `Lz4Encoder.EmitMatch` | core/lz4.c:467-497 | offset and length of the longest match are written as the format has them, or the match is refused; how far past the limit it can get |
| `Lz4Encoder.NextMatch` | core/lz4.c:499-508 | which table entry is looked at right behind a match, what the table holds then, and that it is reported if and only if it is a match within reach |
| `Lz4Encoder.EmitOne` | core/lz4.c:467-508 | one match extends the serialized block, refused exactly when its check fails; whether another follows at once, at which distance, and with which table; its token and offset stay within the overrun |
| `Lz4Encoder.EmitMatches` | core/lz4.c:467-508 | a row of matches extends the serialized block by exactly the pieces of the parse, or a check of the parse fails |
| `Lz4Encoder.EncodeNext` | core/lz4.c:424-513 | one search and what it leads to: the encoder stands at the next piece of the parse with every check so far passed, or one of its checks fails |
| `Lz4Encoder.EmitLast` | core/lz4.c:515-528 | the final literals complete a block that decodes to the whole input; they are written exactly when the check passes, and the check is exact |
| `Lz4Encoder.CompressGeneric` | core/lz4.c:388-528 | the output is the block of the greedy parse, written if and only if all its checks pass; it is within the limit and decodes to the input; success when the limit is the published bound; a text of period two shrinks to a byte in 255 and at most 79 more; no byte is changed past the limit by more than the overrun, which is none below 134674 bytes of input |
| `Lz4Encoder.CompressLimitedOutput` | core/lz4.c:530-541 | the same for both hash tables, on every input |
| `Lz4Exhibits.EqualSearch` | core/lz4.c:420-446 | on equal bytes the first search ends at position 1, which finds position 0 |
| `Lz4Exhibits.OneMatchOverruns` | core/lz4.h:94-106 | 330505 equal bytes with 1300 bytes of output allowed: the steps of the encoder, search included, write 1301 |
| `Lz4Exhibits.MixedSearch` | core/lz4.c:420-446 | on these inputs positions 1 and 2 find nothing and position 3 finds position 0 |
| `Lz4Exhibits.SecondSearch` | core/lz4.c:502-508 | right behind the first match the entry two bytes back is found, and is a match |
| `Lz4Exhibits.TwoMatchesOverrun` | core/lz4.h:94-106 | for every input length from 134674 bytes on, an input and an output size for which the steps of the encoder, both searches included, change the byte that lies the whole overrun past the output size |
| `LzfFormat.DecodesAll` | core/lzf_d.c:55-184 | every list of well-formed items, serialized, decodes to exactly the text it stands for |
| `LzfDecoder.DecodeRef` | core/lzf_d.c:102-174 | a back reference is one step of the reference decoder, copied byte by byte through any overlap |
| `LzfDecoder.Decompress` | core/lzf_d.c:55-184 | for every input, the bytes of the reference decoder, or 0 exactly when it rejects |
| `LzfParse.AdvanceIsGreedy` | core/lzf_c.c:143-268 | a round moves on by one byte if and only if the table entry of the three bytes there is not a position past the first, within 8192 bytes, with the same three bytes; otherwise by a match of up to 264 bytes that cannot be longer |
| `LzfEncoder.MatchLength` | core/lzf_c.c:164-205 | a match is counted to the first byte that differs, to 264 bytes or to two bytes before the end of the input, but through the unrolled steps in any case |
| `LzfEncoder.PutRef` | core/lzf_c.c:207-224 | a reference in its short or long form extends the serialized block by the match |
| `LzfEncoder.PutLast` | core/lzf_c.c:273-290 | the trailing literals complete a block that decodes to the whole input |
| `LzfEncoder.SteadyFinds` | core/lzf_c.c:143-160 | in equal bytes the table leads every position from the third on to the one before it, whatever it held |
| `LzfEncoder.RoomLasts` | core/lzf_c.c:143-275 | no check fails where there is room for the input and a byte in 32, or, for equal bytes, for three bytes in 264 |
| `LzfEncoder.Round` | core/lzf_c.c:143-268 | one round of the loop is one round of the machine, or its check fails |
| `LzfEncoder.Compress` | core/lzf_c.c:99-291 | the output is what the rounds of the machine write, if and only if all its checks pass; it is within the limit and decodes to the input, whatever the hash table held before; success when there is room for the input, a byte in 32 and four more; equal bytes shrink to three bytes in 264 and at most ten more |
| `BlockCodec.InflatesStored` | core/kernint.c:35-61 | the header holds the size and the code of the algorithm, 0 for LZF and 1 for LZ4, and leads the reader to the algorithm and the bytes that were stored |
| `BlockCodec.Deflate` | core/kernint.c:35-61 | a compressed block is at least 504 bytes shorter than the block and inflates to it; a block of equal bytes is compressed by either algorithm, and how far |
| `BlockCodec.Inflate` | core/kernint.c:63-95 | for every stored block, what is read back and when it is refused |
| `BlockCodec.PaddingIgnored` | core/kernint.c:63-95 | bytes that follow the block in its last sector do not matter |
| `BlockCodec.RoundTrip` | core/gdevq.c:39-85 | every block that is stored compressed comes back byte for byte, with either algorithm |
| `BlockCodec.StoreAndRead` | core/gdevq.c:39-85 | a block that a drive accepts, stored compressed and read back through the size in its stored word, is the block, whatever follows it in its last sector |
| `TapeScan.ForwardThrough` | core/blk_map.c:1987-2012 | a forward scan that runs through a stretch goes on behind it with the count reduced |
| `TapeScan.BackwardThrough` | core/blk_map.c:1961-1985 | the same backwards |
| `TapeScan.ForwardInside` | core/blk_map.c:1987-2012 | a scan that ends inside a stretch ends as it would on the stretch alone |
| `TapeScan.BackwardInside` | core/blk_map.c:1961-1985 | the same backwards |
| `TapeScan.ForwardIsLawful` | core/blk_map.c:1917-2012 | what a forward scan means in kinds of elements alone: the mark reported is the last element passed, nothing before it stops the scan, and the count is used up by elements of the kind that the code counts, the last of them last |
| `TapeScan.BackwardIsLawful` | core/blk_map.c:1917-1985 | the same backwards |
| `TapeScan.OneForward` | core/blk_map.c:1917-2012 | there is only one such landing |
| `TapeScan.OneBackward` | core/blk_map.c:1917-1985 | the same backwards |
| `TapeScan.IndexTellsRun` | core/map_lookup.c:820-850 | the length and mark counts of a map decide exactly whether a scan runs through it, and by how much |
| `TapeMaps.BackwardMarksAgree` | core/map_lookup.c:864-928 | SPACE backward over filemarks or setmarks by the index ends where the flat scan ends, with its residual and its error; beginning of medium is reported only from the first map |
| `TapeMaps.WrongLength` | core/map_lookup.c:890-905 | after a skip by a wrong length, position and residual cannot both be right |
| `TapeMaps.BackwardBlocksExactly` | core/map_lookup.c:864-928 | over blocks one command agrees with the flat scan in position, residual and error if and only if the skipped and the chosen map have the right lengths |
| `TapeMaps.UnevenDisagrees` | core/map_lookup.c:890-905 | an interior map without marks that is not as long as the one before it makes a certain command go wrong |
| `TapeMaps.BackwardBlocksOnTape` | core/map_lookup.c:864-928 | over blocks every command agrees with the flat scan if and only if every interior map without marks is as long as the one before it |
| `TapeWriter.AppendKeepsCut` | core/blk_map.c:1371-1420 | appending keeps every map but the last closed by the element that begins the next |
| `TapeWriter.TruncateKeepsCut` | core/blk_map.c:1229-1262 | so does a cut that does not leave a later map empty |
| `TapeWriter.AppendAddsElement` | core/blk_map.c:1371-1475 | an append adds one element to the flat tape |
| `TapeWriter.TruncateKeepsPrefix` | core/blk_map.c:1229-1262 | a cut keeps exactly the elements before the position |
| `TapeWriter.EmptyAfterCut` | core/blk_map.c:1229-1262 | a cut leaves an empty last map that is not the first exactly when it is made at the first element of a later map |
| `TapeWriter.KeptInMap` | core/blk_map.c:1371-1420 | which of the elements of one write go into the map that was current |
| `TapeWriter.RunKeepsCut` | core/blk_map.c:1371-1545 | over every run of appends and clean overwrites the maps stay well cut |
| `TapeWriter.CleanRunsAgree` | core/map_lookup.c:864-928 | after every such run SPACE backward agrees with the flat tape for every code, count and position |
| `TapeWriter.UncleanRun` | core/blk_map.c:1229-1262 | a run, from an empty tape, with one overwrite at the first element of a later map |
| `TapeWriter.UncleanRunDisagrees` | core/map_lookup.c:890-905 | after it, spacing back over 100 blocks ends in the wrong place |
| `TapeWriter.Tape.Cut` | core/blk_map.c:1264-1300 | what is before the position stays, the rest goes |
| `TapeWriter.Tape.AppendAll` | core/blk_map.c:1371-1475 | the flat tape grows by exactly the elements written, in order |
| `TapeWriter.Tape.Write` | core/blk_map.c:1832-1907 | a write replaces everything behind the position by the elements written |
| `TapeIndex.Pack` | core/map_lookup.h:37-41 | logical id, filemarks and setmarks packed into one word are read back |
| `TapeIndex.NextEntry` | core/map_lookup.c:657-677 | the next entry, across lookups, is the next map; it fails exactly at the last |
| `TapeIndex.PrevEntry` | core/map_lookup.c:632-655 | the same backwards |
| `TapeIndex.MapForward` | core/blk_map.c:1987-2012 | the loop over a loaded map is the forward scan, and its landing is the lawful one |
| `TapeIndex.MapBackward` | core/blk_map.c:1961-1985 | the loop over a loaded map is the backward scan, and its landing is the lawful one |
| `TapeIndex.WalkForward` | core/map_lookup.c:798-862 | skipping whole maps by their index entries keeps the result of the flat scan |
| `TapeIndex.WalkBackward` | core/map_lookup.c:864-928 | the walk over lookups and entries is the walk over maps |
| `TapeIndex.FindMap` | core/map_lookup.c:679-761 | the map found holds the address, or is the last |
| `TapeIndex.FindFileMap` | core/map_lookup.c:701-796 | on any index, right or wrong: the lookup before the first that begins past the filemark, and in it the entry whose count reaches it |
| `TapeIndex.FilesBefore` | core/map_lookup.c:930-945 | the number of filemarks before a map as its lookup counts them |
| `TapeIndex.FilesToRight` | core/map_lookup.c:930-945 | in a right index that is the number of filemarks before the map on the tape |
| `TapeIndex.FileMapRight` | core/map_lookup.c:701-796 | in a right index the entry found holds that filemark, or is the last |
| `TapeIndex.FindFilemark` | core/blk_map.c:602-622 | the loop over a loaded map, whatever the count it starts from |
| `TapeIndex.MarkForIs` | core/blk_map.c:602-622 | it finds the filemark with exactly that number, if and only if the map has it |
| `TapeIndex.FileLocated` | core/tape_partition.c:937-965 | what map and element found mean on the flat tape |
| `TapeIndex.RightIndexLocates` | core/tape_partition.c:937-965 | LOCATE by file on a right index is right about every address |
| `TapeIndex.Partition.SpaceForward` | core/tape_partition.c:1051-1083 | SPACE forward ends where the flat scan ends, with its residual and error, for every code, count and position; in kinds of elements, where that is |
| `TapeIndex.Partition.ContinueForward` | core/tape_partition.c:1069-1082 | so does its second half, from the first element of any map |
| `TapeIndex.Partition.SpaceBackward` | core/tape_partition.c:1085-1118 | SPACE backward is the walk by the index; it ends where the flat scan ends, with its residual and error, over marks always and over blocks on an evenly cut tape; in kinds of elements, where that is |
| `TapeIndex.Partition.LocateBlock` | core/tape_partition.c:967-995 | LOCATE by address ends at the element with that logical id, or at the end of data |
| `TapeIndex.Partition.LocateFile` | core/tape_partition.c:937-965 | LOCATE by file ends at the filemark with exactly that many before it, or at the end of data |
| `TapeLayout.RunKeepsBounds` | core/blk_map.c:1508-1522 | over every run the counts of a map fit the four bits kept for them |
| `TapeLayout.AnyRunIsIndexed` | core/map_lookup.c:569-605 | after every run of writes the conditions that the index operations need can be met: a chain of lookups that meets them |
| `TapeIndexWriter.AddElementKeepsLayout` | core/map_lookup.c:569-605 | an element added to the last map, to a new map or to a new lookup, with its entry rewritten, leaves the chain that the maps call for |
| `TapeIndexWriter.CutIndexKeepsLayout` | core/map_lookup.c:544-567 | so does a cut at any place |
| `TapeIndexWriter.AddKeeps` | core/blk_map.c:1508-1540 | an append keeps chain and filemark total right |
| `TapeIndexWriter.CutTotal` | core/blk_map.c:1229-1262 | a cut keeps the total right if and only if it drops elements of the map it is made in, or there is no filemark behind that map in its lookup |
| `TapeIndexWriter.WrongStaysWrong` | core/blk_map.c:1535-1538 | a wrong total stays wrong by as much with every append until a lookup is begun |
| `TapeIndexWriter.WrongStart` | core/blk_map.c:1515-1522 | and then that lookup is entered with a wrong number of filemarks before it |
| `TapeIndexWriter.RunKeepsIndex` | core/blk_map.c:1371-1545 | over every run whose overwrites meet that condition the index, changed step by step, is the chain that the maps call for, with the right total |
| `TapeIndexWriter.RunIsIndexed` | core/blk_map.c:1371-1545 | after every such run from an empty tape the index is what SPACE and LOCATE need, and its maps are the maps of the tape |
| `TapeMiscount.LocateShifted` | core/map_lookup.c:764-796 | lookups that count k filemarks too many from one on: for every address, LOCATE by file is right if and only if the address is below the first wrong count or past the last by k; the first k filemarks there are reported missing, the others are taken k too early |
| `TapeMiscount.CountedTwice` | core/blk_map.c:1229-1262 | a run of sixteen filemarks, SPACE over fifteen, and the cut there, after which the sixteenth is still counted |
| `TapeMiscount.OffRun` | core/blk_map.c:1371-1545 | whatever is appended to an index whose total is k too large, every lookup begun since counts k too many, and nothing else is wrong |
| `TapeMiscount.AfterCarelessCut` | core/blk_map.c:1229-1262 | after a cut that leaves the total wrong, and anything appended, LOCATE by file is right about every address if and only if no lookup has been begun |
| `TapeMiscount.LocateGoesWrong` | core/map_lookup.c:764-796 | a run from an empty tape after which LOCATE by file is wrong |
| `Units.AllocBlockIsUnitStart` | core/bdev.h:125-132 | a bitmap position and the first sector of its unit |
| `Units.IndexOfInverts` | core/bdev.h:149-163 | every sector of a unit leads back to the unit's bitmap position |
| `Allocator.UsableIsInRange` | core/bdev.h:134-172 | the bits that are searched are the units past the reserved ones that fit on the disk, and the padding |
| `Allocator.EntriesCover` | core/bdev.h:134-147 | how many bytes of a page are searched, and how many bits of them are padding |
| `Allocator.EvictHead` | core/bdev.c:230-252 | evicting a page without discards loses no record of a discard in flight |
| `Allocator.Scan` | core/bdev.c:420-440 | one pass finds the first clear bit, or the first that has no discard in flight |
| `Allocator.FindClear` | core/bdev.c:418-447 | a ready bit if there is one, otherwise the first clear bit |
| `Allocator.CountFree` | core/bdev.c:348-380 | the loop counts exactly the free units of a page |
| `Disks.FoundIsUsable` | core/bdev.c:418-455 | the bit found is a unit of the disk if and only if the page is available |
| `Disks.EmptyIsFree` | core/bdev.c:1024 | the counter that a new disk starts with is the number of its usable units |
| `Disks.FreeMeansAvailable` | core/bdev.c:403-467 | with no discard in flight a disk has a free unit exactly when some page yields one |
| `Disks.Disk.constructor` | core/bdev.c:1017-1060 | a new disk: an empty bitmap, padding included, nothing allocated, an exact counter |
| `Disks.Disk.Load` | core/bdev.c:833-845 | a loaded disk has an exact counter and a coherent cache |
| `Disks.Disk.Insert` | core/bdev.c:230-252 | the cache stays coherent and keeps every record of a discard in flight |
| `Disks.Disk.GetIndex` | core/bdev.c:330-346 | the page in the cache, unless it is neither cached nor readable |
| `Disks.Disk.Choose` | core/bdev.c:403-455 | the bit settled on is a unit of the disk exactly when the page is available |
| `Disks.Disk.GetBlock` | core/bdev.c:403-467 | a unit of the page exactly when it is available and can be written; otherwise nothing changes |
| `Disks.Disk.Allocate` | core/bdev.c:469-498 | a unit that was free, that nobody owns and that no discard can still reach, reserved units excluded; success if and only if some page is available; counter, bitmap and cache in step; an exact counter stays exact |
| `Disks.Disk.Release` | core/bdev.c:523-574 | the unit's bit, the counter and the discard; the counter stays exact if and only if the write succeeds on a usable unit |
| `Disks.Disk.DiscardDone` | core/bdev.c:500-521 | one discard fewer in flight, and only that |
| `Disks.AllocateAndRelease` | core/bdev.c:469-574 | allocating and releasing leaves bitmap, counter and owners as they were; only the discard of the unit may be left |
| `Disks.TakeAll` | core/bdev.c:469-498 | with no discard in flight, allocating again and again takes every unit of the disk |
| `Disks.PaddingHidesFreeUnit` | core/bdev.c:418-455 | a run on every disk and for every unit of it: fill the disk, release the unit, allocate; the one free unit is refused if and only if it is on the last page and the disk does not end on a byte of the bitmap |
| `Pools.InsertPlace` | core/bdev.c:50-59 | the place of a disk in the list by its free space |
| `Pools.Pool.constructor` | core/bdevgroup.c:48-58 | a pool without disks |
| `Pools.Pool.Insert` | core/bdev.c:36-62 | the disk is in the list once, before the first with less free space, the others as before |
| `Pools.Pool.GetEligible` | core/bdev.c:1111-1139 | the disk in turn if it has free space, otherwise another that has, unless none does; only full disks leave the list; the turn passes to the disk behind it, from the last to the first |
| `Pools.Pool.GetBlock` | core/bdev.c:1141-1162 | a unit that nobody owns, on one disk, the others untouched; on the disk in turn if it has space; with exact counters and no discards, success if and only if some disk has free space, and both stay so |
| `Pools.Pool.Release` | core/bdev.c:1164-1173 | the unit is released on its disk, which can be found for allocation again; the discards in flight; exactly when the pool stays settled |
| `Pools.Pool.Add` | core/bdev.c:1066-1072 | a disk joins the pool and can be found; the pool stays settled exactly when the disk is |
| `Pools.TakeOne` | core/bdev.c:1141-1162 | from a settled pool, one unit less, or none left |
| `Pools.Round` | core/bdev.c:1100-1162 | from disks with free space, as many allocations as there are disks take one unit of each, and the turn is back where it was |
| `Pools.Exhaust` | core/bdev.c:1111-1162 | a settled pool yields exactly as many units as are free on all its disks together, and then refuses |
| `Libraries.Library.Grow` | core/tape_partition.c:412-493 | a partition takes a unit that no partition held |
| `Libraries.Library.Shrink` | core/tape_partition.c:1211-1260 | a partition gives a unit back, and only that partition |
| `Libraries.NeverShared` | core/tape_partition.c:412-493 | whatever was taken and given back, two units held, by one partition or by two, are different segments and have no sector in common |
| `Tapes.Tapes.constructor` | core/tape_partition.c:1703-1756 | blank tapes of a library that holds nothing |
| `Tapes.Tapes.GiveBack` | core/tape_partition.c:1262-1295 | the units at the end of a table go back to the pool, in the library and in the table alike |
| `Tapes.Tapes.Draw` | core/tape_partition.c:568-599 | units are taken from the pool one by one, each when the item that needs it is placed; they are fresh, and the table lists exactly what placing has used |
| `Tapes.Tapes.Write` | core/blk_map.c:1832-1907 | a write on one tape, with its units from the common pool: what is live afterwards, and every tape of the library as it should be |
| `Tapes.TapesApart` | core/tape_partition.c:568-599 | after any writes, rewinds and repositioning of any tapes, no two live blocks share a sector, on one tape or on two |
| `Segments.SegmentTable.Alloc` | core/tape_partition.c:412-493 | the next entry is used again or taken into use; when a step fails nothing changes and the unit is given back; a table that is a prefix with the cursor in it stays one |
| `Segments.SegmentTable.EodMap` | core/tape_partition.c:1211-1260 | what is cleared on disk, cleared in memory and released is the same run of entries |
| `Segments.SegmentTable.Eod` | core/tape_partition.c:1262-1295 | the cut across pages, complete unless a page cannot be written, and then up to that page |
| `Segments.SegmentTable.EodCurSegment` | core/tape_partition.c:1297-1309 | a cut behind the cursor leaves a prefix with the cursor in it; what was held is what is kept followed by what is released |
| `Segments.CutConserves` | core/tape_partition.c:1262-1295 | what was held is what is kept followed by what is released, and the table is a prefix again |
| `Segments.AllocKeepsPrefix` | core/tape_partition.c:412-493 | taking the next entry keeps the table a prefix |
| `Segments.HalfCut` | core/tape_partition.c:1262-1295 | a cut that stops half way leaves a prefix if and only if it cut nothing or everything |
| `Segments.Usage` | core/tape_partition.c:1757-1794 | the usage computed at load is the number of entries in use, for every prefix |
| `Segments.PrefixInUse` | core/tape_partition.c:1757-1794 | which is what the running counter holds |
| `EntryBits.DataReadsBack` | core/blk_entry.h:40-52 | the fields of a data element are read back; the compressed size if and only if it fits its 15 bits |
| `EntryBits.MarkReadsBack` | core/blk_entry.h:72-108 | so is the kind of a mark |
| `EntryBits.RoundedSectors` | core/bdev.h:88-99 | rounding to 512 bytes first does not change the number of sectors |
| `EntryBits.AcceptedReadsBack` | core/tdrive.c:1553-1588 | for every block that a drive accepts everything is read back: segment, type, sizes, and the sectors it takes |
| `DataArea.NoOverlap` | core/tape_partition.c:568-599 | where elements are laid out in order no two share a sector, and each lies inside a unit that the partition holds |
| `DataArea.FitsUnit` | core/tape_partition.c:586-598 | every block fits into a fresh unit |
| `DataArea.WordReadsBack` | core/tape_partition.c:824-835 | the stored word of an element says where it lies, how far it reaches and what it is |
| `DataArea.Join` | core/tape_partition.c:568-599 | elements placed behind live ones: all are laid out if and only if no live one reaches past the first place |
| `DataArea.MarksStayBehind` | core/blk_map.c:1440-1475 | of the elements placed from a cursor on, the first k do not reach past it if and only if they are marks |
| `DataArea.Released` | core/tape_partition.c:1262-1295 | releasing segments is safe if and only if no live element lies in them |
| `DataArea.LastIsLeast` | core/tape_partition.c:837-880 | the end of the last element is the least place past all of them |
| `DataArea.NextFollows` | core/tape_partition.c:568-599 | an element goes to the cursor if it is a mark or its sectors end inside the segment, and only otherwise to the start of the next |
| `DataArea.PackedOn` | core/tape_partition.c:568-599 | what is packed behind what is packed is packed as one |
| `DataCursor.Area.Rewind` | core/tape_partition.c:1160-1199 | whatever the cursor was, everything is in order again |
| `DataCursor.Area.Reposition` | core/blk_map.c:1704-1709 | moving the position does not put live data at risk although the cursor stays |
| `DataCursor.Area.LookupSegments` | core/tape_partition.c:824-901 | the cursor computed from the stored word of the last element is the least place past the live data, or the start of an empty tape; it cannot be computed exactly at the start of a later map |
| `DataCursor.Area.Cut` | core/blk_map.c:1229-1262 | a cut keeps the elements before the position, and the maps of them |
| `DataCursor.Area.ReleaseRest` | core/tape_partition.c:1297-1309 | the segments behind the cursor go; that is safe if and only if no live element lies in them |
| `DataCursor.Area.Overwrite` | core/blk_map.c:1264-1300 | cut and release together: what stays, where the cursor is, when it fails, and exactly when every segment still needed is kept |
| `DataCursor.Area.NextSegment` | core/tape_partition.c:412-493 | the next segment, old or new, and the cursor at its start |
| `DataCursor.Area.Place` | core/tape_partition.c:568-599 | an element goes to the cursor, or to the next segment if and only if it does not fit at the cursor; inside one unit, in as many sectors as it needs |
| `DataCursor.Area.PlaceAll` | core/blk_map.c:1371-1430 | every element of a write, each packed behind the one before |
| `DataCursor.Area.Append` | core/blk_map.c:1371-1475 | what is live afterwards, packed from the cursor on; from a good cursor live data stays apart, from any cursor exactly when it does |
| `DataCursor.Area.Prepare` | core/blk_map.c:1832-1860 | the tape is cut at the position and the cursor is where the write starts; after a rewind or load that is the least place past what stays |
| `DataCursor.Area.Write` | core/blk_map.c:1832-1907 | cut and append together: when it fails, what is live afterwards and where it is packed, that live data stays apart, that the cursor is left behind it, and when the cursor of an unflushed write is still good |
| `DataCursor.ComeBack` | core/tape_partition.c:824-901 | a rewind and the way back to the end recompute the cursor that the write left |
| `DataCursor.WriteOn` | core/tape_partition.c:824-901 | a write after a rewind and the way back goes on where the write before has ended |
| `DataCursor.WriteTwice` | core/blk_map.c:1832-1907 | two writes with a rewind between them lay the tape out as if they had been one |
| `DataExhibits.WriteAfterLoad` | core/tape_partition.c:837-901 | the first write after a load fails if and only if it is at the first element of a map other than the first |
| `DataExhibits.CanHappen` | core/tape_partition.c:837-880 | a run, from an empty tape, that ends in the case said never to happen |
| `DataExhibits.WriteAgain` | core/blk_map.c:1440-1475 | any unflushed write that keeps a block, and the next write: two live blocks share sectors |
| `DataExhibits.SharedSectors` | core/blk_map.c:1440-1475 | such a run, from an empty tape |
| `Checker.BlockReadsBack` | core/rawdefs.h:4-14 | block number and disk id packed into one word are read back |
| `Checker.CheckBlock` | core/bcheck.c:58-84 | one more bit of the shadow, for blocks of this disk |
| `Checker.CheckTable` | core/bcheck.c:86-124 | the shadow gains exactly what the used entries of a table refer to |
| `Checker.CheckPartition` | core/bcheck.c:127-145 | both tables and the unit that holds them |
| `Checker.CheckDevices` | core/bcheck.c:147-253 | every partition of every tape; what a failed run leaves marked |
| `Checker.ComparePage` | core/bcheck.c:293-317 | a page becomes its shadow, and the units freed and taken are counted |
| `Checker.StrayFreed` | core/bcheck.c:256-316 | how the count differs from the usable units: by the set bits that stand for no unit |
| `Checker.CheckIndex` | core/bcheck.c:269-336 | one page: bitmap, counter, and the cache that no longer agrees exactly when the write fails |
| `Checker.CheckPages` | core/bcheck.c:349-358 | all pages, each replaced by its shadow, the counter never below the free units |
| `Checker.Check` | core/bcheck.c:338-359 | afterwards a bit is set if and only if its unit is referenced or was left marked; the counter stays exact unless stray bits were set; a second check changes nothing |
| `LibraryCheck.WordNamesUnit` | core/bcheck.c:58-84 | the word stored for a unit leads back to its disk and its position, and to no other |
| `LibraryCheck.ReferencedIff` | core/bcheck.c:86-253 | the tables of all partitions refer to a position of a disk if and only if some partition holds that unit |
| `LibraryCheck.CheckDisk` | core/bcheck.c:338-359 | after the check of a disk of a library the bit of a unit is set if and only if some partition holds that unit, whatever the bitmap was |
| `TaskSet.Initiator.Queue` | core/vdevdefs.h:224-262 | who starts on arrival; counters exact, the oldest task in flight, an ordered task in flight only as the oldest; exactly which arrivals overtake an ordered task that waits |
| `TaskSet.Initiator.Release` | core/vdevdefs.h:389-433 | waiting tasks start in arrival order, up to the first that may not; a waiting task is started if and only if it is the oldest, or it and all older ones are simple |
| `TaskSet.Initiator.Remove` | core/vdevdefs.h:360-434 | the same invariants after every completion; who is started by it; and a completion never makes a task overtake |
| `TaskSet.Drain` | core/vdevdefs.h:360-434 | as tasks complete, every waiting task is started, once, in arrival order |
| `TaskSet.OvertakesIff` | core/vdevdefs.h:236-241 | an arrival overtakes exactly when it is a simple task that is started while an ordered one waits |
| `TaskSet.CompletionKeepsTurn` | core/vdevdefs.h:389-433 | a completion never makes a task overtake |
| `TaskSet.Overtake` | core/vdevdefs.h:224-262 | three arrivals after which a task has overtaken |
| `Reservations.SurvivorsAre` | core/reservation.c:727-751 | PREEMPT keeps exactly the registrations it should |
| `Reservations.Device.Register` | core/reservation.c:395-470 | REGISTER in every case: the registrations, one for each nexus, and the holder, which changes exactly when the holder leaves, the last registrant of an all-registrants reservation |
| `Reservations.Device.RegisterAndIgnore` | core/reservation.c:472-532 | the same for REGISTER AND IGNORE EXISTING KEY |
| `Reservations.Device.Reserve` | core/reservation.c:534-581 | who gets the reservation |
| `Reservations.Device.Release` | core/reservation.c:583-631 | who gives it up, and every status |
| `Reservations.Device.Clear` | core/reservation.c:633-656 | all registrations and the reservation go, or nothing does |
| `Reservations.Device.Preempt` | core/reservation.c:692-763 | who loses a registration, who holds the reservation then, and that it stays backed |
| `Reservations.Execute` | core/reservation.c:395-763 | of all commands only CLEAR, PREEMPT, a RELEASE of one who holds it and the leaving of its holder or last registrant end a reservation or pass it on |
| `Reservations.Run` | core/reservation.c:395-763 | over every run of commands of others, none of them CLEAR or PREEMPT, a reservation stays: that of one nexus if the nexus gives no command, that of all registrants if nobody releases it and one of them gives none |
| `Reservations.HolderLost` | core/reservation.c:437-440 | a run after which the holder has no registration |

## Left out

- Lz4Decoder.DecompressSafe: bytes decoded after an offset of 0 are not specified, because the code copies a byte onto itself; the return code is.
- Lz4Decoder.DecompressSafe: an empty input with a non-empty buffer is excluded, because the code reads the first byte before it looks at the length.
- BlockCodec.Inflate: a stored size of 0 or past the buffer, which the code only warns about, is excluded.
- Lz4Encoder.CompressLimitedOutput: the 32-bit and big-endian variants, and the hash of pointers they use, are not modelled.
- TapeMaps.BackwardBlocksExactly: only the last map may be empty, as on every tape reached by a run.
- TapeIndex.Partition.SpaceForward: end of data is reported as the code reports it, only when the command begins in the last map.
- TapeIndex.FindMap: lookups are taken as loaded; reading them and their checksums are not modelled.
- TapeLayout.AnyRunIsIndexed: says that a right chain exists; how the code gets to it is in TapeIndexWriter.
- TapeIndexWriter.RunKeepsIndex: setmark totals, which nothing searches by, and index pages that cannot be written are not modelled.
- TapeIndexWriter.WrongStaysWrong: the total is kept in memory; a lookup that is read again from disk counts its entries again, which is not modelled, so what follows a cut holds until the tape is unloaded.
- Disks.Disk.Allocate: waiting for a discard is modelled as the completion of that discard; other completions are steps of their own.
- Disks.Disk.Release: a discard that the device refuses leaves no record; the moment in which the record exists is not modelled.
- Segments.SegmentTable.Alloc: the next segment id must lie inside the table; the code relies on the capacity of the partition for that.
- Segments.SegmentTable.Eod: entries whose disk cannot be found are not modelled.
- DataCursor.Area.Write: the metadata cursor and the first metadata segment of version 2 tapes, which shares a unit with the tables, are not modelled; nor is a partial cut of the segment table, a partition of more than 2^22 segments, or a first write of an empty tape that is not flushed. Where the cursor is behind live data and the position is not the end of the tape, only the cut (DataCursor.Area.Overwrite) is specified.
- Tapes.Tapes.Write: the tape to be written must not be in the state that an unflushed write leaves, until it is rewound; writes of the pages of segment tables succeed; the unit that holds the tables and the metadata segments are not modelled.
- LibraryCheck.CheckDisk: disk ids and block numbers that do not fit the 9 and 38 bits of a table entry are not modelled, nor units that are taken while the check is made and are in no table yet.
- Checker.Check: references are required to name units that the allocator hands out; otherwise the counter could wrap.
- TaskSet.Initiator.Remove: only tasks in flight complete; blocking of a whole initiator and aborts are not modelled.
- Reservations.Device.Reserve: the six defined reservation types only; the code does not validate the type.
- Reservations.Device.Register: the legacy RESERVE and RELEASE commands, unit attentions and the READ subcommands are not modelled; the generation is not wrapped at 32 bits.
- Reading: the read-ahead cache, READ itself and the return code when SPACE runs off the end inside a newly loaded map.
- Flushing of maps, completion of data writes and the checksums of metadata pages.
- INQUIRY, MODE, LOG and attribute commands, the media changer, WORM checks and the kernel interfaces.
