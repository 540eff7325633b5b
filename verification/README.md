# Verified model of the image builders, the memory primitives and the ELF loader

This project models, in Dafny, the parts of the operating system's repository that lay out bytes and memory, and
proves what they promise for all inputs:

- **The ISO 9660 writer** (`disk_image_generator/src/iso`). A directory tree is numbered, given logical blocks and
  size estimates, and then written through one seekable file by routines that seek away and come back. The model has
  the writer as a class with bytes and a position (`Image`), the tree both as values (`DirectoryTree`) and as the
  objects that the source updates in place (`DirectoryObjects`), and an independent reader that follows ECMA-119
  (sections 6.8.1, 9.1 and 9.4), SUSP and Rock Ridge (IEEE P1281 and P1282) and knows nothing of the tree (`Reader`,
  `SystemUse`, `PathTable`). The main theorem is `Iso.CreateIso`: after a whole run, the reader gets the descriptors,
  both path tables in the order of the numbers, the whole nested directory hierarchy with full names and attributes, the
  continuation area and the content of every file back from the bytes, and finds the boot image through the catalog.
- **The protective partition's CHS addresses** (`Partition`) and **the El Torito boot catalog** (`BootCatalog`).
- **Merging directory trees** (`Merge`): a left-biased overlay that loses and doubles no file.
- **`memcpy` and `memmove`** (`MemMove`) over one flat memory, with any overlap.
- **The physical frame allocator** (`Frames`) with `swap_map` in the middle of runs.
- **The ELF segment loader** (`ElfSegments` for one segment, `ElfLoader` for the run) over physical memory, a page map
  and the allocator, on which the mapper draws as well.
- **The boot image** (`BootImage`): packer, header iterator and file access.

Every loop or in-place update of the source is a method with its own loop; a function says what the method computes,
and the lemmas are about that function.

## What was found false, and where exactly it holds

- `get_extent_size_in_lb` does not count a new sector for an entry reached with a full sector. The root's extent
  stays in its reservation if and only if there is no such entry, any other directory's if and only if the count from
  its own shorter "." is at most the estimate (`DirectoryTree.ReservationSuffices`); `OverfullOverruns` gives nine
  directories that overrun the extent of the root or of any other directory.
- The length byte of a record is `size as u8` although names of 251 bytes pass the guard: a record is read back as
  written when its size is at most 255, and never carries its size otherwise (`Records.ParseWritten`). A directory
  name of 165 letters is recorded with length 0 (`Records.LongNameFails`).
- The root's ".." is made up from an entry without children: its recorded length is the root's if and only if the
  root takes one sector (`Extents.RootParentRecord`); `Extents.RootParentDiffers` is a root that takes two. In the root
  the reader here checks the location of ".." only; everywhere else ".." must agree with the parent in everything.
- The path table is in the order of the numbers but in the level order of section 6.9.1 of ECMA-119 if and only if
  no directory with children comes behind a sibling with grandchildren, and so on below
  (`PathTable.ByLevelExactlyWhenStaged`); `LevelOrderFails` is a tree where it is not.
- A file of 2^32 - 2048 bytes or more gets too few blocks, any smaller one enough (`Files.ReservationHoldsContent`);
  one of exactly that size gets none (`Files.HugeFileFails`).
- Cylinder 1024 is not caught by the clipping: CHS addresses come back if and only if the cylinder is at most 1023
  (`Partition.ChsRoundTrip`); with 64 heads and 32 sectors, block 2097152 comes back as 0
  (`Partition.Cylinder1024Fails`).
- `rep movsb` into its own source moves the bytes if and only if the source has the period of the distance
  (`MemMove.AscendingMovesExactlyWhen`). That is why `memmove` has its other strategies.
- Runs over a set of memory maps with `swap_map` among them hand out ascending frames if and only if every map is
  ordered (`Frames.AlwaysAscendsExactlyWhen`). A run that swaps to the map it is on never hands a frame out twice if and
  only if its usable descriptors do not overlap and are in order, but that a single page may follow right behind one
  above it (`Frames.NeverTwiceExactlyWhen`); in `UnorderedRunRepeats` a frame comes twice.
- A segment that does not start on a page boundary is loaded, whatever was in memory before, if and only if the
  frames that get its data follow each other (`ElfSegments.LoadedExactlyWhen`).
- The page behind a segment counts as the segment's, and the error for a page that is mapped already is ignored. A
  segment with data on such pages is loaded if and only if its bytes were there before
  (`ElfSegments.SharedPagesExactly`); of two whole pages that follow each other the second one is lost unless it equals
  the first (`ElfSegments.AdjacentSegments`).
- At most 64 packed files read back if and only if there is none or one of them is not empty
  (`BootImage.PackRoundTrip`), and 64 is the exact limit (`BootImage.RoomForTable`).
- A boot path that names the boot catalog makes the catalog point to itself; with any other path a loader finds the
  boot image (`Iso.CatalogPointsToImage`).
- The comment in `fill_boot_catalog` doubts the fixed checksum; it is right (`BootCatalog.CatalogIsValid`).

## Assumptions of the whole-image theorem

`Iso.CreateIso` asks for what the source needs to work: no extent overruns its estimate (`UsedSectors` at most
`ExtentBlocks`; `Iso.RootSuitsExactly` and `Iso.NoExactFillsSuits` say this in terms of exact fills), record lengths
of at most 255 bytes, path tables of at most 4096 bytes (two blocks are reserved for each), an image below 2 GiB
(positions are taken `as i32`), and files whose content has the size read from their metadata. The dates are a function
of the position of the record and are otherwise arbitrary. System area, volume descriptors and the sector behind them
are a parameter of the right length.

## Model

| member | source | states |
|---|---|---|
| `Packing.AlignUpByMask` | disk_image_generator/src/iso/utils.rs:10-12 | rounding up to the next multiple of the sector size is the source's add-and-mask |
| `Packing.EstimateCountsSectors` | disk_image_generator/src/iso/directory_entry.rs:210-244 | for any entry sizes, the estimator's count plus the number of entries reached with a full sector is the number of sectors the real packing takes |
| `Packing.PackMonotone` | disk_image_generator/src/iso/directory_entry.rs:36-48 | next-fit packing that starts later never ends earlier |
| `Packing.NoStraddle` | disk_image_generator/src/iso/directory_entry.rs:36-48 | a record padded this way lies in one sector |
| `DirectoryTree.ConvertName` | disk_image_generator/src/iso/utils.rs:14-37 | an identifier has at most twelve bytes; what it is made of is in the next row |
| `DirectoryTree.ConvertNameCuts` | disk_image_generator/src/iso/utils.rs:14-37 | eight bytes of what is before the first dot, and with its dot three of what is between it and the second; the rest is lost |
| `DirectoryTree.RootSectors` | disk_image_generator/src/iso/directory_entry.rs:210-244 | the root's records take exactly the estimated sectors plus one for every exact fill |
| `DirectoryTree.OtherSectors` | disk_image_generator/src/iso/directory_entry.rs:210-244 | any other directory's records take exactly what the estimator counts from the shorter "." plus the exact fills from there, and never more than the root's |
| `DirectoryTree.ReservationSuffices` | disk_image_generator/src/iso/directory_entry.rs:210-244 | the root stays in its reservation exactly when there is no exact fill; any other directory exactly when the count from its own start is at most the estimate, and whenever there is no exact fill |
| `DirectoryTree.OverfullOverruns` | disk_image_generator/src/iso/directory_entry.rs:222-225 | a concrete directory for which the estimate is too small, as the root and as any other directory |
| `Image.OverwriteTwice` | disk_image_generator/src/iso/directory_entry.rs:64-185 | two writes, the second where the first ended, are one write |
| `Image.Writer.WriteAll` | disk_image_generator/src/iso/directory_entry.rs:99-99 | the bytes are at the position, which moved behind them; nothing else changed |
| `Image.Writer.SeekTo` | disk_image_generator/src/iso/directory_entry.rs:359-359 | the position changes and the bytes do not |
| `Image.Writer.WriteBoth32` | disk_image_generator/src/iso/utils.rs:120-125 | a number in both byte orders, little-endian first |
| `Image.PadSector` | disk_image_generator/src/iso/directory_entry.rs:396-406 | zeros up to the end of the sector, none on a boundary |
| `Bytes.Decode32Encoded` | disk_image_generator/src/iso/utils.rs:120-125 | reading a 32-bit number in either byte order gives back what was written |
| `Bytes.Decode16Encoded` | disk_image_generator/src/iso/directory_entry.rs:278-278 | the same for 16 bits |
| `Records.DirRecordSize` | disk_image_generator/src/iso/utils.rs:39-88 | for every kind of record in use, the computed size is the number of bytes written; for the root's "." exactly when it has a continuation area |
| `Records.FileRecordSize` | disk_image_generator/src/iso/file_entry.rs:154-159 | the computed size of a file's record is the number of bytes written |
| `Records.PadForRecord` | disk_image_generator/src/iso/directory_entry.rs:36-48 | zeros to the next sector exactly when the record does not fit in this one |
| `Records.WriteHeader` | disk_image_generator/src/iso/directory_entry.rs:64-104 | the fields of section 9.1 of ECMA-119, one after the other |
| `Records.WriteDirEntry` | disk_image_generator/src/iso/directory_entry.rs:28-192 | writes the placed record at the position and nothing else; the position assertion holds |
| `Records.WriteFileEntry` | disk_image_generator/src/iso/file_entry.rs:44-152 | the same for the record of a file |
| `Records.LongNameFails` | disk_image_generator/src/iso/directory_entry.rs:64-64 | the record of a directory name of 165 letters has length byte 0 |
| `Records.ParseWritten` | disk_image_generator/src/iso/directory_entry.rs:64-104 | a reader of section 9.1 gets identifier, block, length, flags and system use area back when the size fits the length byte, and finds no extended attributes, no interleaving and volume 1; otherwise the length byte is wrong; the date is the one read for the record |
| `Records.DirFieldsRead` | disk_image_generator/src/iso/directory_entry.rs:106-185 | walking the area by length bytes, a reader finds mode drwxr-xr-x, one link, owner 0 and the serial number; in the parent's extent the full name; in the root's "." the check bytes and block and length of the continuation area |
| `Records.FileFieldsRead` | disk_image_generator/src/iso/file_entry.rs:109-145 | the same for a file: mode -rw-r--r--, the block as serial number, the full name |
| `Layout.AssignForestShape` | disk_image_generator/src/iso/mod.rs:23-53 | siblings keep names and files, the forest its numbers of directories and blocks |
| `Layout.AssignKeepsTree` | disk_image_generator/src/iso/mod.rs:23-53 | at any depth numbering changes numbers and blocks only |
| `Layout.ReserveKeepsTree` | disk_image_generator/src/iso/mod.rs:55-65 | at any depth reservation changes the files' blocks only |
| `Layout.PassesKeepTree` | disk_image_generator/src/iso/mod.rs:341-348 | both passes keep names, structure, sizes and contents of the whole tree |
| `Layout.AssignForestLays` | disk_image_generator/src/iso/mod.rs:23-53 | siblings get consecutive numbers, every extent lies right behind the one before, and the counters end behind the last directory and block |
| `Layout.ReserveFilesLays` | disk_image_generator/src/iso/mod.rs:55-60 | the files of a directory lie one behind the other; only their blocks change |
| `Layout.ReserveForestLays` | disk_image_generator/src/iso/mod.rs:55-65 | the files of a forest lie one behind the other, a directory's own before those below it |
| `Layout.ReserveForestKeepsLaid` | disk_image_generator/src/iso/mod.rs:55-65 | reserving files disturbs neither numbers nor extents |
| `Layout.PassesLayRoot` | disk_image_generator/src/iso/mod.rs:339-348 | after both passes and the root's own assignments the whole tree is laid out, and the counter is the end of the image |
| `Tiling.RegionsTile` | disk_image_generator/src/iso/mod.rs:341-352 | root extent, continuation block, all other extents and all files tile the blocks from the first extent to the end of the image |
| `Tiling.TilesAreDisjoint` | disk_image_generator/src/iso/mod.rs:23-65 | any two regions of a tiling are apart, in order and inside the range |
| `Tiling.TilesCover` | disk_image_generator/src/iso/mod.rs:23-65 | every block of the range belongs to a region |
| `PathTable.TraversalIsComplete` | disk_image_generator/src/iso/directory_entry.rs:289-305 | the path table's traversal visits every directory exactly once |
| `PathTable.TraversalFollowsNumbers` | disk_image_generator/src/iso/directory_entry.rs:289-305 | the k-th directory visited below a forest has the k-th number handed out there |
| `PathTable.TraversalHasParents` | disk_image_generator/src/iso/mod.rs:43-48 | every directory visited is a child of the one whose number it carries |
| `PathTable.ParentBeforeChild` | disk_image_generator/src/iso/mod.rs:43-52 | a directory has a smaller number than its children |
| `PathTable.PathTableOrder` | disk_image_generator/src/iso/directory_entry.rs:289-325 | the n-th record is the directory with number n; the root names itself as parent, every other its real parent by a smaller number |
| `PathTable.ByLevelExactlyWhenStaged` | disk_image_generator/src/iso/directory_entry.rs:296-302 | the records are in level order exactly when no directory with children follows a sibling with grandchildren, at any depth |
| `PathTable.LevelOrderFails` | disk_image_generator/src/iso/directory_entry.rs:296-302 | a concrete tree whose table is not in level order |
| `PathTable.PathTableSizeIsExact` | disk_image_generator/src/iso/directory_entry.rs:194-208 | when only the root has index 1, the computed size is the size of the table |
| `PathTable.WriteTableRecord` | disk_image_generator/src/iso/directory_entry.rs:256-287 | one record of section 9.4 in the given byte order |
| `PathTable.WriteTableChilds` | disk_image_generator/src/iso/directory_entry.rs:289-305 | the two loops write the records of the whole traversal, one behind the other |
| `PathTable.WritePathTable` | disk_image_generator/src/iso/directory_entry.rs:307-346 | the table and its padding at its block, nothing else changed, position restored; the size assertion holds |
| `PathTable.PathTableRoundTrip` | disk_image_generator/src/iso/directory_entry.rs:256-346 | a reader of section 9.4 gets the list of the traversal back, the same in both byte orders: identifiers, no extended attributes, blocks, parents |
| `Extents.RootParentRecord` | disk_image_generator/src/iso/directory_entry.rs:365-382 | the root's "." and ".." give the same block always, the same length exactly when the root takes one sector |
| `Extents.RootParentDiffers` | disk_image_generator/src/iso/directory_entry.rs:365-382 | a root of two sectors whose ".." gives one |
| `Extents.ExtentPacking` | disk_image_generator/src/iso/directory_entry.rs:363-394 | the records of an extent end where the packing of their sizes says, wherever the extent starts |
| `Extents.WriteContinuationArea` | disk_image_generator/src/iso/directory_entry.rs:455-488 | fills the block behind the root's extent and touches nothing else; position restored |
| `Extents.WriteExtent` | disk_image_generator/src/iso/directory_entry.rs:348-414 | although children are written in the middle of their parent's records, the result is the extents one behind the other; nothing outside changes; the file has whole sectors; position restored |
| `Extents.RecordStep` | disk_image_generator/src/iso/directory_entry.rs:387-394 | one record more, where the packing has it, keeps all extents written so far |
| `Extents.ChildStep` | disk_image_generator/src/iso/directory_entry.rs:387-390 | a child written with all below it keeps the parent's records and the children before it |
| `Reader.RootRecord` | disk_image_generator/src/iso/directory_entry.rs:53-105 | the root's record for the volume descriptor has 34 bytes, identifier 0, and the block and length where a reader starts |
| `Reader.DotsAre` | disk_image_generator/src/iso/directory_entry.rs:363-382 | "." gives the directory's extent, ".." of any other directory than the root block, length and attributes of its parent, of the root its own block |
| `Reader.ScanPlaced` | disk_image_generator/src/iso/directory_entry.rs:36-46 | a record moved to the next sector is found by skipping on a zero length byte |
| `Reader.ScanExtent` | disk_image_generator/src/iso/directory_entry.rs:348-406 | scanning an extent over its recorded length gives exactly the entries of its records |
| `Reader.ReadForest` | disk_image_generator/src/iso/directory_entry.rs:348-414 | reading the children of a directory, recursively, gives their listing |
| `Reader.DirectoryRoundTrip` | disk_image_generator/src/iso/directory_entry.rs:348-414 | from the root's block and length alone a reader recovers exactly the nested list of identifiers, full names, blocks, lengths and attributes, every ".." with what the parent was found with, and the bytes of the continuation area |
| `Files.ReservationHoldsContent` | disk_image_generator/src/iso/mod.rs:57-59 | a content of the recorded size fits its blocks exactly when the 32-bit sum does not wrap |
| `Files.HugeFileFails` | disk_image_generator/src/iso/mod.rs:57-59 | no block is reserved for a file of 2^32 - 2048 bytes |
| `Files.WriteContent` | disk_image_generator/src/iso/file_entry.rs:172-198 | the content and zeros fill the reserved blocks, nothing else changes, position restored |
| `Files.WriteOwnFiles` | disk_image_generator/src/iso/directory_entry.rs:424-426 | the contents of a directory's files, one behind the other |
| `Files.WriteFiles` | disk_image_generator/src/iso/directory_entry.rs:416-428 | children are written before the directory's own files, yet all contents end up in the order of reservation |
| `Files.TreeFileHeld` | disk_image_generator/src/iso/file_entry.rs:172-198 | every file of the tree is found whole at its own block |
| `BootCatalog.CatalogIsValid` | disk_image_generator/src/iso/mod.rs:93-141 | the words of the validation entry add up to zero modulo 2^16; header, platform, key bytes, boot indicator, sector count and block read back, and all other bytes are zero |
| `BootCatalog.CatalogKeepsBlocks` | disk_image_generator/src/iso/mod.rs:143-150 | the catalog, empty when blocks are reserved, fits its one block when it has its 64 bytes |
| `BootCatalog.FillKeepsLayout` | disk_image_generator/src/iso/mod.rs:84-153 | filling the catalog keeps numbers, extents, files and the end of the image |
| `DirectoryObjects.DirectoryEntry.GetExtentSizeInLb` | disk_image_generator/src/iso/directory_entry.rs:210-244 | the two loops compute the estimate |
| `DirectoryObjects.DirectoryEntry.Clone` | disk_image_generator/src/iso/directory_entry.rs:385-385 | a clone has the value of the whole tree |
| `DirectoryObjects.DirectoryEntry.NumberChildren` | disk_image_generator/src/iso/mod.rs:43-48 | children get consecutive numbers and their parent's, and nothing below them changes |
| `DirectoryObjects.DirectoryEntry.AssignDirectoryIdentifiers` | disk_image_generator/src/iso/mod.rs:23-53 | the in-place pass over the objects is the numbering of `Layout`, counters included |
| `DirectoryObjects.DirectoryEntry.AssignChildren` | disk_image_generator/src/iso/mod.rs:43-52 | all children are numbered before any of them goes down |
| `DirectoryObjects.DirectoryEntry.PlaceRoot` | disk_image_generator/src/iso/mod.rs:342-343 | only the root's parent number and block change |
| `DirectoryObjects.DirectoryEntry.ReserveOwnFiles` | disk_image_generator/src/iso/mod.rs:56-60 | the loop over the files gives each its block and leaves the counter behind the last |
| `DirectoryObjects.DirectoryEntry.ReserveFileSpace` | disk_image_generator/src/iso/mod.rs:55-65 | the in-place pass is the reservation of `Layout`, counter included |
| `DirectoryObjects.DirectoryEntry.LastChild` | disk_image_generator/src/iso/directory_entry.rs:566-569 | the last child with the name, none exactly when there is none |
| `DirectoryObjects.DirectoryEntry.MergeChildDirectories` | disk_image_generator/src/iso/directory_entry.rs:563-577 | merging in place is the merge of `Merge` on the values |
| `DirectoryObjects.DirectoryEntry.MergeChild` | disk_image_generator/src/iso/directory_entry.rs:543-561 | one directory goes into the last child of its name or becomes a new child |
| `DirectoryObjects.DirectoryEntry.FirstChild` | disk_image_generator/src/iso/directory_entry.rs:490-502 | the first child with the name, none exactly when there is none |
| `DirectoryObjects.DirectoryEntry.GetFileEntry` | disk_image_generator/src/iso/directory_entry.rs:504-536 | walking down a path finds the file that the lookup on values gives, of which `Merge.GetFileFinds` says what it is |
| `DirectoryObjects.DirectoryEntry.FillBootCatalog` | disk_image_generator/src/iso/mod.rs:84-153 | fails exactly when boot image or catalog is missing, else the catalog has its bytes and nothing else changed |
| `Iso.NoExactFillsSuits` | disk_image_generator/src/iso/directory_entry.rs:210-244 | a forest without exact fills, with names of at most 158 bytes, has no overrunning extent and no record longer than its length byte can say |
| `Iso.RootSuitsExactly` | disk_image_generator/src/iso/directory_entry.rs:210-244 | a root over such a forest can be written as the run needs exactly when it has no exact fill itself |
| `Iso.SmallestImage` | disk_image_generator/src/iso/mod.rs:308-348 | the run's requirements are met by an empty root and by one with only the catalog, with the end of the image worked out |
| `Iso.LayOutIsReady` | disk_image_generator/src/iso/mod.rs:308-348 | a suitable tree stays suitable through both passes and ends up laid out |
| `Iso.FinishIsReady` | disk_image_generator/src/iso/mod.rs:350-352 | filling the catalog after reservation keeps all that, and the path table's size |
| `Iso.AreaIsExtension` | disk_image_generator/src/iso/mod.rs:326-339 | taken apart as an 'ER' field its lengths add up and its identifier is IEEE_1282 |
| `Iso.FinishSucceeds` | disk_image_generator/src/iso/mod.rs:84-91 | the catalog can be filled exactly when the boot path finds a file in the tree that was given |
| `Iso.BootImageIsFound` | disk_image_generator/src/iso/mod.rs:84-153 | at the block in the image's catalog is the content that the boot image had in the tree that was given |
| `Iso.RockRidgeArea` | disk_image_generator/src/iso/mod.rs:326-339 | the length byte 0xB6 of the 'ER' field is its length |
| `Iso.FinishKeepsTree` | disk_image_generator/src/iso/mod.rs:341-352 | after passes and catalog the tree is the one given, but for numbers, blocks and the catalog's content |
| `Iso.WriteTable` | disk_image_generator/src/iso/mod.rs:369-370 | a path table fills its two blocks and leaves what was written before |
| `Iso.AppendTrailer` | disk_image_generator/src/iso/mod.rs:373-377 | exactly 128 empty sectors are appended, and the position is back before them |
| `Iso.WriteImage` | disk_image_generator/src/iso/mod.rs:358-377 | after all writes the file holds descriptors, both tables, all extents and all files one behind the other |
| `Iso.ImageReadsBack` | disk_image_generator/src/iso/mod.rs:341-372 | whole-image integrity: path tables, hierarchy and every file's content are read back from such a file |
| `Iso.CreateIso` | disk_image_generator/src/iso/mod.rs:303-380 | the whole run on the objects: fails exactly when the boot path finds no file; else the tree keeps its names, structure, sizes and contents, but for the catalog's, everything reads back, the boot image is found through the catalog, and the file has whole sectors |
| `Iso.FoundIsInTree` | disk_image_generator/src/iso/directory_entry.rs:504-536 | a file that a path leads to is in the tree, for one name among the directory's own |
| `Iso.ImageStays` | disk_image_generator/src/iso/mod.rs:86-150 | filling the catalog keeps the boot image in the tree, unless the path names the catalog |
| `Iso.CatalogPointsToImage` | disk_image_generator/src/iso/mod.rs:84-153 | from the catalog in the image a loader gets the boot image's block and finds its content there; a path that names the catalog leads to the catalog itself |
| `Partition.WriteLbaToCls` | disk_image_generator/src/iso/utils.rs:90-118 | three bytes at the position: head, sector with the cylinder's high bits, cylinder |
| `Partition.Cylinder1024Fails` | disk_image_generator/src/iso/utils.rs:104-111 | a block of cylinder 1024 comes back as block 0 |
| `Partition.ChsRoundTrip` | disk_image_generator/src/iso/utils.rs:90-118 | decoding the three bytes gives the address exactly when its cylinder is at most 1023, with a head and a sector that the disk has; cylinder 1024 comes out as 0, and any further one as always the same bytes |
| `Merge.GetFileFinds` | disk_image_generator/src/iso/directory_entry.rs:504-536 | a path finds a file exactly when it is made, with slashes, of names that lead down one directory each and of the name of the first file of that name there |
| `Merge.LeadsWhereUnique` | disk_image_generator/src/iso/directory_entry.rs:490-502 | where no siblings share a name, the names lead to whatever directory has them |
| `Merge.MergeOneTarget` | disk_image_generator/src/iso/directory_entry.rs:543-561 | a directory's files and children go behind those of the last one of its name, or it becomes the last child; all others stay |
| `Merge.MergeAllOrder` | disk_image_generator/src/iso/directory_entry.rs:563-577 | the merged directories stand in the order in which their names are first met |
| `Merge.MergeAllLookup` | disk_image_generator/src/iso/directory_entry.rs:563-577 | a name in the merged children finds the merge of what it finds in the two |
| `Merge.MergeKeepsUnique` | disk_image_generator/src/iso/directory_entry.rs:543-577 | sibling names stay unique at every level |
| `Merge.MergeIsOverlay` | disk_image_generator/src/iso/directory_entry.rs:504-577 | a path finds the first tree's file where it has one, and else the second's |
| `Merge.MergeKeepsFiles` | disk_image_generator/src/iso/directory_entry.rs:543-577 | the files with their paths are those of both trees, with multiplicity, whatever the names |
| `MemMove.AscendingMoves` | kernel_api/common/src/util.rs:27-34 | ascending copying moves the bytes when the destination starts first or behind the source |
| `MemMove.AscendingRepeats` | kernel_api/common/src/util.rs:27-34 | into its own source it repeats the bytes ahead of the destination |
| `MemMove.AscendingMovesExactlyWhen` | kernel_api/common/src/util.rs:27-34 | with that overlap it moves the bytes exactly when the source has that period |
| `MemMove.MemCpy` | kernel_api/common/src/util.rs:27-34 | byte by byte in ascending order |
| `MemMove.MoveBytes` | kernel_api/common/src/util.rs:56-59 | bytes from the top, down to an aligned end or to none, each with its original value |
| `MemMove.MoveWords` | kernel_api/common/src/util.rs:55-76 | the strategy for a small overhang moves everything, and every eight-byte store is aligned |
| `MemMove.MemMove` | kernel_api/common/src/util.rs:51-92 | for any overlap, byte by byte, the destination holds what the source held and all other memory is unchanged; every overlapping chunk is copied between disjoint ranges |
| `Frames.FrameAllocator.constructor` | kernel_api/common/src/mem.rs:240-274 | the frames to come are `usable_frames` |
| `Frames.FrameAllocator.AllocateFrame` | kernel_api/common/src/mem.rs:302-306 | hands out the next of the frames to come; none, and none ever after, exactly when there is none |
| `Frames.FrameAllocator.SwapMap` | kernel_api/common/src/mem.rs:201-238 | panics exactly when no frame is left or no usable descriptor starts at or after it; else the frames to come are those behind the first such descriptor |
| `Frames.FrameAllocator.AllocateSize` | kernel_api/common/src/mem.rs:286-299 | takes that many frames and returns the first, or uses all up and fails |
| `Frames.UsableFramesAre` | kernel_api/common/src/mem.rs:276-284 | with aligned descriptors the frames are exactly the pages inside usable descriptors |
| `Frames.FramesAreFree` | kernel_api/common/src/efi.rs:434-442 | frames are exactly the pages of conventional memory and of the code of the boot services |
| `Frames.UsableFramesCount` | kernel_api/common/src/mem.rs:276-284 | as many frames as the usable descriptors have pages |
| `Frames.SkipToAscends` | kernel_api/common/src/mem.rs:214-217 | what is left after a swap is not below the frame of the swap |
| `Frames.Execute` | kernel_api/common/src/mem.rs:201-238 | a run of allocations and swaps on an allocator hands out the frames of the abstract run |
| `Frames.AllocationsInOrder` | kernel_api/common/src/mem.rs:302-306 | without swaps the k-th allocation gives the k-th usable frame, and after the last one nothing |
| `Frames.RunAscends` | kernel_api/common/src/mem.rs:201-238 | over any run with swaps to ordered maps every frame is above all earlier ones |
| `Frames.FreshRunAscends` | kernel_api/common/src/mem.rs:201-274 | the same from a fresh allocator |
| `Frames.AlwaysAscendsExactlyWhen` | kernel_api/common/src/mem.rs:201-274 | for any set of maps with non-empty, page-aligned usable descriptors: all runs from them with swaps among them ascend exactly when every map is ordered |
| `Frames.NeverTwiceExactlyWhen` | kernel_api/common/src/mem.rs:201-238 | for such a map: no run that swaps to it hands a frame out twice exactly when its usable descriptors do not overlap and at most single pages come right behind one above them |
| `Frames.ForwardRuns` | kernel_api/common/src/mem.rs:210-219 | as long as swaps do not go back, the frames of a run are distinct and among those that were to come |
| `Frames.BackwardRepeats` | kernel_api/common/src/mem.rs:214-217 | one swap that goes back gives a run with a repeated frame |
| `Frames.UnorderedRunRepeats` | kernel_api/common/src/mem.rs:214-217 | a run over a map out of order that hands a frame out twice |
| `ElfSegments.StaysInFramesExactly` | kernel_api/common/src/process.rs:196-210 | no copy leaves its frame exactly when the segment is page-aligned or its data ends in its first page |
| `ElfSegments.PiecesHold` | kernel_api/common/src/process.rs:183-227 | copies that stay in their frames do not disturb each other, the repeated tail included, and touch nothing outside |
| `ElfSegments.PiecesTouch` | kernel_api/common/src/process.rs:196-210 | only bytes in the allocated frames differ |
| `ElfSegments.MapPagesMaps` | kernel_api/common/src/process.rs:212-222 | pages that were not mapped get their frames, and those that were stay as they are |
| `ElfSegments.SegmentIsLoaded` | kernel_api/common/src/process.rs:161-232 | with free pages, every byte of an aligned segment, and of any on consecutive frames, is found through the page map at its virtual address |
| `ElfSegments.GapBreaksSegment` | kernel_api/common/src/process.rs:196-210 | with a gap between frames, the first byte of the next page of an unaligned segment is what memory held before, so the segment is not loaded when that differs from the file |
| `ElfSegments.LoadedExactlyWhen` | kernel_api/common/src/process.rs:161-232 | loaded from every memory exactly when aligned or on consecutive frames |
| `ElfSegments.MemoryBehindData` | kernel_api/common/src/process.rs:183-227 | memory is not cleared: from the last page with data on, every page has the last piece at its start and behind it what was there before |
| `ElfSegments.SharedPagesExactly` | kernel_api/common/src/process.rs:212-222 | a segment with pages that are mapped already is loaded exactly when its bytes on them were there before |
| `ElfSegments.AdjacentSegments` | kernel_api/common/src/process.rs:169-173 | the second of two adjoining one-page segments is loaded exactly when it equals the first |
| `ElfLoader.PickedIsGood` | kernel_api/common/src/process.rs:184-194 | frames picked from an ascending run, whatever the mapper takes in between, ascend, and the rest lies above them |
| `ElfLoader.Loader.TakeTables` | kernel_api/common/src/process.rs:190-194 | the mapper takes any number of frames off the front of those to come |
| `ElfLoader.Loader.LoadPage` | kernel_api/common/src/process.rs:183-222 | the first frame gets the piece and the page, if it is free; fails only when no frame is left |
| `ElfLoader.Loader.LoadSegment` | kernel_api/common/src/process.rs:178-228 | one frame for each page from that of the address to that of the address behind the segment, in order, out of those the mapper leaves; copies and mappings as the lemmas have them; fails only when no frame is left |
| `ElfLoader.Loader.LoadSegments` | kernel_api/common/src/process.rs:161-232 | for any headers: afterwards exactly the pages of the load segments with file data are mapped, to their last one behind the segment, those that were free each to a frame of its own, what was mapped as before; every segment with free data pages is loaded that is aligned or got consecutive frames, whatever the others do; if all copies stay in their frames only frames taken were written; fails only when frames or file end |
| `ElfLoader.PagesStep` | kernel_api/common/src/process.rs:166-222 | one segment more maps its pages, all of them and no other, and new ones to frames that no page has yet |
| `ElfLoader.SegmentStep` | kernel_api/common/src/process.rs:161-232 | one segment more keeps all that were loaded before, even when its copies spill |
| `BootImage.Pack` | boot_image_generator/src/main.rs:39-96 | the three loops produce table and contents at the offsets in the headers |
| `BootImage.FileIterator.Next` | boot_image_generator/src/lib.rs:29-42 | the header at the index, then none |
| `BootImage.AllFiles` | boot_image_generator/src/lib.rs:57-62 | iterating gives as many headers as the count says, in order |
| `BootImage.PackedHolds` | boot_image_generator/src/main.rs:85-96 | writing contents leaves the table and every content before it as they are |
| `BootImage.PackRoundTrip` | boot_image_generator/src/lib.rs:57-66 | at most 64 files read back, count, names byte by byte, and contents, exactly when there is none or one is not empty |
| `BootImage.FixedNameIs` | boot_image_generator/src/main.rs:47-51 | sixteen bytes, those of the name as far as it goes and zeros behind it |
| `BootImage.PackIsGapless` | boot_image_generator/src/main.rs:40-61 | the headers give the contents without gaps, the first one behind the room for 64 headers |
| `BootImage.TableOverflows` | boot_image_generator/src/main.rs:40-40 | for every larger number there are files that do not read back |
| `BootImage.RoomForTable` | boot_image_generator/src/main.rs:40-40 | any n files with some content read back exactly when n is at most 64 |

## Left out

- Iso.CreateIso: files read from disk are assumed to have the size their metadata gave; a content that changed in between is not modelled.
- Iso.CreateIso: `write_system_area`, the volume descriptors and the 'MKI' sector are one given byte string, because they are fixed templates; of them only the root's record is modelled (`Reader.RootRecord`).
- Iso.CreateIso: `patch_boot_image`, which rewrites some bytes of the boot image before it is written, and `option.rs`.
- Iso.CreateIso: trees above 2 GiB, where positions wrap as i32, and the overflow panics of debug builds.
- Iso.CreateIso: blocks reserved behind the last written byte may not be in the file; they read as zero here.
- DirectoryTree.ConvertName: names are ASCII byte strings of at most 251 bytes; the panics for longer names and for cuts inside a UTF-8 character are not modelled.
- Records.WriteDirEntry: record kind 4, which no caller uses; for it the computed size counts another identifier than the one written.
- Reader.DirectoryRoundTrip: the reader takes a bound on the depth, and any bound not below the tree's depth will do.
- BootCatalog.FillKeepsLayout: the panic for a catalog that is a regular file; the run adds its own before any other file.
- DirectoryObjects.DirectoryEntry.MergeChildDirectories: the source consumes the merged directory; the objects here stay readable but belong to the result.
- Partition.ChsRoundTrip: geometries with more than 256 heads or 63 sectors, whose numbers do not fit their fields.
- Frames.FrameAllocator.AllocateFrame: addresses are unbounded, so the wrap-around of an address near 2^64 is not modelled.
- Frames.FrameAllocator.SwapMap: the stored memory map is not replaced, as in the source, so `usable_frames` still lists the old map.
- Frames.NeverTwiceExactlyWhen: repeats across different maps that are not ordered; `Frames.AlwaysAscendsExactlyWhen` covers sets of maps, for ascending frames.
- ElfLoader.Loader.TakeTables: what the mapper writes into its tables, and the flags of the pages; the mapper is a partial map, and its ignored error for a mapped page leaves it unchanged.
- ElfLoader.Loader.LoadSegment: when the frames run out inside the mapping of a segment's last page, the source goes on with that page left out; the run ends there.
- ElfLoader.Loader.LoadSegments: memory is assumed to reach one page behind every frame, because a copy may spill that far.
- ElfLoader.Loader.LoadSegments: segments without file data are not mapped, as in the source; what is behind the data is stated for aligned segments only (`ElfSegments.MemoryBehindData`), and nothing about segments that are longer in the file than in memory.
- BootImage.Pack: a `write` that writes less than it is given, and big-endian machines.
- BootImage.AllFiles: headers past the end of the image read as zero instead of as foreign memory.
- `set_path` and `set_path_files`, clocks, option parsing and FAT formatting: file system access and plumbing.
- `Heap`, `HoleList`, x86_64 paging, `memcmp`, interrupts, APIC, syscalls, GDT, serial, UEFI tables, PCI, keyboard, scheduler: hardware, foreign code or too little logic.
