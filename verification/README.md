# Recovery engines, modelled and proved

RecoveryTools rebuilds files from damaged media: it walks ext4 extent trees, puts
fragmented GoPro recordings together again, follows FAT32 cluster chains, separates
interleaved audio recordings, merges flash dumps, and shows what it found in a folder
tree with check marks. This project models those engines in Dafny, in the form they have
in the C++ sources (classes with fields updated in place, loops over buffers, recursive
functions over values), and proves what their results mean: closed forms for every input,
invariants over every run, round trips, and uniqueness or optimality of what a greedy
loop finds. Where the code does not do what one expects of it, there is a lemma that says
exactly when it does.

One file per component:

| file | component |
|---|---|
| `Bytes.dfy`, `Arithmetic.dfy` | byte sequences, little-endian fields, overwriting a sparse file, division facts |
| `IoFile.dfy`, `DiskDevice.dfy` | chunked transfers over a device with short transfers, unaligned drive reads |
| `ExtentTree.dfy`, `ExtentChain.dfy`, `OffsetList.dfy` | ext4: tree to image, greedy chaining of orphan nodes, offset text files |
| `GoProNew.dfy` | reassembly of GoPro clusters by their markers |
| `FatTable.dfy`, `ClusterRuns.dfy`, `FatChain.dfy`, `FatFile.dfy`, `FatDirectory.dfy` | FAT32: table cache, run lists, chains, run-wise reading, long and short names |
| `DirectoryTree.dfy`, `FolderTable.dfy`, `FolderPath.dfy`, `FolderTree.dfy`, `FolderViews.dfy` | directories and names; the table view's check marks and paths; the tree view; both built from one directory |
| `FleshCollector.dfy` | merging flash dump pages into one image |
| `DefaultRaw.dfy`, `ZoomRecorder.dfy`, `ZoomShares.dfy`, `ZoomH6.dfy` | copying ranges, de-interleaving ZOOM recordings |
| `SignatureFinder.dfy` | scanning for file headers |

Conventions. A medium or a file is a `seq<byte>`; `File` is the source's file object over
its transfer engine. `None`, or `ok == false`, stands for an exception. `Ready()` means a
device that fails only past its end or on an empty request and may still deliver any
shorter non-empty transfer; under it the outcome of every operation is determined, errors
included. Ghost parameters (`shape`, `h`, `n`, `pages`) carry what a proof needs and change
nothing. `U32` and `U64` mark the places where the C++ types wrap.

## What the code does that its names do not say

- A leaf of an extent tree is dropped at its first extent whose data begin with the
  bad-sector marker; the extents before it stay written (libraw/src/ext4_raw.cpp:429-430).
- Extent data are read at absolute block addresses, tree nodes relative to the volume
  (libraw/src/ext4_raw.cpp:395, 411). The theorems hold for every volume offset.
- The recursion over an extent tree does not check depths. It ends exactly when no path of
  index nodes visits a block twice (`FiniteIffNoRepeat`); `SelfReferenceNotFinite` is a
  medium of one block on which it does not.
- Pieces of a chained file overlap when their sizes pass 2^64 (`WrappingOverlaps`); they
  tile whenever the listed sizes stay below it (`SmallListTiles`).
- An offset table whose clusters are entered twice, or lie behind the last one, is not
  bucketed: offsets are lost or the table access throws (`ToArrayListMarkers`). The
  placement then goes by the lists that were made (`SaveByMarkers`).
- A FAT32 chain ends only on 0x0FFFFFFF, on 0x0FFFFFF7 or outside the table
  (libfs/src/fat_fs.cpp:749-764). The other end marks, from 0x0FFFFFF8 on, are visited as
  if they were clusters: `MarkInChain` says exactly when a chain gets a cluster too many,
  `MarkCounted` is a table where it does.
- The range guard is strict, and compares a sector counted from the device with the
  volume's own number of sectors (libfs/src/fat_fs.cpp:709-711). It skips exactly the runs
  whose last sector is one of the volume's last `start_sector` + 1, or behind the volume
  (`GuardShifted`). `WholeFile` says exactly when nothing is lost; `RunInVolumeSkipped` is a
  run well inside a partition that is.
- `bytes_read` counts 512 bytes a sector whatever the sector size
  (libfs/src/fat_fs.cpp:714); `CountersAgree` says when that is right.
- The size computed from the table is 0 for a first cluster of `count_cluster` or more.
  Clusters are numbered from 2, so this shuts out the volume's last two clusters
  (libfs/src/fat_fs.cpp:676). `SizeThenRead` says exactly when this size, the bytes stored
  and the bytes reported are one number; `LastClusterUnsized` runs both on a file of 512
  bytes whose size is 0, which the caller drops (FSViewer/src/FSViewer.cpp:225-226).
- That size is taken modulo 2^32, so a buffer made by it holds what the read stores
  whenever the clusters are less than 4 GiB, and, if no run is skipped, only then
  (`TableSizeSuffices`); `LargeRunOverruns` is a run that gets a buffer of one cluster.
- A directory entry becomes a node only if its attribute byte is 0x10, 0x07, 0x20 or 0;
  volume labels are dropped, and so are, for instance, read-only or hidden combinations
  (libfs/src/fat_fs.cpp:548-565). The scan does not stop at the first unused entry: a zero
  entry becomes a file without a name (`UnusedEntryShown`).
- The table and the tree view of a directory find the same folder under a name exactly
  when no two folders share it: the table is sorted without regard to the order of equal
  names, the tree keeps the first (`HarmlessIffUnique`, `TwoOfOneName`).
- The tree view's check marks are not the table's: a click reaches one level down, and an
  ancestor is compared with its own old mark instead of its folders with each other
  (FSViewer/src/fstreemodel.cpp:120-151). `ClickInTree` says for every node of the tree
  exactly when its mark is right after a click: always at the clicked node, under a
  condition on the old marks at its folders and its ancestors (`MarkRight`), and elsewhere
  as before. `ClickAboveFolder` goes wrong below the clicked node, `OnlyFolderChecked` and
  `TwoClicks` are the two ways it goes wrong above.
- An unaligned drive read that ends on a sector boundary fetches one sector more than it
  needs, and so fails exactly when it ends with the drive (`WindowOnDrive`,
  libio/src/diskdevice.cpp:86).
- A copied range that leaves the source is cut by the wrong difference
  (libraw/include/raw/abstractraw.h:221-223); `ClippedAppended` says when that happens to
  be right, `ClippedThrows` shows a range where the copy throws.
- A two-track recording is saved as complete even when the device ends exactly in front of
  its last mono cluster (`SaveRawFile`).
  An incomplete one leaves in both files the clusters copied so far (`Left`).
- A ZOOM H6 file larger than 2^32 - 32768 bytes never becomes ready: the test that would cut
  its last block wraps around, so it takes every block whole (`ReadyReachable`, `State`,
  libraw/include/raw/zoomh6raw.h:48-62). Below that size a full file that is given another
  block throws; at exactly that size it takes the block, stays ready and loses its size
  (`ReadyOnly`).
- When the device does not end on a sector boundary, its last partial sector is compared
  together with what the buffer still holds from the block before
  (libraw/include/raw/abstractraw.h:94-118); `PartialSector` says exactly when that does not
  matter.

## Model

| member | source | states |
|---|---|---|
| ExtentTree.Ext4Raw.SaveToFile | libraw/src/ext4_raw.cpp:387-462 | For every finite tree, whatever its depth: the target becomes the old target with the extents of its walk written in order, also when the walk throws; it throws exactly where the walk does. Which extents these are say ExtentsOfTree, IndexBack and LeafBack |
| ExtentTree.Ext4Raw.SaveLeaf | libraw/src/ext4_raw.cpp:409-445 | A leaf writes its extents in order and stops at the first bad or unreadable one |
| ExtentTree.Ext4Raw.SaveExtent | libraw/src/ext4_raw.cpp:411-443 | One extent is copied to its logical place, zeros when its length exceeds 0x8000; bad-marked data leave the target alone; a failed or empty read throws |
| ExtentTree.Ext4Raw.SaveChildren | libraw/src/ext4_raw.cpp:446-454 | The children of an index node are saved one after the other, in their order; an exception in one ends the walk |
| ExtentTree.ChildrenInOrder | libraw/src/ext4_raw.cpp:446-454 | The walks of the children come one after the other, all of them if none fails, else up to the first that fails, which keeps what it has done |
| ExtentTree.IndexBack | libraw/src/ext4_raw.cpp:446-454 | An index node given by its bytes yields the joined walks of the children it names, in their order, under the same rule for a failing child |
| ExtentTree.LeafBack | libraw/src/ext4_raw.cpp:409-430 | A leaf given by its bytes yields its extents before the first that is bad or unreadable, and ends normally iff that one (if any) was readable |
| ExtentTree.ExtentsOfTree | libraw/src/ext4_raw.cpp:387-462 | The walk yields only extents of leaves reached from its root, all of them if it ends normally, and it does so if and only if every block reached can be read and no leaf reached has an unreadable extent in front of a bad one |
| ExtentTree.SavedByte | libraw/src/ext4_raw.cpp:387-462 | After a normal end every byte of every extent of a leaf reached stands at its logical block, taken from its physical block or zero, unless another extent overlaps it |
| ExtentTree.UnsavedByte | libraw/src/ext4_raw.cpp:387-462 | After a normal end the bytes that no extent of a leaf reached covers are as before |
| ExtentTree.ValidBytes | libraw/src/ext4_raw.cpp:318-326 | A block is a node iff it begins with 0A F3, has 54 01 at byte 4 and at most 340 entries |
| ExtentTree.HeaderBack | libraw/include/raw/ext4_raw.h:43-49 | Number of entries and depth are read back from their places in the header |
| ExtentTree.ExtentBack | libraw/include/raw/ext4_raw.h:25-31 | The four fields of a leaf entry are read back from bytes 0-3, 4-5, 6-7 and 8-11 |
| ExtentTree.ChildBack | libraw/include/raw/ext4_raw.h:33-40 | The child of an index entry is read back from bytes 4-7 and 8-9 |
| ExtentTree.CopyableBytes | libraw/src/ext4_raw.cpp:411-430 | A written extent is readable iff it is not empty and lies on the medium, and is copied iff its data do not begin with the text "bad sector"; an unwritten one always is |
| ExtentTree.LeafStopsAtFirstBad | libraw/src/ext4_raw.cpp:410-430 | A leaf yields exactly its entries before the first one that is bad or unreadable, each copyable, and ends normally iff that one (if any) was readable |
| ExtentTree.ImageByte | libraw/src/ext4_raw.cpp:411-443 | Each byte of the image is the byte of the last extent covering it (logical block + j holds physical block + j, or zero); uncovered bytes are the old ones or zero |
| ExtentTree.ImageLength | libraw/src/ext4_raw.cpp:434-443 | The image ends where its furthest extent ends, or where the old target did |
| ExtentTree.EndBounds | libraw/src/ext4_raw.cpp:434-443 | That end is the least bound of all extents' ends |
| ExtentTree.SomeDecides | libraw/src/ext4_raw.cpp:411-443 | Every covered address has a deciding extent |
| ExtentTree.ImageConcat | libraw/src/ext4_raw.cpp:450-454 | Saving one list of extents after another is saving their concatenation |
| ExtentTree.OrderIrrelevant | libraw/src/ext4_raw.cpp:411-443 | For extents that do not overlap, any order (and repetition) gives the same image |
| ExtentTree.HeightIrrelevant | libraw/src/ext4_raw.cpp:387-462 | The bound on the depth has no influence on the walk, so the result is a property of the tree |
| ExtentTree.ShrinkingDepthsFinite | libraw/src/ext4_raw.cpp:446-454 | If along every path from the root each valid child's depth field is below its parent's, the tree is finite within the root's depth; other blocks of the medium do not matter |
| ExtentTree.CycleNotFinite | libraw/src/ext4_raw.cpp:446-454 | A chain of index nodes that returns to its start is finite for no depth |
| ExtentTree.FiniteIffNoRepeat | libraw/src/ext4_raw.cpp:387-462 | The recursion from a block ends if and only if no path of index nodes from it visits a block twice, and is then never deeper than the medium is long |
| ExtentTree.LongPath | libraw/src/ext4_raw.cpp:446-454 | A tree higher than h has a path of h + 1 index nodes, all on the medium |
| ExtentTree.SelfReferenceNotFinite | libraw/src/ext4_raw.cpp:446-454 | On a medium of one index node naming itself the recursion does not end |
| ExtentChain.FindByOffset | libraw/include/raw/ext4_raw.h:167-174 | A handle at this offset when there is one, else the empty handle |
| ExtentChain.FoundFirst | libraw/include/raw/ext4_raw.h:167-174 | It is the earliest handle at the offset |
| ExtentChain.FindByFirstOffset | libraw/include/raw/ext4_raw.h:185-194 | Only handles whose first logical offset is this one |
| ExtentChain.FindJoin | libraw/include/raw/ext4_raw.h:185-194 | Finding works element by element, so order and every copy are kept |
| ExtentChain.Remove | libraw/include/raw/ext4_raw.h:159-162 | Removes exactly the handles at this offset, and strictly shrinks the list when there is one |
| ExtentChain.RemoveJoin | libraw/include/raw/ext4_raw.h:159-162 | Removing works element by element, so the rest keeps its order and every copy |
| ExtentChain.MaxIsFirst | libraw/include/raw/ext4_raw.h:215-226 | The handle found has the most entries and is the earliest such in the list |
| ExtentChain.Successor | libraw/src/ext4_raw.cpp:132-140 | The next node starts logically at the running total and has the most entries of all that do; none iff no such node has entries |
| ExtentChain.SuccessorIsFirst | libraw/src/ext4_raw.cpp:132-140 | Of several such nodes with equally many entries the earliest in the list is picked |
| ExtentChain.Ext4Chain.SearchExtends | libraw/src/ext4_raw.cpp:108-147 | For every list and start block the search ends; it reports the specified run and leaves the list without the picked nodes |
| ExtentChain.RunJustified | libraw/src/ext4_raw.cpp:132-144 | Every piece after the first is a node still listed, starting at the running total, with the most entries among the remaining candidates and in front of all that have as many; its block is its offset divided by 4096 |
| ExtentChain.RunDistinct | libraw/src/ext4_raw.cpp:121-140 | No source node is picked twice |
| ExtentChain.RunStops | libraw/src/ext4_raw.cpp:123-138 | The run ends only on an empty piece or when no remaining node with entries starts at the total |
| ExtentChain.RunTargets | libraw/src/ext4_raw.cpp:115-122 | Piece i starts at the sum of the sizes before it, modulo 2^64 |
| ExtentChain.RunTiles | libraw/src/ext4_raw.cpp:115-122 | The pieces lie end to end from 0 if and only if the sizes before the last one add up to less than 2^64 |
| ExtentChain.SmallListTiles | libraw/src/ext4_raw.cpp:108-147 | Whenever the sizes in the list add up to less than 2^64, the pieces lie end to end |
| ExtentChain.SizesWithinList | libraw/src/ext4_raw.cpp:121-144 | A run never uses more than the sizes in the list |
| ExtentChain.WrappingOverlaps | libraw/src/ext4_raw.cpp:115-122 | Three nodes whose first two sizes add up to 2^64: the third piece is reported at target 0 again |
| ExtentChain.TiledOnce | libraw/src/ext4_raw.cpp:119-122 | Then every address below the total lies in exactly one piece: no gap, no overlap |
| ExtentChain.RemainingMembers | libraw/include/raw/ext4_raw.h:159-162 | What is left of the list are exactly the nodes not picked |
| OffsetList.ValueOfText | libraw/include/raw/ext4_raw.h:128-138 | The digits written for a number have its value |
| OffsetList.HexDigits | libraw/include/raw/ext4_raw.h:128-138 | The sixteen digits are written in lower case, and read in lower and upper case |
| OffsetList.NumberBack | libraw/include/raw/ext4_raw.h:116-138 | A 64-bit number reads back from its text, plain or zero-padded, whatever non-digit follows |
| OffsetList.NumberBackIff | libraw/src/ext4_raw.cpp:240-243 | A number reads back exactly when it fits 64 bits; larger ones saturate |
| OffsetList.SignedBack | libraw/src/ext4_raw.cpp:240-243 | White space, a sign and the prefix 0x in front of the digits are passed over; a minus sign wraps the number modulo 2^64, unless it is too large anyway |
| OffsetList.DefaultBufferFits | libraw/include/raw/ext4_raw.h:116-127 | The default buffer of 17 characters holds the padded text exactly for 64-bit numbers, which then read back |
| OffsetList.TextLength | libraw/include/raw/ext4_raw.h:128-138 | A number has at most d hexadecimal digits iff it is below 16^d |
| OffsetList.WriteOffsets | libraw/src/ext4_raw.cpp:198-210 | Appends one line for each offset found, in order |
| OffsetList.ReadOffsetsFromFile | libraw/src/ext4_raw.cpp:212-257 | The numbers of the terminated lines of the part of the file that a 32-bit size covers; empty for an empty file; an exception when that size is 0 modulo 2^32 |
| OffsetList.ReadLines | libraw/src/ext4_raw.cpp:226-252 | The scanning loop equals the recursive parse |
| OffsetList.ListBack | libraw/src/ext4_raw.cpp:204-252 | Every list of 64-bit offsets survives the text, and an unterminated last line is dropped |
| OffsetList.PaddedListBack | libraw/src/ext4_raw.cpp:229-252 | Zero-padded lines, with or without carriage returns, read as the same list |
| OffsetList.LineLost | libraw/src/ext4_raw.cpp:229-252 | Cutting a text before a line feed always loses numbers |
| OffsetList.WholeFileRead | libraw/src/ext4_raw.cpp:218-222 | A file of full lines is read to its end exactly when it is smaller than 4 GiB |
| OffsetList.FileBack | libraw/src/ext4_raw.cpp:204-257 | The file of a list reads back as the list exactly when it is smaller than 4 GiB |
| GoProNew.GoProRawNew.SaveByMarkers | libraw/include/raw/gopronew.h:119-154 | For every offset table that does not descend within a cluster: every cluster's marker list is the last stretch of the table in it, the lists being the buckets iff no cluster is entered twice or lies behind the last one; an exception iff a cluster from the last one on is left; found iff some matching of the lists exists. Then the target is the earliest matching's clusters plus one trailing cluster, and with bucketed lists the five marker bytes stand at every listed offset where they fit into one cluster. If none is found, the target holds the earliest matching of the longest beginning of the lists that has one |
| GoProNew.GoProRawNew.PlaceClusters | libraw/include/raw/gopronew.h:119-151 | The loop succeeds iff some strictly increasing assignment satisfies all marker lists; its own is one, and no other is earlier anywhere. If it fails, the same holds for the lists placed, and with the next list there is no assignment |
| GoProNew.GoProRawNew.PlaceCluster | libraw/include/raw/gopronew.h:123-150 | One target cluster takes the earliest later source cluster that fits; on failure no matching exists at all |
| GoProNew.GoProRawNew.CmpWithFirstCluster | libraw/include/raw/gopronew.h:57-77 | True iff every marker of a non-empty list stands at its place in the candidate; throws iff the span read leaves the source |
| GoProNew.GoProRawNew.CopyCluster | libraw/include/raw/gopronew.h:128-131 | Appends exactly one source cluster, or throws when it is not whole |
| GoProNew.ToArrayListMarkers | libraw/include/raw/gopronew.h:32-56 | For every non-empty table: every cluster gets the last stretch of the table that lies in it, and it throws iff a cluster from the last one on is left; the result is exactly the buckets by cluster number if and only if no cluster is entered twice or lies behind the last one; if the table does not descend within a cluster, every list made is one of its own cluster, ending with its greatest offset |
| GoProNew.StretchOf | libraw/include/raw/gopronew.h:41-53 | The list of a cluster is a slice of the table that lies in it, as long as possible, with nothing of the cluster behind it |
| GoProNew.AscendingGrouped | libraw/include/raw/gopronew.h:32-56 | Every ascending table meets that condition, and does not descend within a cluster |
| GoProNew.BucketsJoin | libraw/include/raw/gopronew.h:32-56 | The buckets joined are the table again: an order-preserving partition |
| GoProNew.BucketMembers | libraw/include/raw/gopronew.h:41-53 | An offset is in bucket c iff it is in the table and its cluster is c |
| GoProNew.AllListed | libraw/include/raw/gopronew.h:32-56 | With bucketed lists every listed offset is in the list of its cluster |
| GoProNew.SkipCluster | libraw/include/raw/gopronew.h:138-149 | Exchange step: a cluster that does not fit can be skipped without losing any matching |
| GoProNew.TakeCluster | libraw/include/raw/gopronew.h:126-147 | Exchange step: taking the first fitting cluster stays earliest |
| GoProNew.OutOfClusters | libraw/include/raw/gopronew.h:68-69 | When the candidate cannot be read, no matching exists |
| GoProNew.LongerTable | libraw/include/raw/gopronew.h:121-151 | What was placed first for the lists so far is also first when one more list is considered |
| GoProNew.MarkersInPlace | libraw/include/raw/gopronew.h:121-151 | A marker inside one cluster is at its listed offset in the joined clusters |
| GoProNew.JoinedByte | libraw/include/raw/gopronew.h:130-143 | Byte d of target cluster k is byte d of the source cluster chosen for it |
| GoProNew.MarkersAll | libraw/include/raw/gopronew.h:119-154 | The same for the whole offset table at once |
| FatTable.FatTable.NextCluster | libfs/src/fat_fs.cpp:108-124 | For every cluster number and call history: the on-disk entry masked to 28 bits, the bad mark outside the table, or an exception in an unreadable sector; the cache invariant is kept |
| FatTable.FatTable.ReadSector | libfs/src/fat_fs.cpp:125-130 | Throws iff the sector is unreadable, otherwise makes it clean in the cache |
| FatTable.LoadSector | libfs/src/fat_fs.cpp:113-119 | Loading one sector keeps every flagged sector equal to the disk up to cleared top nibbles |
| FatTable.MaskCell | libfs/src/fat_fs.cpp:121-122 | Masking an entry in place keeps the invariant |
| FatTable.CleanEntry | libfs/src/fat_fs.cpp:121-123 | The masked value of a clean entry is the masked value on the disk, whatever was masked before |
| FatTable.FatArea.EntryInside | libfs/src/fat_fs.cpp:110-121 | An entry of a readable sector lies wholly inside the table |
| FatTable.NextBack | libfs/src/fat_fs.cpp:108-124 | The entry of cluster c is the low 28 bits of the four bytes at 4c; one behind the last table sector is the bad mark; a lookup throws iff its sector is one of the table's and cannot be read |
| ClusterRuns.CanonicalUnique | libfs/src/fat_fs.cpp:743-769 | Two run lists with no empty and no continuing run and the same expansion are equal |
| ClusterRuns.EncodeCanonical | libfs/src/fat_fs.cpp:743-769 | Every sequence of clusters has a canonical run list that expands to it |
| ClusterRuns.CanonicalIsEncode | libfs/src/fat_fs.cpp:743-769 | A canonical list is the encoding of its expansion: the two are inverse |
| ClusterRuns.CanonicalShortest | libfs/src/fat_fs.cpp:743-769 | A canonical run list has the fewest runs of all lists of non-empty runs with its expansion |
| ClusterRuns.FirstRunLongest | libfs/src/fat_fs.cpp:751-760 | Its first run is at least as long as that of any other such list |
| ClusterRuns.RunCount | libfs/src/fat_fs.cpp:679-681 | The counts of the runs add up to the number of clusters |
| FatChain.ReadListClusters | libfs/src/fat_fs.cpp:743-769 | The run list is the canonical encoding of exactly the visited clusters in order; it throws iff a lookup on the way does, leaving that encoding without its last run |
| FatChain.EndsIffNoRevisit | libfs/src/fat_fs.cpp:749-765 | The walk ends iff it never revisits a cluster, and then within table entries + 1 clusters |
| FatChain.Periodic | libfs/src/fat_fs.cpp:749-765 | After a revisit the walk repeats itself for ever |
| FatChain.LongWalkRevisits | libfs/src/fat_fs.cpp:749-765 | A walk longer than table entries + 1 has been somewhere twice |
| FatChain.MarkVisited | libfs/src/fat_fs.cpp:749-764 | Behind one of the other end marks the walk ends iff its own table entry is a bad or final mark, as it is when the table has no entry for it |
| FatChain.MarkInChain | libfs/src/fat_fs.cpp:749-764 | The visited clusters are the data clusters if and only if none of the other end marks closes them; where the table has no entry for the mark, it is the one cluster too many |
| FatChain.ChainBehindData | libfs/src/fat_fs.cpp:749-764 | The walk is the data clusters followed by the walk from the mark that closes them |
| FatChain.MarkCounted | libfs/src/fat_fs.cpp:749-764 | A file of one cluster closed by 0x0FFFFFF8 is followed as if it had two |
| FatChain.ChainIsOrbit | libfs/src/fat_fs.cpp:749-765 | The visited clusters are the iterates of the table lookup, up to the end of the walk |
| FatChain.EndsUnlessVisits | libfs/src/fat_fs.cpp:749-765 | The walk is over within n clusters iff it does not get to visit number n |
| FatChain.EncodedStep | libfs/src/fat_fs.cpp:751-760 | One more cluster extends the open run or starts the next; the encoding stays canonical and lossless |
| FatChain.EncodedEnd | libfs/src/fat_fs.cpp:766-767 | Closing the open run gives a canonical list that expands to everything visited |
| FatFile.FatFileSystem.ReadUsingFatTable | libfs/src/fat_fs.cpp:687-722 | For any buffer that holds the runs in range: it starts with their data, the rest of it is untouched, both counters are exact; throws iff following the chain does or such a run is not on the device, and then the buffer holds the runs before; an empty list becomes the chain's canonical runs |
| FatFile.FatFileSystem.ReadRuns | libfs/src/fat_fs.cpp:702-717 | The same for the loop over any list of non-empty runs |
| FatFile.FatFileSystem.ReadRun | libfs/src/fat_fs.cpp:704-716 | One run is read whole, skipped when the guard rejects it, or throws |
| FatFile.FatFileSystem.ReadSizeUsingTable | libfs/src/fat_fs.cpp:670-686 | The number of clusters times the cluster size, modulo 2^32; fills an empty list with the chain's canonical runs; 0 for a first cluster of `count_cluster` or more; throws iff following the chain does, leaving the runs without the last |
| FatFile.RunsAreClusters | libfs/src/fat_fs.cpp:702-717 | Reading run by run gives the same bytes as reading the chain's clusters one at a time |
| FatFile.ClusterByte | libfs/src/fat_fs.cpp:536-543 | Byte d of the k-th cluster of a file is byte d of that cluster on the device, which begins at sector (c - 2) times sectors per cluster, plus the data area, plus the partition |
| FatFile.WholeFile | libfs/src/fat_fs.cpp:687-722 | The offset is chain length times cluster size if and only if every run passes the guard, and the buffer then holds the concatenated clusters |
| FatFile.KeptTotal | libfs/src/fat_fs.cpp:711-716 | No cluster is skipped iff every run passes the guard |
| FatFile.KeptJoin | libfs/src/fat_fs.cpp:702-717 | A run that is skipped does not end the loop: the guard looks at each run alone and keeps their order |
| FatFile.GuardShifted | libfs/src/fat_fs.cpp:704-711 | The guard rejects exactly the runs whose last sector is one of the volume's last `start_sector` + 1 or lies behind them |
| FatFile.RunInVolumeSkipped | libfs/src/fat_fs.cpp:709-711 | A volume of 200 sectors behind 63 others: a run that ends in front of its sector 138 is on the device and is skipped |
| FatFile.FatFileSystem.SizeThenRead | FSViewer/src/FSViewer.cpp:225-231 | The size from the table, then the read with the same handle: size, bytes stored and bytes reported are one number iff every run passes the guard and sectors have 512 bytes, or there is nothing to read; with a list still to be filled and a first cluster of `count_cluster` or more the size is 0 and they are one number iff the guard passes no run |
| FatFile.LastClusterUnsized | libfs/src/fat_fs.cpp:670-722 | A file in the first cluster of a volume of two: its size is 0, and its 512 bytes are read |
| FatFile.SizesAgree | libfs/src/fat_fs.cpp:679-717 | For a run list: bytes reported, bytes stored and clusters times cluster size modulo 2^32 are one number iff every run passes the guard and sectors have 512 bytes, or the list is empty; they are 0 iff the guard passes no run |
| FatFile.TableSizeSuffices | FSViewer/src/FSViewer.cpp:225-231 | A buffer of the size from the table holds what the read stores whenever all clusters together are below 4 GiB, and only then if every run passes the guard |
| FatFile.LargeRunOverruns | FSViewer/src/FSViewer.cpp:225-231 | A run of 65537 clusters of 64 KiB gets a buffer of 64 KiB and stores all of them |
| FatFile.CountersAgree | libfs/src/fat_fs.cpp:714-715 | `bytes_read` and `mem_offset` agree iff sectors are 512 bytes or nothing was read |
| FatDirectory.ReadLongName | libfs/src/fat_fs.cpp:431-448 | The loop equals the recursive assembly; None when it runs off the directory |
| FatDirectory.LongNameTakes | libfs/src/fat_fs.cpp:431-448 | For any directory whatever: the name is the texts of the long entries that follow, as many as the first order number with bit 6 flipped allows, each in front of the earlier ones; whatever entry is behind them ends it |
| FatDirectory.PiecesHeld | libfs/include/fs/BootSector.h:71-81 | The thirteen units of a long entry are the numbers at bytes 1-10, 14-25 and 28-31 |
| FatDirectory.NameBack | libfs/src/fat_fs.cpp:431-471 | Wherever the thirteen units of every piece lie at bytes 1-10, 14-25 and 28-31, with the attribute 0x0F at 11 and the order number at 0, as section "FAT Long Directory Entries" of the Microsoft FAT32 File System Specification 1.03 lays a name out (descending pieces, NUL and 0xFFFF padding), the loop stops on the short entry, and the name comes back iff it holds no NUL |
| FatDirectory.PieceBack | libfs/src/fat_fs.cpp:723-736 | One piece gives back its units iff none is NUL, otherwise fewer |
| FatDirectory.AssembleStored | libfs/src/fat_fs.cpp:441-448 | From any piece on, the loop visits exactly the remaining pieces |
| FatDirectory.ReadFolder | libfs/src/fat_fs.cpp:421-567 | The scan over the loaded entries, with the nodes `addEntry` makes of them, equals the recursive specification |
| FatDirectory.DirectoryBack | libfs/src/fat_fs.cpp:421-525 | A directory made of deleted, short and long-named entries, laid out as in NameBack, hands exactly its undeleted ones to `addEntry`, in order, each under its name |
| FatDirectory.SlotShown | libfs/src/fat_fs.cpp:544-567 | A place in the directory becomes a node, one, iff it is not deleted and its attribute byte is 0x10, a folder, or 0x07, 0x20 or 0, a file; its cluster has the low half at byte 26 and the high half at 20, a file its size at 28 |
| FatDirectory.ShortNameBack | libfs/src/fat_fs.cpp:476-520 | A short name is both parts up to their first blank, joined by a dot if there is an extension, in lower case, up to the first NUL |
| FatDirectory.DocumentsBack | libfs/src/fat_fs.cpp:421-567 | The bytes of a folder "Documents": with its long entry it is registered under this name, without it as docume~1 |
| FatDirectory.EntriesDropped | libfs/src/fat_fs.cpp:544-567 | Volume labels, read-only archived files and hidden folders are not registered |
| FatDirectory.NamelessEntry | libfs/src/fat_fs.cpp:476-520 | A short entry has no name iff it starts with NUL or both its parts are blank |
| FatDirectory.UnusedEntryShown | libfs/src/fat_fs.cpp:426-520 | An entry of zeros becomes a file without a name |
| FolderTable.TableIndex.SetData | FSViewer/src/fstablemodel.cpp:387-399 | One click in a consistent tree gives the whole subtree the new state, leaves every node neither below nor above as it was, and makes every mark right again: afterwards every node with children shows what all of them show, or PartiallyChecked over children that differ |
| FolderTable.RunClicks | FSViewer/src/fstablemodel.cpp:387-399 | After any sequence of clicks every node with children shows what all of them show, or PartiallyChecked over children that differ; a node has the state of the last click on or above it, unless a later one was below it, and its old state if no click was on, above or below it |
| FolderTable.Shape.MarksRight | FSViewer/src/fstablemodel.cpp:193-231 | The marks of a tree are consistent if and only if every node with children shows what all of them show, or PartiallyChecked over children that differ |
| FolderTable.TableIndex.UpdateCheckChilds | FSViewer/src/fstablemodel.cpp:165-182 | Exactly the nodes strictly below get the state |
| FolderTable.TableIndex.CheckSubtree | FSViewer/src/fstablemodel.cpp:178-179 | Exactly the node and those below it get the state |
| FolderTable.TableIndex.UpdateCheckParents | FSViewer/src/fstablemodel.cpp:183-192 | Every node above is recomputed from its children, nearest first, and no other |
| FolderTable.TableIndex.CheckFromChilds | FSViewer/src/fstablemodel.cpp:193-215 | The state all children show, folders and files taken together, PartiallyChecked when two differ, the given state without children |
| FolderTable.GetStateCheckState | FSViewer/src/fstablemodel.cpp:216-231 | The state that all entries of a list have, PartiallyChecked when two differ, the given state when it is empty |
| FolderTable.CommonState | FSViewer/src/fstablemodel.cpp:216-231 | All children have it, or it is PartiallyChecked; whatever state all have, it is that |
| FolderTable.StateOfBoth | FSViewer/src/fstablemodel.cpp:193-215 | Combining folders' and files' states is the same as taking all children at once |
| FolderTable.Shape.RepairedUp | FSViewer/src/fstablemodel.cpp:183-192 | If only a node and those above it can be wrong, repairing upwards makes the whole tree consistent |
| FolderTable.Shape.UntouchedBelow | FSViewer/src/fstablemodel.cpp:183-192 | The climb changes no node that is not above the start |
| FolderTable.Shape.PushedWrongAbove | FSViewer/src/fstablemodel.cpp:397-398 | Pushing a state down a consistent tree can make only the nodes above wrong |
| FolderTable.Shape.ClickEffect | FSViewer/src/fstablemodel.cpp:397-399 | Push down, then climb: consistent again, subtree uniform, everything else but the ancestors as before |
| FolderTable.Shape.UniformConsistent | FSViewer/src/fstablemodel.cpp:165-182 | A tree all of whose marks are equal is consistent, so every run can start there |
| FolderTable.Shape.BelowChildren | FSViewer/src/fstablemodel.cpp:165-182 | Strictly below a node means one of its files or in the subtree of one of its folders |
| FolderPath.GetRootPath | FSViewer/src/fstablemodel.cpp:148-164 | The names from the root down, joined by backslashes; empty for a file |
| FolderPath.PathGrows | FSViewer/src/fstablemodel.cpp:148-164 | The root's path is its name; any other node's is its parent's path, a backslash and its name |
| FolderPath.IndexNode | FSViewer/src/fstablemodel.cpp:107-142 | The recursive lookup equals the specification on the tree's links |
| FolderPath.IndexByPath | FSViewer/src/fstablemodel.cpp:455-472 | Drops the root's name and resolves the rest; a path without separator is the root, the empty path nothing |
| FolderPath.ResolveStep | FSViewer/src/fstablemodel.cpp:107-142 | One step of a lookup, for any name: the first folder of this name and the rest of the path from there; of a full path the first name is dropped, whatever it is |
| FolderPath.PathBack | FSViewer/src/fstablemodel.cpp:148-164 | With non-empty separator-free sibling-unique names, the path of every non-root folder resolves to that folder |
| FolderPath.RelativeBack | FSViewer/src/fstablemodel.cpp:107-142 | The same for the path below the root |
| FolderPath.ResolveFurther | FSViewer/src/fstablemodel.cpp:129-141 | Appending one name to a path resolves one folder further |
| FolderPath.RootPathBack | FSViewer/src/fstablemodel.cpp:455-464 | The root's own path leads back to it iff the root has a name |
| FolderPath.OpenOwnPath | FSViewer/src/fstablemodel.cpp:148-164 | Running the printer and the lookup: every folder with a path leads back to itself, a file to nothing |
| DirectoryTree.HarmlessIffUnique | FSViewer/src/fstablemodel.cpp:87-96 | Looking a name up in the sorted folders finds the first one of the directory, for every order sorting may give equal names, if and only if no two different folders share a name |
| DirectoryTree.FrontArrangement | FSViewer/src/fstablemodel.cpp:94 | Sorting may put any of several folders of one name first |
| DirectoryTree.TwoOfOneName | FSViewer/src/fstablemodel.cpp:94 | Two folders of one name: sorting may put the second one first, and the lookup then finds it where the directory's first is the other |
| DirectoryTree.NameLeqDecided | FSViewer/src/fstablemodel.cpp:234-237 | Names are ordered by their first difference, and a beginning comes before what it begins |
| DirectoryTree.ResolveStep | FSViewer/src/fstreemodel.cpp:95-119 | The same step in the directory itself |
| FolderTree.BuildTree | FSViewer/src/fstreemodel.cpp:64-81 | In the tree built from a directory every node has, for every name, exactly the first folder of that name, and is its parent |
| FolderTree.TreeIndex.InsertChild | FSViewer/src/fstreemodel.cpp:75-81 | Of several folders with one name the map keeps the first |
| FolderTree.TreeIndex.IndexNode | FSViewer/src/fstreemodel.cpp:95-119 | In a built tree a path leads to the node of the folder it leads to in the directory, or to nothing |
| FolderTree.IndexByPath | FSViewer/src/fstreemodel.cpp:295-312 | The same for a full path |
| FolderViews.BuildTable | FSViewer/src/fstablemodel.cpp:11-16 | The table built from a directory: every node knows its parent and lists the directory's folders and files, each sorted by name |
| FolderViews.SortChilds | FSViewer/src/fstablemodel.cpp:94-95 | Sorting rearranges the folders and files by name and loses none |
| FolderViews.BuiltIsTree | FSViewer/src/fstablemodel.cpp:87-106 | What was built is one tree in which parent and child links agree |
| FolderViews.OpenTable | FSViewer/src/fstablemodel.cpp:87-106 | A new table is a tree of its directory, every node listing exactly its folders and files sorted by name, unchecked everywhere and with right marks, where clicking and path lookups can start |
| FolderViews.TableLists | FSViewer/src/fstablemodel.cpp:87-106 | The two lists of a node are together all children of its directory, each as often as it occurs, folders in one and files in the other, both in alphabetical order |
| FolderViews.TableResolves | FSViewer/src/fstablemodel.cpp:107-142 | With sibling-unique folder names a path leads to the node of the folder it leads to in the directory |
| FolderViews.OpenInBothViews | FSViewer/src/fstreemodel.cpp:295-312 | Table and tree built from one directory with sibling-unique folder names lead every path to the same entry, or both to nothing |
| FolderTree.TreeIndex.UpdateCheckChilds | FSViewer/src/fstreemodel.cpp:120-129 | The tree view marks the folders directly below and, unlike the table, nothing deeper |
| FolderTree.TreeIndex.CheckFromChilds | FSViewer/src/fstreemodel.cpp:139-151 | The given state when all folders show what the node shows itself, else PartiallyChecked |
| FolderTree.TreeIndex.UpdateCheckParents | FSViewer/src/fstreemodel.cpp:130-138 | Every ancestor, nearest first, takes the mark that its folders and its own old mark give it |
| FolderTree.TreeIndex.SetData | FSViewer/src/fstreemodel.cpp:258-270 | One click: the folders directly below, the node, and all its ancestors |
| FolderTree.ClickInTree | FSViewer/src/fstreemodel.cpp:258-270 | Which marks of the whole tree are right after a click: that of the clicked node; that of a folder of it iff its own folders showed the clicked mark already, or that is PartiallyChecked and they have no common mark; those of ancestors as in MarkRight; every other one iff it was right before |
| FolderTree.ClickAboveFolder | FSViewer/src/fstreemodel.cpp:258-270 | Checking the root of a small tree leaves its folder checked over two unchecked ones |
| FolderTree.FoldersUntouched | FSViewer/src/fstreemodel.cpp:120-138 | A click leaves the folders of every node alone that is neither the clicked one nor an ancestor |
| FolderTree.AncestorsFound | FSViewer/src/fstreemodel.cpp:64-81 | In a built tree every node has a chain of ancestors up to the root, without repetition and apart from the folders below it, as the climb needs |
| FolderTree.MarkRight | FSViewer/src/fstreemodel.cpp:130-151 | For every node with folders: its new mark is right if and only if its folders show its old mark and that is the one clicked, or they do not and have no common mark but PartiallyChecked |
| FolderTree.ParentMark | FSViewer/src/fstreemodel.cpp:130-151 | For the parent of the clicked node: wrong iff the click makes all folders show a full mark the parent did not show |
| FolderTree.OnlyFolderChecked | FSViewer/src/fstreemodel.cpp:139-151 | Checking the only folder of an unchecked node leaves the node partially checked |
| FolderTree.TwoClicks | FSViewer/src/fstreemodel.cpp:258-270 | Checking both folders of a node in turn leaves it partially checked and its own parent fully checked |
| FleshCollector.FleshCollector.SaveImage | consoleapp/include/fleshcollector.h:61-131 | After all dumps every image page holds the payload of the page that decides it, every other byte is as before, and the image ends with its old end or the furthest page; it ends early iff some dump has a cut-off last page, and then exactly the pages up to that one are merged |
| FleshCollector.ImageBytes | consoleapp/include/fleshcollector.h:79-121 | In the pages' own bytes: a page that is the last flagged one of its number, or the last of all when none is flagged, has byte d of its sector s at 16384 times its number, plus 1024 s + d |
| FleshCollector.MarkerBytes | consoleapp/include/fleshcollector.h:39-52 | The number of a page is byte 1024 times 2^15 plus byte 1025 times 2^7 plus the low seven bits of byte 1026, unless all four marker bytes are 0xFF |
| FleshCollector.FleshCollector.AddDump | consoleapp/include/fleshcollector.h:79-121 | The same for the pages of one dump; throws iff its size is not a multiple of the page size |
| FleshCollector.FleshCollector.AddPage | consoleapp/include/fleshcollector.h:86-119 | One page keeps image and map right for the longer history |
| FleshCollector.DumpToImage | consoleapp/include/fleshcollector.h:53-59 | Byte i of the image page is byte i mod 1024 of dump sector i / 1024, sectors being 1152 bytes apart |
| FleshCollector.SomeDecides | consoleapp/include/fleshcollector.h:102-115 | Every image page that was seen has a deciding page: its last final one, else its last |
| FleshCollector.DecidesNext | consoleapp/include/fleshcollector.h:102-115 | A new page takes over exactly when it is final or no final page was seen before |
| FleshCollector.MergedNext | consoleapp/include/fleshcollector.h:93-115 | Writing or not writing the new page keeps the image's closed form |
| FleshCollector.RecordedNext | consoleapp/include/fleshcollector.h:102-106 | The map always holds exactly the markers with a final page |
| FleshCollector.OnlyBlankRejected | consoleapp/include/fleshcollector.h:93-94 | The size test rejects exactly the all-0xFF marker |
| FleshCollector.JoinIsSum | consoleapp/include/fleshcollector.h:46-50 | The shifted and or-ed marker fields do not overlap: the marker is their sum |
| FleshCollector.OrDisjoint | consoleapp/include/fleshcollector.h:50 | Or-ing bits below a shifted number adds them |
| FleshCollector.ImageLength | consoleapp/include/fleshcollector.h:93-115 | The image ends where it did before or with the furthest page written |
| ZoomRecorder.SaveRawFile | libraw/include/raw/rawriff.h:109-174 | It succeeds if and only if the 32-bit running size can reach the header's size and all clusters lie on the device, the last mono cluster excepted when the device ends in front of it; then the stereo file is the clusters with index not 1 mod 3, the mono file those with index 1 mod 3, each cut or extended to its header's size. Otherwise it returns 0 if the device ends in front of stereo clusters or of a mono cluster, and throws if not, and each file holds its own among the clusters copied so far |
| ZoomRecorder.CompleteWhen | libraw/include/raw/rawriff.h:152-165 | The condition for success in sectors: with k the least number of rounds that reach the size, 2 + 3k clusters lie on the device, or it ends behind 1 + 3k of them |
| ZoomRecorder.RiffSizeBack | libraw/include/raw/rawriff.h:10-15 | The header's size is read back from bytes 4-7 |
| ZoomRecorder.RoundCopies | libraw/include/raw/rawriff.h:152-165 | One round copies its three clusters, or lacks only the mono cluster at the device's end, or shows the recording incomplete |
| ZoomRecorder.LeftBehind | libraw/include/raw/rawriff.h:152-165 | A round that cannot be finished leaves in both files exactly the clusters whose copy was complete, a pair of stereo clusters counting as one copy |
| ZoomRecorder.PickedAt | libraw/include/raw/rawriff.h:144-165 | Every source cluster is in exactly its own file, once, behind the earlier ones of that file |
| ZoomRecorder.PickedLength | libraw/include/raw/rawriff.h:144-165 | The files hold nothing else |
| ZoomRecorder.Rounds | libraw/include/raw/rawriff.h:152-165 | The least number of rounds after which the stereo size is reached |
| DefaultRaw.AppendToFile | libraw/include/raw/abstractraw.h:213-259 | For every range: what is returned and appended is the closed form; the target is never shortened or overwritten |
| DefaultRaw.InsideAppended | libraw/include/raw/abstractraw.h:213-259 | A range on the device is appended whole |
| DefaultRaw.ClippedAppended | libraw/include/raw/abstractraw.h:221-258 | Of a range that leaves the device the part on it is appended if and only if the write size is at most the device's size and their difference, rounded up to whole blocks, is that part's length |
| DefaultRaw.ClippedThrows | libraw/include/raw/abstractraw.h:221-258 | Sixty bytes from the middle of a hundred: nothing is appended and the copy throws |
| DefaultRaw.BlockStep | libraw/include/raw/abstractraw.h:238-256 | Every round moves a non-empty block within the goal, or fails when exactly the whole blocks on the device have been appended |
| ZoomH6.RiffFile.WriteBlock | libraw/include/raw/zoomh6raw.h:48-62 | For every size from 0 to 2^32 - 1 the file's contents, running size and mark after its blocks are the specified ones, and the write throws iff the size is 0 or the file is full and below 2^32 - 32768 bytes |
| ZoomH6.StateNext | libraw/include/raw/zoomh6raw.h:48-62 | One more block: a file below 2^32 - 32768 bytes holds a prefix of its blocks up to its size and is ready iff full; a larger one holds all its blocks whole, its running size is their length modulo 2^32, and it is ready iff its size is 2^32 - 32768 and it has had the blocks for it |
| ZoomH6.ReadyOnly | libraw/include/raw/zoomh6raw.h:50-60 | For a file of 2^32 - 32768 bytes "ready iff it has its size" holds with up to 131071 blocks, and with more exactly when their number is 131071 modulo 131072; with 131072 blocks it is ready and its running size is 0 |
| ZoomH6.ReadyReachable | libraw/include/raw/zoomh6raw.h:50-60 | A file's running size can reach its size iff the size is at most 2^32 - 32768 |
| ZoomH6.CreateZoomFiles | libraw/include/raw/zoomh6raw.h:265-288 | Up to four files, one for each leading RIFF block, sized by its header (or the guess) and holding that block; stops at the first block that is none, and throws exactly at an unreadable block or an empty file |
| ZoomH6.OpensBytes | libraw/include/raw/zoomh6raw.h:265-288 | A block starts a file iff it begins with the letters RIFF and its size, or the guess where the size field is four zeros, plus 8 is not 0 modulo 2^32 |
| ZoomH6.CreatedSize | libraw/include/raw/zoomh6raw.h:86-103 | A created file has that size, and holds the block's bytes from 8 on |
| ZoomH6.PatchedBytes | libraw/include/raw/zoomh6raw.h:272-277 | Only a size field of four zeros is replaced, by the guess modulo 2^32, and nothing else of the block |
| ZoomH6.CreateFile | libraw/include/raw/zoomh6raw.h:86-103 | A new file with the header's size plus 8 modulo 2^32 that has taken its first block; throws iff that size is 0 |
| ZoomH6.AppendFile | libraw/include/raw/zoomh6raw.h:104-109 | The block goes to the file whose turn it is and to no other; throws iff that file is full |
| ZoomH6.SaveZoomFiles | libraw/include/raw/zoomh6raw.h:290-327 | For files of any size: file k always has taken exactly blocks k, k+n, k+2n, ...; completion means all are ready, none above 2^32 - 32768 bytes; a file stops the run only on its turn, full and below that size, or empty; otherwise the source is used up. If no file is empty or above that size, completion needs balanced demands, and each file has then received exactly the blocks it needs; balanced demands on a long enough source always complete; a full file is hit only for unbalanced demands |
| ZoomH6.FileByte | libraw/include/raw/zoomh6raw.h:290-327 | Byte j of block i in file k is that byte of the block sent as number k + i n, and a ready file below 2^32 - 32768 bytes has its size |
| ZoomH6.AllReadyWhenMet | libraw/include/raw/zoomh6raw.h:110-120 | All files are ready iff each has received at least the blocks it needs |
| ZoomH6.NoneAhead | libraw/include/raw/zoomh6raw.h:297-325 | Until all have what they need, none has received more |
| ZoomH6.FirstMet | libraw/include/raw/zoomh6raw.h:297-325 | When all have what they need for the first time, each has received exactly that |
| ZoomShares.ShareAt | libraw/include/raw/zoomh6raw.h:321-323 | Item i of file k's share is block k + i n |
| ZoomShares.ReceivedClosed | libraw/include/raw/zoomh6raw.h:321-323 | After t blocks file k has t / n, and one more if k < t mod n |
| ZoomShares.SumReceived | libraw/include/raw/zoomh6raw.h:321-323 | The shares together are all blocks sent |
| ZoomShares.MetExactlyWhenBalanced | libraw/include/raw/zoomh6raw.h:297-325 | Dealing in turn can meet all needs at once iff the first files need one block more than the rest, or all need equally many |
| ZoomShares.NextWantsOne | libraw/include/raw/zoomh6raw.h:297-325 | While balanced needs are open, the file whose turn it is still has room |
| IoFile.File.ReadOrWriteData | libio/src/ioengine.cpp:165-195 | For any transfer size and any short transfers: the position tells how long a consecutive prefix was moved, OK means all of it, a zero-length request or transfer size is an error, and without device errors every request inside the media succeeds |
| IoFile.File.TransferChunk | libio/src/ioengine.cpp:177-190 | One round moves one non-empty chunk behind the earlier ones or fails without effect on what was moved |
| IoFile.File.ReadChunk | libio/src/ioengine.cpp:198-205 | A chunk that moved nothing is a read error |
| IoFile.File.WriteChunk | libio/src/ioengine.cpp:206-213 | A chunk that moved nothing is a write error |
| IoFile.WriteThenRead | libio/src/ioengine.cpp:165-195 | Reading back a completed write returns the written bytes, whatever the chunks were |
| IoFile.CalcBlockSize | libio/include/io/ioengine.h:16-26 | The next chunk fits both the limit and the rest, and is full or the last; 0 past the end |
| IoFile.File.ReadData | libio/src/file.cpp:85-96 | The requested slice and an advanced position, or an exception |
| IoFile.File.WriteData | libio/src/file.cpp:108-120 | The media overwritten at the position and the size counter raised, or an exception; an empty write always throws |
| DiskDevice.DiskDevice.ReadData | libio/src/diskdevice.cpp:46-55 | Aligned or not, a read whose sectors are on the drive returns the direct slice; otherwise it throws |
| DiskDevice.DiskDevice.ReadDataNotAligned | libio/src/diskdevice.cpp:81-97 | Succeeds iff the whole sector window is on the drive, and leaves the position behind the window |
| DiskDevice.WindowCovers | libio/src/diskdevice.cpp:85-89 | The window is whole sectors, covers the request, and exceeds its end by at most one sector |
| DiskDevice.WindowOnDrive | libio/src/diskdevice.cpp:85-89 | On a drive of whole sectors the window of a request that lies on the drive fits if and only if the request does not end with the drive |
| DiskDevice.DriveEndUnread | libio/src/diskdevice.cpp:86-87 | The last 511 bytes of a drive of one sector need a window of two |
| SignatureFinder.FindHeader | libraw/include/raw/abstractraw.h:76-114 | Block-wise search gives the result of a linear search: the least sector from the start at which a format matches, with the first such format, and nothing iff there is none; a last partial sector is filled up with the bytes one block before it, or zeros in the first block |
| SignatureFinder.PartialSector | libraw/include/raw/abstractraw.h:94-118 | With a partial last sector the result is that of a linear search over the whole sectors if and only if it is not that last sector |
| SignatureFinder.BlockPadded | libraw/include/raw/abstractraw.h:94-97 | After every read the buffer's sectors are those of the device so filled up |
| SignatureFinder.LinearSearchUnique | libraw/include/raw/abstractraw.h:76-114 | The linear search has exactly one result |
| SignatureFinder.CmpHeader | libraw/include/raw/abstractraw.h:116-124 | The first matching sector among those that begin in the part of the buffer that was read, and its format |
| SignatureFinder.Find | libraw/include/raw/abstractraw.h:33-41 | The first format in the list that matches, or none does |
| SignatureFinder.MatchBytes | libraw/include/raw/filestruct.h:187-196 | A format matches iff every header has one of its signatures, byte by byte, at its offset |
| SignatureFinder.FoundBytes | libraw/include/raw/abstractraw.h:33-41 | The search's result told from the formats: this one matches at its sector, no earlier one of the list does, and none matches at an earlier sector |
| SignatureFinder.CompareWithAllHeaders | libraw/include/raw/filestruct.h:187-196 | True iff every header is present |
| SignatureFinder.FindSignature | libraw/include/raw/filestruct.h:44-52 | True iff some signature stands at the offset |
| SignatureFinder.SameSector | libraw/include/raw/filestruct.h:187-196 | What matches at a sector depends only on that sector's bytes |

## Left out

- CreateZoomFiles: the two size guesses for headers without a size are parameters; the scan that computes them and the file names are not modelled.
- ReadOffsetsFromFile: the file is read as already opened; number extraction follows ISO C++, not one library's deviations from it.
- WriteOffsets: the device search that produces the offsets is replaced by the list of what it finds.
- FindHeader: signatures lie inside one sector and the block size is a multiple of 512; opening the device is not modelled.
- SaveToFile: address arithmetic is exact; the source would wrap a volume offset near 2^64.
- SearchExtends: sizes of the extents are given values; `CalculateExtentSize` and the scan that fills the list are not modelled.
- SaveByMarkers: the offset table is given; finding the moov atom, the precheck of the first cluster, and writing the moov block are not modelled, so the statement is about the target just before that block is written. For a table that descends within a cluster the source compares behind its buffer, which the last offset sizes, so nothing can be stated.
- CmpWithFirstCluster: a list whose last offset is not its greatest is required away for the same reason.
- NextCluster: the set of unreadable table sectors does not change during a run; the branch for a reader that returns false is not modelled, since the repository's only reader throws.
- ReadUsingFatTable: an entry without a file handle is not modelled. A buffer smaller than what the read stores is overrun by the source (`TableSizeSuffices` says when the computed size is enough), and a run of 2^32 sectors or more wraps its sector count; both are required away.
- SizeThenRead: as for ReadUsingFatTable; the clusters together are below 4 GiB and sectors have at least 512 bytes. The source makes the buffer from the size; here it is given.
- ReadDataNotAligned: the window length is exact; the source keeps it in 32 bits.
- ReadFolder: starts from the folder's loaded entries; reading its clusters into one buffer, dates, and conversion between code pages are not modelled.
- WriteData: the device accepts a write anywhere; full disks and null buffers are not modelled. `size` counts every written byte, as the source does, and is relied on only for appends.
- BuildTable: sets a node's parent link before its children are built, the source after; nothing reads it in between. Sorting by the user, row numbers and inserting populated subtrees under a checked node are not modelled.
- Win32 handles, drive enumeration, Qt views and signals, JSON signature files and command lines.
- Entropy and GoPro LRV heuristics, 1C database checks, VXFS headers, the Acronis decoder stub.
- QuickTime atom walking, footer carving, the DBF fixer, the XOR analyzer, bad-sector merging: they would add only easy members.
