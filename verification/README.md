# Verified models of the FatFs applications and of the Cortex-M4 priority functions

This project models the algorithms of a microcontroller code base that uses the FatFs file system
module (R0.10a), and proves what they do for all inputs:

* **The disk checker** (`FATFS/doc/img/app4.c`). `Lfsr.dfy` and `LfsrPeriod.dfy` study its 32-bit
  shift register: one step is a linear bijection, and every nonzero seed runs through all 2^32 - 1
  nonzero words before it returns. The proof treats the register as multiplication by a fixed
  element of an algebra and rules out every shorter period with a handful of explicit inverses
  (`LinearMaps.dfy`, `Divisors.dfy` and `Counting.dfy` hold the mathematics). `Pattern.dfy` is the
  generator object and shows that 25 bytes of its output identify its state. `DiskChecker.dfy` is
  the write and read-back protocol against a drive that may behave in any way, with a record of how
  much of the buffer it touches; `DiskProtocol.dfy` compares its requests with a plan, `DiskVerdicts.dfy`
  says what the return code reveals about the drive, and `BufferUse.dfy` which buffers are large enough
  and when the loop ends.
* **The contiguous allocator** (`FATFS/doc/img/app3.c`) with the parts of `FATFS/src/ff.c` that it
  drives. `FatBytes.dfy` is the allocation table as bytes behind the one-sector window of the file
  system object, `Fat.dfy` the table as cluster links, `FatFile.dfy` the functions `f_lseek` and
  `f_truncate` on top of it, `FatFileResults.dfy` what these mean for the chain of a file,
  `Contiguous.dfy` the allocator, `ChainBuilding.dfy` how it builds a chain in a free run,
  `ContiguousResults.dfy` its guarantees and `AllocationExamples.dfy` inputs that show their limits.
* **The directory emptier** (`FATFS/doc/img/app2.c`) with the directory functions it calls.
  `DirTree.dfy` is a tree of directory slots with path lookup, `PathNames.dfy` what a path means segment
  by segment, `EmptyDirectory.dfy` the recursive
  deletion that edits one path buffer in place and deletes slots under a moving cursor, and
  `EmptyDirectoryResults.dfy` the exact results with and without disk faults.
* **The code page converters** (`FATFS/src/option/cc932.c`, `ccsbcs.c`). `Cp932.dfy` has both
  build variants of the Shift-JIS converter, `Sbcs.dfy` the single-byte converter for an arbitrary
  page, `CaseTable.dfy` the upper-casing function that both files contain.
* **The interrupt priorities** (`CORE/core_cm4.h`). `Nvic.dfy` packs, stores, reads and unpacks
  priorities for any number of implemented bits and compares the stored byte with the rules of the
  ARMv7-M Architecture Reference Manual, section B1.5.4.

Code that works in place is modelled by classes, arrays and loops whose contracts equate the new
state with a specification function of the old one. The lemmas are about those functions.
Devices are parameters: a drive is any function from its state and a request to a new state and a
reply, faults of the allocation table are sets of table sectors that cannot be read or cannot be
written, and faults of directory functions are a counter of the calls that succeed before one fails.
A change to the table goes to the sector window, and the drive is asked to write it only when the
window moves on; so a write fault shows in the next access to another sector.

What the code does not promise is stated by exact conditions and concrete inputs:

* The disk checker rejects every drive large enough for its 4GB test once 2^30 cycles are requested,
  because its seed wraps around to 0 and 0 does not reseed the generator (MappedDriveVerdict,
  SeedWrapsAround).
* Its guard admits buffers that are too small: the third test takes one byte more, the 4GB test two
  sectors and, when they compare equal, one byte behind them (MappedDriveBuffer, SmallestBufferIsLeft).
* Asked for 2^32 - 1 cycles it never ends on a faultless drive without the 4GB test (LargestCount,
  NeverEnds).
* `create_chain` loses a cluster when the table sector of the new cluster cannot be written and the
  chain's end lies in another sector (TakeResult, LosesCluster); a fault in the sector of the chain's
  end alone does the call no harm (KeepsCluster).
* A length whose rounding to clusters exceeds 32 bits makes the allocator empty the file and fail
  (AllocateWrapped); so does a length for which there is no free run, because the chain is freed before
  the search (LosesDataIff).
* A second call of the allocator can fail on a table of 12-bit entries (SecondCallFails).

## Model

Functions of `FATFS/src/ff.c` (called ff.c below) are cited at the lines of the applications that
call them, with their own lines in the third column.

| member | source | states |
|---|---|---|
| Lfsr.StepIsBijective | FATFS/doc/img/app4.c:26-31 | One shift of the register can be undone: the top bit tells whether the feedback was applied |
| Lfsr.StepKeepsNonzero | FATFS/doc/img/app4.c:26-31 | Only 0 leads to 0, so 0 is the single absorbing state |
| Lfsr.MulIsLinear | FATFS/doc/img/app4.c:26-31 | Maps that commute with the shift and with exclusive or pass through the product that the shifts generate |
| LfsrPeriod.MapIsProduct | FATFS/doc/img/app4.c:26-31 | Every linear map that commutes with the shift is multiplication by its value at the top bit |
| LfsrPeriod.NoCollision | FATFS/doc/img/app4.c:26-31 | Two powers of the shift whose difference has an inverse agree on no nonzero word |
| LfsrPeriod.Returns | FATFS/doc/img/app4.c:22-32 | Every word is back after 2^32 - 1 shifts |
| LfsrPeriod.NoShortPeriod | FATFS/doc/img/app4.c:22-32 | No nonzero word is back after a proper divisor of 2^32 - 1 |
| LfsrPeriod.FullPeriod | FATFS/doc/img/app4.c:22-32 | A nonzero word is back after n shifts if and only if 2^32 - 1 divides n |
| LfsrPeriod.IterateKeepsNonzero | FATFS/doc/img/app4.c:22-32 | A nonzero seed never leads to 0 |
| LfsrPeriod.VisitsEveryWord | FATFS/doc/img/app4.c:22-32 | From any nonzero seed every nonzero word is reached within one period |
| Pattern.Generator.constructor | FATFS/doc/img/app4.c:18-18 | The static register is 0 when the program starts |
| Pattern.Generator.Pn | FATFS/doc/img/app4.c:13-33 | A nonzero argument leaves the register 33 shifts after that seed and 0 shifts it once; the result is the register |
| Pattern.FirstValue | FATFS/doc/img/app4.c:13-33 | pn(1), the first value asked for, is 0xC5279ED9 |
| Pattern.ZeroBytesZeroState | FATFS/doc/img/app4.c:26-32 | 25 consecutive zero bytes come from the zero register only |
| Pattern.BytesDetermineState | FATFS/doc/img/app4.c:26-32 | Equal runs of 25 or more bytes come from equal registers, whatever the seeds |
| Pattern.WindowsDiffer | FATFS/doc/img/app4.c:125-125 | Two places of one pattern show different bytes unless they are a whole number of periods apart |
| Pattern.BytesNotAllZero | FATFS/doc/img/app4.c:142-151 | A seeded pattern of 25 or more bytes is never all zeros |
| DiskChecker.Fill | FATFS/doc/img/app4.c:125-125 | The buffer holds the pattern from the generator's position on, and the generator has moved by its length |
| DiskChecker.Matches | FATFS/doc/img/app4.c:151-152 | The loop ends at the bound if and only if the buffer equals the pattern |
| DiskChecker.MatchesThenBound | FATFS/doc/img/app4.c:283-284 | The same for the loop that looks at the byte before the bound: one byte past the data is read and one more value drawn, without effect on the verdict |
| DiskChecker.Clear | FATFS/doc/img/app4.c:142-142 | The area is zero and nothing around it changes |
| DiskChecker.Deliver | FATFS/doc/img/app4.c:142-144 | What a drive delivers, cut or padded with the zeros of the cleared area, is what the area holds; nothing around it changes |
| DiskChecker.RunWriteReadBack | FATFS/doc/img/app4.c:122-158 | One test returns the code of its first failing step, with the drive and the generator in the state of that step, and touches the buffer up to the index that WriteReadBackEnd gives; also lines 160-235 |
| DiskChecker.ReadTwo | FATFS/doc/img/app4.c:266-282 | Both sectors are cleared before either is read, and each read fills its half |
| DiskChecker.RunFourGb | FATFS/doc/img/app4.c:237-293 | The same for the two sectors that are 4GB apart: the byte behind the data is touched exactly when they compare equal |
| DiskChecker.RunExercise | FATFS/doc/img/app4.c:122-293 | The four tests run in order with consecutive seeds, up to the first failure |
| DiskChecker.RunCycle | FATFS/doc/img/app4.c:62-295 | One cycle, from initialization to the last test, uses up four seeds |
| DiskChecker.RunCycles | FATFS/doc/img/app4.c:59-296 | The loop with its 32-bit counter is the iteration of that cycle up to the first failure, for every number of cycles for which it ends |
| DiskChecker.TestDiskIo | FATFS/doc/img/app4.c:36-299 | The whole checker, on any drive, any generator state and any declared buffer size, computes Test if it ends, and the highest buffer index that it touches is the one below TestEnd, within the declared size or not |
| DiskChecker.SectorsFit | FATFS/doc/img/app4.c:162-163 | The multiple sector test takes the greatest number of sectors that fit the buffer, four at most |
| DiskProtocol.CycleLogged | FATFS/doc/img/app4.c:62-295 | On any drive the requests of a cycle, addresses, lengths and data included, are a first part of one plan of 17 requests; the return code tells which was the last and whether it failed, and codes 10, 14, 18 and 24 mean exactly that what was read is not what had been written |
| DiskVerdicts.PutContent | FATFS/doc/img/app4.c:164-166 | After a multiple sector write each slot holds the last sector that the drive keeps there |
| DiskVerdicts.GetIsPattern | FATFS/doc/img/app4.c:181-191 | A multiple sector read gives the pattern if and only if every sector holds its own part of it |
| DiskVerdicts.RoundTrip | FATFS/doc/img/app4.c:164-196 | Writing k pattern sectors and reading them back succeeds if and only if the drive keeps these k sectors apart |
| DiskVerdicts.FourGbVerdict | FATFS/doc/img/app4.c:237-292 | The 4GB test fails if and only if both sectors share a slot or its seed is 0 |
| DiskVerdicts.ExerciseVerdict | FATFS/doc/img/app4.c:122-293 | The code of the four tests in terms of the address map of the drive |
| DiskVerdicts.CountWraps | FATFS/doc/img/app4.c:44-44 | The 32-bit seed counter is 0 exactly at the multiples of 2^32 |
| DiskVerdicts.BarrierIsFourGb | FATFS/doc/img/app4.c:239-240 | For every sector size that is a power of two, the two sectors of the 4GB test are exactly 2^32 bytes apart |
| DiskVerdicts.MappedDriveVerdict | FATFS/doc/img/app4.c:54-298 | The exact return code for every error-free drive that keeps each sector in some slot: 0 if and only if it keeps the tested sectors apart, those 2^32 bytes apart included, and, on a large drive, fewer than 2^30 cycles are requested |
| DiskVerdicts.FourGbWrapIsCaught | FATFS/doc/img/app4.c:237-292 | A drive on which byte addresses lose their bit 32 gets code 24, for every such drive, buffer and number of cycles that comes to the test |
| DiskVerdicts.SeedWrapsAround | FATFS/doc/img/app4.c:237-293 | A faultless 8 GB drive passes 2^30 - 1 cycles, and with one more the checker returns 24 |
| DiskVerdicts.ZeroDriveVerdict | FATFS/doc/img/app4.c:142-157 | A drive that acknowledges everything and delivers zeros is rejected with code 10, whatever else it does |
| DiskVerdicts.WritesOnlyTestedLbas | FATFS/doc/img/app4.c:124-250 | Whatever the drive does, in any number of cycles only LBAs 0 to 6 and LBA 6 + 2^32 / ss are written |
| BufferUse.StaysInBuffer | FATFS/doc/img/app4.c:54-289 | On any drive a run stays in the buffer that it was told of if and only if the guard turns that buffer down or it has the bytes needed by the cycle that got furthest, as its return code tells: ss + 5 from the third test on, 2 * ss for the 4GB test, one more if that succeeds |
| BufferUse.MappedDriveBuffer | FATFS/doc/img/app4.c:54-289 | The same on every drive that keeps each sector in some slot, in terms of the buffer size and the address map alone |
| BufferUse.SmallestBufferIsLeft | FATFS/doc/img/app4.c:54-54 | The smallest buffer that the guard admits is left on a faultless drive of 128 sectors |
| BufferUse.TwoSectorsAreTooFew | FATFS/doc/img/app4.c:239-283 | On a faultless 8 GB drive a buffer of two sectors is left, one of four is not |
| BufferUse.StopsOnce | FATFS/doc/img/app4.c:59-59 | The number of cycles after which a run stops decides nothing but itself: verdict, drive state and buffer use are unique |
| BufferUse.LargestCount | FATFS/doc/img/app4.c:59-59 | For ncyc = 2^32 - 1 the loop ends on a drive of slots if and only if the guard or the first cycle rejects it or it is large enough for the 4GB test, which fails at the latest when the seed wraps around |
| BufferUse.NeverEnds | FATFS/doc/img/app4.c:59-59 | For ncyc = 2^32 - 1 the loop does not end on a faultless drive of 128 sectors |
| FatBytes.Table.GetFat | FATFS/doc/img/app3.c:37-38 | get_fat, ff.c lines 865-902: through the sector window and for each table width, the result is the link in the digits of that entry, counted from the start of the table in half bytes; 1 out of range, 0xFFFFFFFF if the window cannot be moved to it |
| FatBytes.Table.SyncWindow | FATFS/doc/img/app3.c:66-67 | sync_window, ff.c lines 755-777: fails exactly when the changed sector cannot be written, and never changes the table as seen through the window |
| FatBytes.Table.MoveWindow | FATFS/doc/img/app3.c:66-67 | move_window, ff.c lines 781-797: works exactly when the sector is in the window already, or the old one has no changes or can be written, and the new one can be read; the table as seen through the window stays the same |
| FatBytes.Table.PutFat | FATFS/doc/img/app3.c:18-18 | put_fat, ff.c lines 911-960, for every value and every fault: the table as seen through the window and the sector that the window cannot leave become those of the link model, a 12-bit entry stored halfway included; every half byte outside the entry stays, and the top four bits of a 32-bit entry are or-ed with those of the value, so they stay for a value of 28 bits |
| FatBytes.LinksFit | FATFS/doc/img/app3.c:37-38 | get_fat, ff.c lines 865-902: whatever bytes the table holds, no link exceeds the last-link value of its width |
| FatBytes.LinksUpdate | FATFS/doc/img/app3.c:18-18 | put_fat, ff.c lines 923-951: a change of the digits of one entry is an update of one link |
| Fat.ChainIsDistinct | FATFS/doc/img/app3.c:49-49 | remove_chain, ff.c lines 974-1015: a terminated chain meets no cluster twice |
| Fat.FreeChain | FATFS/doc/img/app3.c:49-49 | remove_chain, ff.c lines 974-1015: freeing a chain succeeds if and only if its entries can be read and written one after the other; then it zeroes all of them and no other |
| Fat.FreeFromFrame | FATFS/doc/img/app3.c:49-49 | remove_chain, ff.c lines 974-1015: on any table, however damaged, and under any fault, freeing leaves every closed set of other clusters alone; a changed entry is zero, or a 12-bit entry stored halfway |
| Fat.FreeFromCount | FATFS/doc/img/app3.c:49-49 | remove_chain, ff.c lines 974-1015: a right number of free clusters stays right unless an entry is stored halfway |
| Fat.RemovePath | FATFS/doc/img/app3.c:49-49 | remove_chain, ff.c lines 974-1015, on damaged chains: a chain that ends in a loop or at a free cluster is freed up to there with success, one that meets an entry 1 or one that cannot be read is freed up to there with an error |
| Fat.RemoveNothing | FATFS/doc/img/app3.c:49-49 | remove_chain, ff.c lines 985-986: a number that is not a cluster's is refused and nothing changes |
| Fat.ClustersTile | FATFS/doc/img/app3.c:44-44 | clust2sect, ff.c lines 847-855: each sector of the data area lies in exactly one cluster and no other sector in any |
| Fat.ClustersInOrder | FATFS/doc/img/app3.c:44-44 | clust2sect, ff.c lines 847-855: cluster 2 starts at database, every other where its predecessor ends, and the last one ends at database + (n_fatent - 2) * csize |
| Fat.FindFreeIsFirst | FATFS/doc/img/app3.c:66-67 | create_chain, ff.c lines 1049-1062: the cyclic search meets the clusters in order, stops at the first that is free, damaged or unreadable, and reports a full volume only when it has passed over them all |
| Fat.NewChainPlace | FATFS/doc/img/app3.c:66-67 | create_chain, ff.c lines 1027-1062: a new chain starts at the first free cluster behind last_clust, or at the lowest free cluster when that is not known |
| Fat.FullMeansFull | FATFS/doc/img/app3.c:66-67 | create_chain, ff.c lines 1027-1062: result 0 means that no accessible cluster is free |
| Fat.PutAfterGet | FATFS/doc/img/app3.c:49-49 | put_fat, ff.c lines 911-960: writing an entry that has just been read fails only for a 12-bit entry in two sectors of which the first cannot be written |
| Fat.TakeResult | FATFS/doc/img/app3.c:66-67 | create_chain, ff.c lines 1064-1077: the new cluster is marked as used in any case; it is returned, counted and remembered unless its sector cannot be written back to make room for that of the chain's end (or a 12-bit entry is stored halfway), and then it is lost |
| Fat.CreateChainCount | FATFS/doc/img/app3.c:66-67 | create_chain, ff.c lines 1064-1077: the recorded number of free clusters stays right if and only if the found cluster is not lost |
| Fat.LosesCluster | FATFS/doc/img/app3.c:66-67 | create_chain, ff.c lines 1064-1077: a 16-bit table on which cluster 300 is lost, with its count too high, because sector 1 cannot be written |
| Fat.KeepsCluster | FATFS/doc/img/app3.c:66-67 | create_chain, ff.c lines 1064-1077: on the same table with sector 0 unwritable instead, cluster 300 is linked and the count is right |
| FatFile.FileSystem.RemoveChain | FATFS/doc/img/app3.c:49-49 | remove_chain, ff.c lines 974-1015: the loop over the table array computes the freeing function |
| FatFile.FileSystem.SearchFree | FATFS/doc/img/app3.c:66-67 | create_chain, ff.c lines 1049-1062: the loop computes the cyclic search |
| FatFile.FileSystem.CreateChain | FATFS/doc/img/app3.c:66-67 | create_chain, ff.c lines 1027-1080: stretching or starting a chain in the table array computes the chain growth function; a cluster that has a successor yields it, a damaged or unreadable entry its status, and both change nothing |
| FatFile.FileSystem.PutFat | FATFS/doc/img/app3.c:49-49 | put_fat, ff.c lines 911-960: the moves of the window one after the other, with the first byte of a 12-bit entry stored between them, compute the same access as the bytes do |
| FatFile.File.Lseek | FATFS/doc/img/app3.c:67-67 | f_lseek, ff.c lines 2994-3140: the new volume, file and result are those of Seek; an earlier error is returned unchanged, a new one is kept in the file, the size only grows, and without write access the table stays as it is |
| FatFile.File.SeekForward | FATFS/doc/img/app3.c:67-67 | f_lseek, ff.c lines 3074-3094: the start of the walk: from the current cluster, or from the first one, which is created for an empty file |
| FatFile.File.FollowChain | FATFS/doc/img/app3.c:67-67 | f_lseek, ff.c lines 3095-3113: the walk follows, and for a writable file stretches, the chain up to the offset |
| FatFile.File.Truncate | FATFS/doc/img/app3.c:49-49 | f_truncate, ff.c lines 3385-3430: the new volume, file and result are those of Truncated; an earlier error and a file without write access are refused, the size becomes the file pointer, and every error is kept in the file |
| FatFileResults.FollowReaches | FATFS/doc/img/app3.c:67-67 | f_lseek, ff.c lines 3095-3113: following a chain for a number of bytes reaches the cluster of that offset if and only if the links on the way to it can be read, whether or not the file is writable; otherwise it ends with a disk error, and it never changes the volume |
| FatFileResults.SeekFindsCluster | FATFS/doc/img/app3.c:67-67 | f_lseek, ff.c lines 3064-3130: an offset within the chain is found from the start or from the current cluster, if and only if the links from there to its cluster can be read; the volume stays as it is in any case |
| FatFileResults.SeekToEnd | FATFS/doc/img/app3.c:67-67 | f_lseek, ff.c lines 3095-3130: on a full volume a seek behind the end of the chain succeeds and ends, with the size of the file, at the end of its last cluster |
| FatFileResults.FollowTooShort | FATFS/doc/img/app3.c:67-67 | f_lseek, ff.c lines 3095-3113: without write access a chain that is too short for the offset is an internal error |
| FatFileResults.SeekInEmptyFile | FATFS/doc/img/app3.c:67-67 | f_lseek, ff.c lines 3077-3094: what the first cluster of an empty file, or the failure to get one, makes of the file |
| FatFileResults.TruncateCuts | FATFS/doc/img/app3.c:49-49 | f_truncate, ff.c lines 3402-3416: in the middle of a file it succeeds if and only if the entries from the current cluster on can be read and written one after the other; then the chain is cut there, its rest is freed and no other entry changes |
| Contiguous.FindRun | FATFS/doc/img/app3.c:51-63 | The nested scan returns the lowest start of a long enough free run, 0 if there is none |
| Contiguous.CheckChain | FATFS/doc/img/app3.c:36-43 | The check loop computes Check, the three outcomes included |
| Contiguous.Rebuild | FATFS/doc/img/app3.c:49-69 | Freeing, searching and rebuilding in place computes Reallocate; a sector number returned is that of the file's first cluster |
| Contiguous.AllocateContiguousClusters | FATFS/doc/img/app3.c:20-71 | The function as a whole computes Allocate, failures included; the sector returned is database + (sclust - 2) * csize, and a file with an error or a size of 0 changes nothing but the file pointer |
| Contiguous.CheckIsContig | FATFS/doc/img/app3.c:35-45 | The check accepts a chain if and only if its first n clusters are in sequence and it ends or goes on in sequence there; a chain that ends early is caught |
| Contiguous.CheckIsHardError | FATFS/doc/img/app3.c:37-43 | The check gives up exactly when a cluster reached in sequence has an entry that is 0, 1 or unreadable, or ends the chain too early |
| ChainBuilding.GrowsForward | FATFS/doc/img/app3.c:66-67 | create_chain, ff.c lines 1035-1080: a chain followed by a free cluster grows into that cluster if and only if the window can go from one entry to the other and back |
| ChainBuilding.StretchRun | FATFS/doc/img/app3.c:67-67 | f_lseek, ff.c lines 3095-3113: seeking ahead stretches a chain of one cluster over the whole free run behind it under the same condition on all its entries, and otherwise ends with a disk error |
| ChainBuilding.BuildRun | FATFS/doc/img/app3.c:66-67 | Seeking in an empty file after last_clust has been set builds the chain in the run that it points at, if and only if the entries of the run share one table sector, or all their sectors can be written, or it is a single cluster whose first sector can |
| ContiguousResults.FirstRunIsFirst | FATFS/doc/img/app3.c:52-63 | The scan is sound, complete and first-fit |
| ContiguousResults.RoundsUp | FATFS/doc/img/app3.c:30-32 | The cluster count is the least that holds the length, or 0 when the sum wraps around |
| ContiguousResults.ReallocateExactly | FATFS/doc/img/app3.c:49-69 | Reallocation succeeds if and only if the old chain can be freed and a chain can be built in the first free run after that; then the file is that run, and otherwise it is empty |
| ContiguousResults.AllocateExactly | FATFS/doc/img/app3.c:20-71 | A sector is returned if and only if the size fits 32 bits and the file is in place already, or writable and relocatable, whatever the recorded number of free clusters is |
| ContiguousResults.AllocateWrapped | FATFS/doc/img/app3.c:30-49 | A call with a size that wraps around fails, and leaves a writable file empty |
| ContiguousResults.LastLengthWraps | FATFS/doc/img/app3.c:30-49 | With clusters of 512 bytes the length 0xFFFFFFFF does this to every writable file |
| ContiguousResults.FailedCall | FATFS/doc/img/app3.c:34-67 | A failed call for a size that fits leaves a writable file empty, unless the check ended on a damaged chain; in that case, and for a file opened for reading, only the file pointer has changed |
| ContiguousResults.LosesDataIff | FATFS/doc/img/app3.c:49-63 | On a faultless drive a call fails and loses the data of a writable file if and only if the check lets it go on and no run is long enough even with the clusters of the file itself |
| ContiguousResults.AllocatedIsContiguous | FATFS/doc/img/app3.c:66-69 | After success the file is contiguous, has the size rounded up to clusters, starts at the returned sector database + (sclust - 2) * csize, and a right free count is still right |
| ContiguousResults.RelocatedChain | FATFS/doc/img/app3.c:66-69 | The chain of a relocated file is exactly c, c + 1, ..., c + n - 1 |
| ContiguousResults.AllocateIsIdempotent | FATFS/doc/img/app3.c:34-45 | A second call returns the same sector and changes nothing but the file pointer, if and only if the file is not a relocated one of a single cluster with its 12-bit entry in two sectors, the second of which cannot be written |
| ContiguousResults.AllocateFrame | FATFS/doc/img/app3.c:20-71 | No call, successful or not, on any table, with any free count and under any fault, changes an entry of another file |
| AllocationExamples.SucceedsInOneSector | FATFS/doc/img/app3.c:66-69 | Ten clusters from sector 100 on are allocated although the only sector of the table cannot be written: the changes stay in the window |
| AllocationExamples.FailsAcrossSectors | FATFS/doc/img/app3.c:66-67 | The call fails when its run crosses into a sector that cannot be written |
| AllocationExamples.SecondCallFails | FATFS/doc/img/app3.c:37-39 | Cluster 341 of a 12-bit table is allocated, and the same call fails afterwards |
| AllocationExamples.EmptiesTheFile | FATFS/doc/img/app3.c:49-54 | Asking for a third cluster on a full volume empties its only file and fails |
| DirTree.WalkAppend | FATFS/doc/img/app2.c:23-31 | follow_path, ff.c lines 2014-2066: appending a separator and a name to the path of a directory leads to the entry of that name in it |
| DirTree.WalkReplace | FATFS/doc/img/app2.c:33-36 | follow_path, ff.c lines 2014-2066: the path of a directory keeps its meaning while the contents of that directory change |
| DirTree.PathBelow | FATFS/doc/img/app2.c:23-38 | Both together for absolute and relative start paths, the root written as "/" included |
| PathNames.BackslashSeparates | FATFS/doc/img/app2.c:21-22 | create_name, ff.c lines 1804-2001: a backslash separates names like a slash does |
| PathNames.WalkExactly | FATFS/doc/img/app2.c:21-22 | follow_path, ff.c lines 2014-2066, with create_name: in terms of the segments between separators, which entry a path places, and each of its three errors exactly |
| PathNames.ResolveExactly | FATFS/doc/img/app2.c:21-22 | follow_path, ff.c lines 2014-2066: the same for whole paths, the root and a leading separator included |
| EmptyDirectory.OpenedLeads | FATFS/doc/img/app2.c:21-22 | f_opendir, ff.c lines 3152-3199: f_opendir accepts a path if and only if it leads to a directory |
| EmptyDirectory.OpenedExactly | FATFS/doc/img/app2.c:21-22 | f_opendir, ff.c lines 3152-3199: a path opens if and only if its segments lead through directories; otherwise FR_INVALID_NAME for an empty or all-dot segment that is looked up, and FR_NO_PATH for everything else |
| EmptyDirectory.Disk.OpenDir | FATFS/doc/img/app2.c:21-22 | f_opendir, ff.c lines 3152-3199: the directory that the segments of the path lead to, or FR_INVALID_NAME or FR_NO_PATH, never FR_NO_FILE |
| EmptyDirectory.Disk.ReadDir | FATFS/doc/img/app2.c:25-26 | f_readdir, ff.c lines 3241-3274: the next reported slot from the cursor on, an empty name at the end |
| EmptyDirectory.Disk.Remove | FATFS/doc/img/app2.c:36-37 | f_unlink, ff.c lines 3441-3502: an early fault, a failed lookup and a refusal, which is for read-only entries and directories that hold something, leave the tree as it was; otherwise the slot that the path names is freed, and a late disk fault frees it and reports an error all the same |
| EmptyDirectory.CopyName | FATFS/doc/img/app2.c:28-31 | The name and its terminator, and nothing else, are copied behind the separator |
| EmptyDirectory.PurgeOk | FATFS/doc/img/app2.c:24-37 | Success at any depth and under any fault means that every file and directory slot has been freed, and no other |
| EmptyDirectory.ClearedIsEmpty | FATFS/doc/img/app2.c:32-36 | When f_unlink is called on a directory, f_readdir would report nothing in it |
| EmptyDirectory.FindInCleared | FATFS/doc/img/app2.c:36-36 | The name just read still finds its own slot after the slots before it have been freed |
| EmptyDirectory.EmptyEntry | FATFS/doc/img/app2.c:28-37 | One pass of the loop body: the entry is emptied and removed, or left as the specification says |
| EmptyDirectory.EmptyEntries | FATFS/doc/img/app2.c:24-38 | The loop with its cursor over the changing directory computes the purge of the original one |
| EmptyDirectory.EmptyDirectory | FATFS/doc/img/app2.c:7-43 | The tree, the result and the count of calls are those of Run; a path that leads to no directory gets the two errors of RunFails; the path string is restored on every exit, and no index beyond its length plus 13 for each level of the tree is written; the recursion ends |
| EmptyDirectory.RunFails | FATFS/doc/img/app2.c:19-43 | A run on a path that leads to no directory changes nothing and returns FR_INVALID_NAME if a segment looked up is empty or all dots, otherwise FR_NO_PATH |
| EmptyDirectoryResults.PurgeOkIff | FATFS/doc/img/app2.c:24-37 | Emptying succeeds if and only if nothing below is read-only and no fault falls into the exact number of calls that it takes |
| EmptyDirectoryResults.PurgeLeavesOver | FATFS/doc/img/app2.c:24-37 | Without faults the run stops at the first protected entry in depth-first order, with everything before it gone and everything after it untouched |
| EmptyDirectoryResults.RunWithoutFaults | FATFS/doc/img/app2.c:7-43 | The exact result of a run without faults: FR_OK if and only if nothing below is read-only, FR_DENIED otherwise, and the same tree whether or not dot entries are reported |
| EmptyDirectoryResults.AbsentEntry | FATFS/doc/img/app2.c:19-22 | "/A" in an empty root: FR_NO_PATH |
| EmptyDirectoryResults.FileAsDirectory | FATFS/doc/img/app2.c:19-22 | A file as the start path: FR_NO_PATH |
| EmptyDirectoryResults.DotName | FATFS/doc/img/app2.c:19-22 | "..", without relative paths: FR_INVALID_NAME |
| EmptyDirectoryResults.EmptyName | FATFS/doc/img/app2.c:19-22 | "//": FR_INVALID_NAME |
| EmptyDirectoryResults.RunWithFaults | FATFS/doc/img/app2.c:7-43 | With a fault at any call, FR_OK if and only if the run ends before it, and then everything below is gone |
| EmptyDirectoryResults.PurgeGone | FATFS/doc/img/app2.c:24-37 | For an entry at any depth: it is gone if and only if its f_unlink came before the faulty call, or was a faulty one that strikes late, and nothing protected was to be removed up to then |
| EmptyDirectoryResults.RunLeaves | FATFS/doc/img/app2.c:7-43 | The tree after a run with a fault at any call, or none: nothing is added, renamed or moved, and the entries gone are exactly those whose f_unlink the run came to |
| EmptyDirectoryResults.RemainsUnique | FATFS/doc/img/app2.c:7-43 | Only one tree fits that description |
| EmptyDirectoryResults.RunPrunes | FATFS/doc/img/app2.c:7-43 | Whatever faults strike, read-only entries and the directories above them survive, and nothing is added, renamed or moved |
| EmptyDirectoryResults.ElsewhereSame | FATFS/doc/img/app2.c:7-43 | Entries outside the directory are untouched |
| Cp932.GapIsSearched | FATFS/src/option/cc932.c:3752-3755 | Although a low probe becomes the lower bound itself, n probes search a gap of 2^n - 1 keys |
| Cp932.ProbesSuffice | FATFS/src/option/cc932.c:3750-3757 | n probes find every key of a sorted table if and only if it has fewer than 2^n keys; a larger one loses its first key |
| Cp932.SixteenProbes | FATFS/src/option/cc932.c:3750-3757 | Sixteen probes are enough for every table of 16-bit codes, and find nothing for an absent one |
| Cp932.Search | FATFS/src/option/cc932.c:3749-3758 | The loop returns the image of the character, 0 if it has none, with every probe in bounds |
| Cp932.FfConvert | FATFS/src/option/cc932.c:3726-3784 | Up to 0x80 unchanged; above, the image in the table of the chosen direction, to Unicode by sjis2uni and from it by uni2sjis, and 0 exactly when that table has none |
| Cp932.FfConvertTiny | FATFS/src/option/cc932.c:3759-3778 | The same with one table: to Unicode a key that has the character as its value, found by the scan that steps back by three |
| Cp932.TinyIsTheSame | FATFS/src/option/cc932.c:3739-3778 | For mutually inverse tables both build variants compute the same function in both directions |
| Cp932.RoundTrip | FATFS/src/option/cc932.c:3736-3781 | A character with an image converts back to itself |
| Cp932.InversesExactly | FATFS/src/option/cc932.c:3736-3781 | Every convertible character converts back if and only if the tables are mutual inverses |
| Cp932.StringRoundTrip | FATFS/src/option/cc932.c:3726-3784 | A string converts back to itself if and only if each of its characters but NUL has an image |
| CaseTable.FfWtoupper | FATFS/src/option/cc932.c:3786-3798 | The scan stays in the tables, returns the replacement of the first matching key, and keeps a character that is no key |
| CaseTable.IdempotentIff | FATFS/src/option/ccsbcs.c:528-540 | For any tables, upper-casing twice is upper-casing once for every string if and only if no reachable replacement is itself replaced by something else; so it is when no replacement is a key |
| Sbcs.FfConvert | FATFS/src/option/ccsbcs.c:501-525 | To Unicode the entry of the page, 0 from 0x100 on; from Unicode the least code of the character, 0 exactly when the page has none |
| Sbcs.UnicodeRoundTrip | FATFS/src/option/ccsbcs.c:509-522 | Every character with a code comes back from it, for any page |
| Sbcs.TextRoundTripIff | FATFS/src/option/ccsbcs.c:501-525 | A string comes back if and only if each of its characters but NUL has a code |
| Sbcs.OemComesBack | FATFS/src/option/ccsbcs.c:509-522 | A code comes back as the least code of its character, or as that character when it is an ASCII one |
| Sbcs.OemRoundTripIff | FATFS/src/option/ccsbcs.c:509-522 | Every code with a character comes back if and only if the characters are distinct and none is ASCII |
| Sbcs.Page1253IsLossy | FATFS/src/option/ccsbcs.c:364-381 | Two codes of page 1253 that do not come back |
| Nvic.DecodePriority | CORE/core_cm4.h:1620-1631 | The two fields are in the range of the group, and encoding them gives back the implemented bits of the priority |
| Nvic.FieldsShare | CORE/core_cm4.h:1598-1599 | For every width and group the two fields together use exactly the implemented bits |
| Nvic.PackOrder | CORE/core_cm4.h:1601-1604 | Packed numbers are ordered by their high parts first |
| Nvic.DecodeEncoded | CORE/core_cm4.h:1592-1631 | Decoding undoes encoding, up to the bits that the fields have room for |
| Nvic.EncodeDecoded | CORE/core_cm4.h:1592-1631 | Encoding undoes decoding for every number of the implemented width |
| Nvic.EncodeOrder | CORE/core_cm4.h:1592-1604 | Encoded numbers fit the implemented bits and are ordered by preemption priority, then by subpriority |
| Nvic.ReadStored | CORE/core_cm4.h:1550-1577 | What NVIC_GetPriority reads is what NVIC_SetPriority was given, cut to the implemented bits |
| Nvic.GroupOfStored | CORE/core_cm4.h:1552-1604 | The bits that the processor takes for preemption are the preemption priority, shifted only if the group asks for more bits than exist |
| Nvic.SubOfStored | CORE/core_cm4.h:1552-1604 | The remaining bits are the subpriority above the unimplemented ones |
| Nvic.ProcessorOrder | CORE/core_cm4.h:1552-1604 | Of two encoded interrupts one preempts the other exactly when its preemption priority is smaller; the subpriority field is ordered like the subpriorities |
| Nvic.PriorityRoundTrip | CORE/core_cm4.h:1550-1631 | Encode, store, read and decode bring back every pair in range |
| Nvic.GroupingIsSet | CORE/core_cm4.h:1435-1446 | The write carries the key 0x5FA, puts the group into bits 10 to 8 and keeps every other bit of the register |
| Nvic.Registers.SetPriority | CORE/core_cm4.h:1550-1555 | One priority byte changes: SHP[irqn + 12] for core exceptions, IP[irqn] for device interrupts |
| Nvic.Registers.GetPriority | CORE/core_cm4.h:1569-1577 | The implemented bits of SHP[irqn + 12] or IP[irqn] |
| Nvic.Registers.SetPriorityGrouping | CORE/core_cm4.h:1435-1446 | Bits 10 to 8 of the register hold the group after the accepted write, and the others are as before |
| Nvic.Registers.GetPriorityGrouping | CORE/core_cm4.h:1455-1458 | The number in bits 10 to 8 |

## Left out

- DiskChecker.TestDiskIo: is stated for runs that end, with memory for what they touch; which runs these are is the subject of StaysInBuffer, MappedDriveBuffer and LargestCount. What lies behind the buffer in memory is not part of this model.
- DiskChecker.RunCycle: the branch for a variable sector size (app4.c:89-101) is not part of this model, because the configuration sets _MAX_SS equal to _MIN_SS (FATFS/src/ffconf.h:155-156); the sector size is a parameter all the same.
- DiskVerdicts.MappedDriveVerdict: sectors have at least 25 bytes, the number that identifies the state of the generator.
- FatFile.File.Lseek: the sector buffer of the file, fast seek tables, the check of the object by validate() and the sector number that an offset inside a sector needs are not part of this model; file offsets are rounded down by division, which is the bit mask of the code for a cluster size that is a power of two.
- FatFile.FileSystem.PutFat: the faults of a table sector are persistent; a failed read leaves the window as it was; write errors in the other copies of the table, which the code ignores, are not part of this model, nor are the sectors outside the table that the window may hold meanwhile.
- FatBytes.Table.PutFat: after a failed move to an entry that had not been read before, the code marks the unrelated sector in the window as changed; the contract says so, the link model does not, and no caller modelled here gets there, because each reads the entry first.
- ContiguousResults.AllocateExactly: an empty file has no start cluster, as the comment in FATFS/src/ff.h:120 promises.
- Contiguous.CheckChain: the stray characters `&&;` in app3.c:40 are read as `&&`.
- EmptyDirectory.EmptyDirectory: names are in 8.3 form and compared as they are; segments of the start path that create_name refuses for other reasons than being empty or all dots, folding of letter case, long names, control characters in the start path, drive numbers, the current directory and a start path through dot entries are not part of this model.
- EmptyDirectory.Disk.Remove: the clusters of a removed entry are not part of this model, and subdirectories have a valid start cluster; f_closedir has no effect on the tree.
- Cp932.FfConvert: the table contents are parameters that have the properties of the shipped tables: sorted keys, no code up to 0x80, a closing pair of zeros.
- Sbcs.FfConvert: the page is a parameter; the lemma about page 1253 names only the entries that it needs.
- Nvic.Registers.SetPriority: interrupt numbers below -12 have no priority byte and are excluded, as the note in the header says of core interrupts.
- Printed output, the main functions and app1.c, which only wrap the algorithms above.
- Register definitions, start-up code, compiler intrinsics and peripheral headers, which hold no algorithms.
- The other double-byte converters (cc936.c, cc949.c, cc950.c) have the search of cc932.c with other tables.
