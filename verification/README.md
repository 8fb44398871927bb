# ViveFS in Dafny

ViveFS keeps a file system in a transactional key-value store. This project models its data path, its merge
logs and its metadata, and proves what holds over every run.

**Data path** (`src/vn_file.cpp`). A byte range is cut into one segment per extent. A full segment is a `Put`, a
partial one a `Merge` with its offset in the extent; both go into one transaction, with the inode when the file
grows. `DataPath.dfy` has the calls as methods on objects with the source's loops and cursors. `DataOps.dfy` gives
the whole effect of a call as a function, for every way staging and commit can fail. The specification is a flat,
zero-filled byte sequence per inode number (`FlatFile.dfy`).

**Merge logs** (`src/vn_data_merge.cpp`, `docs/key-problem.md`). Each extent key holds a history of `Put`, `Merge` and
`Delete`. The store may join deltas and fold them at any time (`MergeLog.dfy`). The operator is declared in
`include/vn_data_merge.h`; rows about it cite its declaration and name the lines of its body.

**Metadata**. One column holds names (`"%ld_%s"`), raw 8-byte inode numbers and two fixed keys. Creates and unlinks
are transactions that lock keys; their steps interleave freely with failures and remounts (`Metadata*.dfy`).
`DirIterator.dfy` is the directory listing.

**All of it** (`FileSystem*.dfy`): one machine of metadata steps, data calls, log rewrites, evictions and remounts. A
run is any sequence of steps; a step that is not enabled does nothing. The main results are about all runs.
`FileSystemBase.dfy` has what holds after every run, whatever fails; `FileSystemSync.dfy` the agreement of memory and
store; `FileSystemRuns.dfy` the files and what reads return.

## What the proofs say about the code

Where the code does not do what it evidently should, the model follows the code and the exact condition is proved.

- The merge operator joins any two deltas, and the resized value has zeros between separated ones, which then replace
  the bytes below. On a given base a join is right if and only if the base is zero in the gap; on every base if and only
  if the two ranges touch, empty deltas included (`JoinRightIffGapIsZero`, `PartialMergeRightIffTouch`). In a log it is
  right if and only if each byte of the gap is zero below or overwritten above (`RewriteKeepsMeaningIff`). So files
  survive a log rewrite if and only if it is harmless in this sense (`CompactOkIff`). `JoinLosesByteInRun` is a run of
  successful calls that loses a byte. No rewrite does worse than clear bytes (`RewriteOnlyClears`, `ReadsOnlyFade`).
- `docs/key-problem.md` does not describe this; it only says that two deltas merge into a delta. An operator that
  declines separated deltas would be right, and would decline only where no single delta can do (`JoinOrDeclineIsExact`).
- The operator asserts that `data_bmp` is not 0xffff, but these two bytes hold the merge offset. A write stages a delta
  that breaks the assertion in every join if and only if it starts at the last byte of a 64 KB extent
  (`WriteBreaksAssertionIff`).
- Both readers copy from the start of the extent value and never add the offset inside the extent. A read returns the
  file's bytes for every content if and only if it starts on an extent boundary (`ReadRightIffAligned`). The exact
  result at any other offset is `FetchExact`. A reader that adds the offset is right everywhere.
- A read that starts past the end of the file wraps its length around. It stays inside the caller's buffer if and only
  if it starts at or before the end of the file or ends on an extent boundary (`ReadStaysInBuffer`).
- A truncation sets the in-memory size to 0 even if its transaction fails or a `Delete` is refused. Later writes show no
  old byte if and only if every byte that was not deleted is zero (`TruncateHidesIffZero`, `FailedTruncateReexposes`);
  no stray extent remains if and only if there was none to leave behind (`OpenTruncOkIff`).
- A growing write that fails to commit leaves the in-memory size grown, so a later write commits data without the inode
  (`FailedGrowthStraysPastRecord`). The size stays stored if and only if the write commits or does not grow the file
  (`WriteStoresSizeIff`), and losing the inode from memory is harmless if and only if its size is stored (`EvictOkIff`,
  `RemountOkIff`).
- Altogether a step keeps all files right and free of stray extents if and only if it is `Safe`, and a run does so all
  along if and only if all its steps are (`FsStepOkIff`, `RunOkIff`). A run is called tidy below if all its steps other
  than log rewrites are safe.
- `vn_open_file` gives each handle an inode of its own. Two of them keep the recorded size right if and only if the
  condition of `PrivateInodesKeepSizeIff` holds; the run theorems are about handles that share one inode object.
- `vn_fsync` clears the dirty flag even if its commit fails, and returns `-EIO` on every path (`FailedFsyncIffCovered`).
  `SyncStepIff` and `SyncRunIff` say exactly when memory and store stay in agreement.
- `vn_create_file` takes an error of `GetForUpdate` for "not found". In every interleaving a committing create replaces
  a binding if and only if the name was bound when its `Put` of the name was staged, which cannot be if `GetForUpdate`
  gave it the lock (`CreateReplacesIff`). An uninterrupted create of a bound name does so if and only if its lock request
  fails (`CreateCallReplacesIff`, `LockErrorOverwrites`).
- `vn_unlink` looks the name up before it locks it. In every interleaving a committing unlink removes the number it
  looked up if and only if the name still has that number when its `Delete` is staged (`UnlinkRemovesIff`);
  `UnlinkRemovesLaterCreate` is a run in which it removes a later one.
- A directory listing contains exactly the directory's names if and only if no stored inode number looks like the
  prefix; numbers below 24368 never do (`ListingIsDirectoryIff`, `SmallSeedIsEnough`, `LookalikeInRun`). An intruding
  record is returned as an entry with its own inode.
- A write whose segments were refused still returns len. It did its work if and only if every refused byte already had
  its new value (`RefusedSegmentsHarmlessIff`).
- `vn_unlink` ignores the status of its deletes: it returns 0 and leaves the name bound if the one of the name was
  refused. It deletes extents in `default_cf`, so those in `data_cf` stay if and only if there were any, and so does the
  inode record. New files are empty all the same, after every run, because inode numbers are never used twice and
  extents never stray to a number without a record (`NewFileIsEmpty`, `NumbersAreNeverReused`).
- POSIX says that an empty write has no effect. Here it leaves the file alone if and only if its offset is at most
  `i_size`, past which the file grows, and it leaves the store's log alone if and only if its offset is on an extent
  boundary; elsewhere, within the file too, it stages an empty `Merge` (`EmptyWriteEffect`).

## Assumptions

- The extent size `e` is symbolic with `0 < e <= 65536` and the same for all files, and so are the first inode number
  and the seed key, which starts with neither a digit nor a minus sign. `SourceConstantsOk` shows that 64 KB, 12 and
  `"__inode_seed__"` are such values. Inode numbers are 8 little-endian bytes.
- The string that a partial merge resizes is empty, as the store passes it.
- The two descriptions of the `flags` bit disagree (`docs/key-problem.md:47-48` and `:113`), and the writers leave it 0.
  Bases and deltas are told apart by the store operation.
- Offsets are not negative, and `offset + len + e` does not exceed 2^63. Fewer than 2^56 inode numbers are handed out.
- Commit is atomic, a transaction keeps its locks until it ends, `inode_seed++` is one step, and a staged `Put` copies
  its value when it holds the lock. Each data call is one step of the machine; creates and unlinks interleave step by
  step. What the store answers (`failed`, `locked`, `outcome`) and the time are parameters.

## Model

| member | source | states |
|---|---|---|
| `FileSystemRuns.ReadAfterRun` | src/vn_file.cpp:253-446 | after every safe run of the whole machine every file reads back as its flat file: aligned reads exactly, other reads with the exact deviation, `i_size` is the flat length |
| `FileSystemRuns.ReadAfterCommittedRun` | src/vn_file.cpp:171-446 | the same after every run in which the data calls commit, truncations are complete and log rewrites are harmless, whatever creates, unlinks, staging failures and remounts happen in between |
| `FileSystemRuns.ReadsOnlyFade` | src/vn_file.cpp:411-446 | after every tidy run, with any log rewrites, each byte of an aligned read is the flat file's byte or zero |
| `FileSystemRuns.TidyRunFades` | include/vn_data_merge.h:53-63 | over every run whose steps other than log rewrites are safe, the files are the flat files with some bytes cleared |
| `FileSystemBase.BytesComeFromWrites` | src/vn_file.cpp:253-317 | after every run, whatever failed and however logs were rewritten, each stored byte is zero or was written by some call to that position of that file |
| `FileSystemRuns.RunOkIff` | src/vn_file.cpp:70-697 | over every run, each file is all along represented by its stored extents, with consistent metadata, if and only if every step that does something is safe |
| `FileSystemRuns.PlainRunSucceeds` | src/vn_file.cpp:70-697 | a run without failing calls and without joins of deltas is successful, with harmless rewrites |
| `LostBytes.JoinLosesByteInRun` | include/vn_data_merge.h:53-57 | a run from mkfs on: create, open, a full write, two separated small writes and one join; the aligned read then returns 0 where the file has 9 (body: `src/vn_data_merge.cpp`, lines 85-131) |
| `FileSystemInv.FsStepOkIff` | src/vn_file.cpp:70-697 | an enabled step of the machine keeps the extents of every file equal to its flat file, with none past its end, if and only if it is safe |
| `FileSystemInv.FreshFsOk` | src/vn_mkfs.cpp:73-82 | a new file system satisfies the invariant |
| `FileSystemInv.SourceConstantsOk` | src/vn_mkfs.cpp:78-81 | the extent size, first inode number and seed key of the headers are among those the results are about |
| `FileSystemInv.MetaStepOk` | src/vn_file.cpp:84-127 | creates and unlinks change no file's bytes or size |
| `FileSystemInv.WriteOk` | src/vn_file.cpp:253-317 | a write step, failing or not, keeps all files equal to their flat files |
| `FileSystemInv.OpenTruncOkIff` | src/vn_file.cpp:171-205 | an open with `O_TRUNC` empties its own file and no other if and only if it got no lock or left no stored extent behind, refused deletes and failed commits included |
| `FileSystemInv.FsyncOk` | src/vn_file.cpp:663-697 | fsync and close change no file's bytes or size, however they end |
| `FileSystemInv.CompactOkIff` | include/vn_data_merge.h:53-57 | rewriting a merge log changes no file if and only if the rewrite is harmless (body: `src/vn_data_merge.cpp`, lines 85-131) |
| `FileSystemInv.RemountOkIff` | src/vn_main.cpp:131-139 | losing all memory changes no file if and only if every in-memory size was stored |
| `FileSystemInv.EvictOkIff` | src/vn_file.cpp:690-697 | losing one inode from memory changes no file if and only if its size was stored |
| `FileSystemRuns.ExtentsAfterRun` | src/vn_file.cpp:185-204 | after every tidy run, with any log rewrites, each stored extent lies below ceil(i_size / e) and all bytes past `i_size` are zero |
| `FileSystemBase.AnyRunBase` | src/vn_file.cpp:70-697 | every run, whatever fails in it, keeps the metadata consistent, the logs well formed, the sizes in range and every extent under a number with a record |
| `FileSystemBase.NoRecordAfterRun` | src/vn_file.cpp:537-546 | after every run, whatever failed in it, a number without a record has size 0 and no extents, and the next number is such a number |
| `FileSystemBase.NewFileIsEmpty` | src/vn_file.cpp:75-127 | after every run, whatever failed in it, a committing create makes a file of size 0 under whose number no extent is stored |
| `FileSystemBase.CallsAreSteps` | src/vn_file.cpp:152-446 | every call on an open handle, at any offset in range and with any outcome, is a step of the machine |
| `FileSystemBase.HandleAfterStep` | src/vn_file.cpp:206-317 | what each call leaves in its handle: opened clean, dirty after which outcomes, gone after close |
| `FileSystemBase.InodeAfterStep` | src/vn_file.cpp:185-317 | which fields of which in-memory inode each call changes, and to what |
| `FileSystemSync.SyncStepIff` | src/vn_file.cpp:298-309 | a step keeps memory and store in agreement if and only if it commits what it changes or leaves nothing that only it would have stored; log rewrites never matter |
| `FileSystemSync.SyncRunIff` | src/vn_file.cpp:298-309 | memory and store agree all along a run if and only if each of its steps keeps the agreement |
| `FileSystemSync.AgreementAfterRun` | src/vn_file.cpp:298-309 | after every run whose data calls commit, with any log rewrites and refused deletes, the recorded size is the in-memory one and an inode that differs from its record has a dirty handle |
| `FileSystemRuns.SuccessfulRunIsTidy` | src/vn_file.cpp:171-446 | a run in which data calls commit and truncations are complete is tidy, and safe if its log rewrites are harmless |
| `FileSystemRuns.CommittedRun` | src/vn_file.cpp:298-309 | after every such run, with any log rewrites: agreement of memory and store, the extent bound and the zero tail |
| `FileSystemSync.WriteStoresSizeIff` | src/vn_file.cpp:301-314 | from a stored size, the size is stored after a write if and only if the write committed or did not grow the file |
| `FileSystemSync.FsyncAgrees` | src/vn_file.cpp:663-697 | fsync or close of a dirty handle makes the record equal to the in-memory inode |
| `FileSystemSync.EvictLosesNothing` | src/vn_file.cpp:690-697 | when data calls have committed and the last handle is gone, the in-memory inode equals its record |
| `FileSystemSync.FailedFsyncIffCovered` | src/vn_file.cpp:670-682 | after a failed fsync the inode is still covered if and only if it was stored already or another handle is dirty |
| `DataOps.WriteEffectOnFile` | src/vn_file.cpp:253-317 | one write call, for every outcome, turns the flat file into its flat write, or only grows it if nothing was committed |
| `DataOps.WriteEffectElsewhere` | src/vn_file.cpp:273-296 | a write changes no byte of any other file |
| `DataOps.TruncateHidesIffZero` | src/vn_file.cpp:185-203 | after a truncation with any failures, every later write leaves the bytes it would leave in an empty file if and only if all bytes that were not deleted are zero |
| `DataOps.FailedTruncateReexposes` | src/vn_file.cpp:192-203 | a sparse write after a failed truncation shows an old byte in a hole |
| `DataOps.FailedGrowthStraysPastRecord` | src/vn_file.cpp:301-314 | after a failed growing write the same write succeeds and commits data past the recorded size; the exact condition is `WriteStoresSizeIff` |
| `DataOps.PrivateInodesKeepSizeIff` | src/vn_file.cpp:240-249 | with one inode copy per handle the recorded size is right if and only if the second write stays in the old size or ends at or after the first |
| `DataOps.EmptyWriteEffect` | src/vn_file.cpp:273-303 | an empty write keeps size and bytes of the file if and only if it is not past the end, and the logs if and only if it is on an extent boundary |
| `DataPath.ViveFsContext.Write` | src/vn_file.cpp:253-317 | `vn_write` returns len if and only if its transaction commits, otherwise `-EIO` with the store unchanged; it sets mtime, grows the size, leaves the other fields, and has the effect `WriteEffect` on the logs |
| `DataPath.ViveFsContext.StageWrite` | src/vn_file.cpp:271-296 | the loop stages the operations of the segments in order |
| `DataPath.WholeLoop` | src/vn_file.cpp:255-296 | what the loop stages is the tiling of the range, one operation per extent |
| `DataPath.ViveFsContext.CommitWrite` | src/vn_file.cpp:298-317 | the common end of the two writers: result, inode fields, dirty flag and record for every outcome |
| `DataPath.ViveFsContext.Writev` | src/vn_file.cpp:319-410 | `vn_writev` does exactly what `vn_write` does with the concatenated buffers, with the same result and fields |
| `DataPath.ViveFsContext.StageWritev` | src/vn_file.cpp:341-389 | its loops stage the same operations, never index past the last iovec and end, with empty iovecs too |
| `DataPath.ViveFsContext.Gather` | src/vn_file.cpp:355-369 | the inner loop copies the next n bytes of the concatenation and moves the cursor by n |
| `DataPath.ViveFsContext.Read` | src/vn_file.cpp:411-446 | `vn_read` copies the bytes of `Fetch` and leaves the rest of the buffer alone, past the end of the file too; up to the end these are min(len, i_size - offset) bytes; it returns the length clamped modulo 2^64 and updates only atime and the dirty flag |
| `DataPath.ReadExtent` | src/vn_file.cpp:423-437 | a point read of an extent's log returns the extent's bytes, or zeros if it is absent |
| `DataPath.ReadLoop` | src/vn_file.cpp:421-439 | the loop, bounded before the clamp, copies the whole read and moves nothing after its end |
| `DataPath.ViveFsContext.Readv` | src/vn_file.cpp:447-521 | `vn_readv` stores exactly the bytes of `vn_read` at the addresses of the buffers, in order, and changes no other memory; the buffers may overlap; result and inode as for `vn_read` |
| `DataPath.ReadvLoop` | src/vn_file.cpp:463-512 | its loops store the whole read at the addresses of the buffers in order |
| `Iov.Scatter` | src/vn_file.cpp:477-508 | the inner loop stores the bytes at the addresses behind the cursor, moves the cursor behind them and ends with empty iovecs too |
| `Iov.BuffersHoldIffDistinct` | src/vn_file.cpp:477-508 | the buffers hold every content handed out to them if and only if they share no memory |
| `Iov.SeparateBuffersHold` | src/vn_file.cpp:477-508 | buffers that share no memory hold the bytes handed out and after them what they held before |
| `DataPath.MakePlan` | src/vn_file.cpp:413-439 | the iterations fixed for len bytes and clamped with wrap-around copy a read cut into its segments, the surplus ones empty |
| `DataPath.ViveFsContext.OpenByInode` | src/vn_file.cpp:152-214 | with `O_TRUNC` it has the effect `TruncateEffect`, fails exactly without lock, record or commit, and changes no inode field but the size; otherwise it changes nothing; the handle is clean |
| `DataPath.ViveFsContext.StageDeletes` | src/vn_file.cpp:185-191 | one `Delete` per extent below ceil(i_size / e) |
| `DataPath.ViveFsContext.OpenFile` | src/vn_file.cpp:215-251 | in a consistent store it returns NULL if and only if the name is missing and not created, or a truncation fails; the handle's inode is the stored record of the bound number, with size 0 only after truncation, or the new inode; it states the new store |
| `DataPath.ViveFsContext.Fsync` | src/vn_file.cpp:663-688 | stores a dirty inode if and only if it commits, leaves the handle dirty only if staging failed, always returns `-EIO` |
| `DataPath.ViveFsContext.Close` | src/vn_file.cpp:690-697 | has the store effect of fsync and returns 0 |
| `DataPath.ViveFsContext.CreateFile` | src/vn_file.cpp:70-136 | an uninterrupted `vn_create_file` is a run of the metadata machine; result, new inode, seed and new store in each case |
| `DataPath.ViveFsContext.LookupInodeNo` | src/vn_file.cpp:564-591 | returns the bound number and the whole stored record of it, -1 for a missing name or record |
| `DataPath.ViveFsContext.Unlink` | src/vn_file.cpp:523-562 | an uninterrupted `vn_unlink` is a run of the metadata machine, but a refused `Delete` leaves the name bound: a 0 result removed the name of the last link if and only if the `Delete` was staged; extents are deleted in `default_cf`, `data_cf` is untouched |
| `DataPath.ViveFsContext.GenerateInodeNo` | src/vn_main.cpp:204-207 | returns the seed and increments it |
| `DataPath.ViveFsContext.Mount` | src/vn_main.cpp:131-150 | succeeds if and only if the seed and a superblock with the right magic string and version are stored; then the in-memory seed is the stored one, as after the machine's remount |
| `MetadataRuns.RemountReloads` | src/vn_main.cpp:131-135 | a remount after any run keeps the store, loads the committed seed and leaves no transaction and no lock |
| `MetadataCalls.CreateAfterRemount` | src/vn_file.cpp:75-127 | the first create after a remount gets exactly the committed seed |
| `MetadataRuns.RunIsMountable` | src/vn_main.cpp:131-150 | after every run that condition holds |
| `DataPath.ViveFsContext.Mkfs` | src/vn_mkfs.cpp:73-82 | stores the superblock and the first inode number as seed, which is the initial state of the metadata machine |
| `MetadataRuns.NumbersStartAtFirst` | src/vn_mkfs.cpp:78-81 | after every run from there, remounts included, every stored, bound, used or future inode number is at least the first one |
| `ReadSpec.FetchAtOffsetIsFlat` | src/vn_file.cpp:421-439 | a reader that adds the in-extent offset returns the flat file's bytes at every offset |
| `ReadSpec.FetchExact` | src/vn_file.cpp:424-435 | the exact bytes of a read at any offset: the first segment comes from the start of its extent, the rest is right |
| `ReadSpec.FetchIsFlat` | src/vn_file.cpp:421-439 | an aligned read returns the flat file's bytes |
| `ReadSpec.ReadRightIffAligned` | src/vn_file.cpp:424-435 | a read is right for every content of the file if and only if it is aligned |
| `ReadSpec.MisalignedRead` | src/vn_file.cpp:424-435 | for every misaligned offset a file whose read is wrong |
| `ReadSpec.ReadStaysInBuffer` | src/vn_file.cpp:413-439 | with 64-bit wrap-around the loop stays in the buffer if and only if it starts at or before the end of the file or ends on an extent boundary; in the first case it moves min(len, i_size - offset) bytes, otherwise all up to the next extent boundary |
| `ReadSpec.ReturnedLength` | src/vn_file.cpp:416-417 | the returned length is the POSIX one if and only if the read starts at or before the end of the file |
| `FlatFile.WriteRepresents` | src/vn_file.cpp:273-296 | a file's extents after a write represent its flat write: unwritten bytes kept, holes zero, no extent past the end |
| `FlatFile.WriteWritten` | src/vn_file.cpp:273-296 | a write changes exactly the bytes of its range whose segment was staged, in one file |
| `FlatFile.WriteKeepsOthers` | docs/key-problem.md:8-24 | the extents of every other file represent the same bytes as before |
| `FlatFile.FlatWriteIsOverwrite` | src/vn_file.cpp:253-317 | the flat write without staging failures is zero padding followed by overwriting |
| `FlatFile.RefusedSegmentsHarmlessIff` | src/vn_file.cpp:285-295 | a write with refused segments has the effect of the whole write if and only if every refused byte already had its new value |
| `FlatFile.RepresentsUnique` | src/vn_file.cpp:185-204 | extents and a length determine the file |
| `FlatFile.TruncateMeaning` | src/vn_file.cpp:187-191 | committing the deletes removes exactly the extents of that file below the bound that were staged |
| `FlatFile.TruncateRepresents` | src/vn_file.cpp:185-204 | a complete truncation leaves the empty file, without any extent |
| `FlatFile.TruncateKeepsOthers` | src/vn_file.cpp:187-191 | a truncation changes no other file |
| `Extents.ExtentKeyInjective` | docs/key-problem.md:8-24 | the 16-byte key determines extent index and inode number |
| `Extents.ExtentKeyLayout` | docs/key-problem.md:8-24 | the key holds the extent index in its first 8 bytes and the inode number in its last 8, both little-endian |
| `Extents.CommitOneMeaning` | docs/key-problem.md:26-29 | a committed operation changes exactly one extent of one file |
| `Extents.CompactionKeepsExtentsIff` | include/vn_data_merge.h:53-57 | rewriting one key's log changes no extent of any file if and only if the rewrite is harmless (body: `src/vn_data_merge.cpp`, lines 85-131) |
| `Extents.WriteBreaksAssertionIff` | src/vn_file.cpp:285-290 | a write stages a delta that breaks the assertion of every join if and only if it starts at the last byte of a 64 KB extent (body: `src/vn_data_merge.cpp`, line 102) |
| `Extents.KeyOfSomeExtent` | docs/key-problem.md:8-24 | every 16-byte key is the key of some extent |
| `Extents.CommitSegmentsMeaning` | src/vn_file.cpp:273-296 | committing the staged segments applies them to the extents in order |
| `Extents.TileGathers` | src/vn_file.cpp:271-296 | the segments' bytes in order are the written bytes |
| `Extents.TileInside` | src/vn_file.cpp:276-279 | each segment lies inside the extent it is keyed by, and the indices are consecutive |
| `Extents.TileAbuts` | src/vn_file.cpp:273-296 | the segments follow each other without gap or overlap |
| `Extents.TileCount` | src/vn_file.cpp:255-256 | there are exactly end_ext - start_ext segments |
| `Extents.AlignedTileIsFull` | src/vn_file.cpp:279-290 | from an aligned offset all segments but the last are full |
| `Extents.TileMergesAtEnds` | src/vn_file.cpp:285-291 | only the first and the last segment can be a `Merge` |
| `Extents.SegmentOpExact` | src/vn_file.cpp:285-290 | a segment is a `Put` if and only if it is full, a `Put` starts at offset 0, and the 16-bit cast of the merge offset is exact |
| `MergeLog.GroupingIsInvisible` | include/vn_data_merge.h:53-63 | for every interleaving of commits and harmless rewrites a point read returns what the committed operations, applied one at a time in order, produce (body: `src/vn_data_merge.cpp`, lines 85-195) |
| `MergeLog.PointReadIsResolve` | include/vn_data_merge.h:62-63 | collecting operands down to a base and full-merging them equals applying the log in order (body: `src/vn_data_merge.cpp`, lines 165-193) |
| `MergeLog.JoinedByte` | include/vn_data_merge.h:53-57 | a joined delta does to every base what the two deltas did, except that it clears the gap (body: `src/vn_data_merge.cpp`, lines 107-116) |
| `MergeLog.JoinRightIffGapIsZero` | include/vn_data_merge.h:53-57 | on a given base the joined delta does what the two deltas did if and only if the base is zero in the gap (body: `src/vn_data_merge.cpp`, lines 107-116) |
| `MergeLog.PartialMergeRightIffTouch` | include/vn_data_merge.h:53-57 | it does so on every base if and only if the ranges touch, with no exception for empty deltas (body: `src/vn_data_merge.cpp`, lines 107-116) |
| `MergeLog.JoinOrDeclineIsExact` | docs/key-problem.md:50-54 | a merge that joins what touches, skips what is empty and declines the rest is right, and declines only where no single delta can do |
| `MergeLog.SeparatedJoinLosesByte` | include/vn_data_merge.h:53-57 | joining two separated deltas above a base loses every byte between them (body: `src/vn_data_merge.cpp`, lines 107-119) |
| `MergeLog.EmptyDeltaClearsBytes` | include/vn_data_merge.h:53-57 | an empty delta, as an empty write stages it, clears bytes when it is joined with a later one (body: `src/vn_data_merge.cpp`, lines 107-116) |
| `MergeLog.TouchingJoinIsHarmless` | include/vn_data_merge.h:53-57 | deltas that touch can be joined in every log (body: `src/vn_data_merge.cpp`, lines 107-116) |
| `MergeLog.RewriteKeepsMeaningIff` | include/vn_data_merge.h:53-63 | a rewrite keeps the value of a log if and only if it is harmless: each byte a join clears is zero below or overwritten by a later entry (body: `src/vn_data_merge.cpp`, lines 121-195) |
| `MergeLog.RewriteOnlyClears` | include/vn_data_merge.h:53-63 | a rewrite, harmless or not, changes bytes only to zero (body: `src/vn_data_merge.cpp`, lines 121-195) |
| `MergeLog.RewriteKeepsPresence` | include/vn_data_merge.h:53-63 | no rewrite makes an extent appear or disappear (body: `src/vn_data_merge.cpp`, lines 121-195) |
| `MergeLog.RewriteKeepsFits` | docs/key-problem.md:105-111 | rewrites stay inside the extent |
| `MergeLog.ResolveIsFullExtent` | docs/key-problem.md:20-24 | a log of fitting operations resolves to a full extent or to none |
| `MetaKeys.NameKeyRoundTrip` | src/vn_file.cpp:81-82 | splitting a name key at its first underscore gives back parent and name |
| `MetaKeys.NameKeyInjective` | docs/key-problem.md:73-75 | different (parent, name) pairs have different keys, underscores in names included |
| `MetaKeys.PrefixSelectsParent` | src/vn_file.cpp:602-611 | a name key starts with "p_" if and only if its parent is p |
| `MetaKeys.InodeKeyInjective` | src/vn_file.cpp:147 | the raw inode key determines the number |
| `MetaKeys.InodeKeyLayout` | src/vn_file.cpp:147 | it is the number in 8 little-endian bytes |
| `MetaKeys.DecNatDigits` | src/vn_file.cpp:81 | the parent number is written digit by digit, most significant first, without leading zeros |
| `MetaKeys.InodeKeyIsNoCString` | src/vn_file.cpp:106-147 | below 2^56 a raw inode key is no name key and no fixed key |
| `MetaKeys.NameKeyIsInodeKey` | src/vn_file.cpp:81-147 | a name key is the raw key of some number if and only if it has 8 bytes, and then the number is at least 2^56 |
| `MetaKeys.FixedKeysAreNoNames` | src/vn_mkfs.cpp:80-81 | superblock and seed keys are no name keys |
| `MetaKeys.InodeKeyStartsWith` | src/vn_file.cpp:602-611 | a raw inode key starts with a prefix if and only if its low bytes have the prefix's little-endian value |
| `MetaKeys.SmallInodesAreSafe` | src/vn_file.cpp:602-611 | numbers below the prefix's value, or below 24368, never look like a directory prefix |
| `MetadataInv.StepInv` | src/vn_file.cpp:75-127 | every step of the metadata machine, failures and remounts included, keeps its invariant |
| `MetadataInv.FreshInv` | src/vn_mkfs.cpp:73-82 | the state made by mkfs satisfies it |
| `MetadataInv.NextNumberIsNew` | src/vn_main.cpp:204-207 | nothing is stored under the next inode number |
| `MetadataRuns.RunInv` | src/vn_file.cpp:70-136 | every interleaving keeps the invariant |
| `MetadataRuns.SeedNeverDecreases` | src/vn_file.cpp:117-127 | the committed seed never decreases, over all interleavings and remounts |
| `MetadataRuns.NamesLeadToTheirOwnInode` | src/vn_file.cpp:578-588 | in every reachable state a bound name leads to a record with its own number, below the committed seed, "inode lost" cannot happen, and two names never share an inode |
| `MetadataRuns.LookupInInv` | src/vn_file.cpp:564-591 | the same for a lookup in any consistent state; the inode found is the whole stored record |
| `FileSystemRuns.LookupSizeAfterRun` | src/vn_file.cpp:564-591 | after every successful run, with any log rewrites, the inode looked up has the length of the flat file |
| `MetadataRuns.NumbersAreNeverReused` | src/vn_main.cpp:204-207 | two committed creates of a run never have the same inode number, remounts and unlinks in between included |
| `MetadataRuns.RunRefines` | src/vn_file.cpp:523-591 | over every run the store refines a plain map from (parent, name) to inode number |
| `MetadataRuns.LookupIsDirectoryLookup` | src/vn_file.cpp:564-591 | after every run lookup returns what that map holds, and not found for all other names |
| `MetadataLocks.CreateReplacesIff` | src/vn_file.cpp:99-127 | in every interleaving a committing create replaces a committed binding if and only if the name was bound when its `Put` of the name was staged, and then its lock request had failed |
| `MetadataLocks.CreateCallReplacesIff` | src/vn_file.cpp:99-127 | an uninterrupted create of a bound name replaces the binding if and only if its lock request fails |
| `MetadataLocks.StepKeepsHeldName` | src/vn_file.cpp:99-127 | from the step that stages an operation on a name to its end, no step of another transaction changes the binding |
| `MetadataLocks.CreateMovesIff` | src/vn_file.cpp:99-127 | with any other transactions open, a create moves on if and only if no other transaction holds the key its next step needs; with everything staged it can commit, and it can always roll back |
| `MetadataLocks.UnlinkMovesIff` | src/vn_file.cpp:533-554 | the same for an unlink |
| `MetadataRuns.CreateFindsNoBinding` | src/vn_file.cpp:99-127 | in every interleaving a create that got its lock replaces no committed binding; the exact condition is `CreateReplacesIff` |
| `MetadataLocks.UnlinkRemovesIff` | src/vn_file.cpp:527-554 | in every interleaving a committing unlink leaves the name unbound, and removes the number it looked up if and only if the name still has it when the `Delete` is staged |
| `MetadataLocks.UnlinkRemovesLaterCreate` | src/vn_file.cpp:527-554 | a run in which an unlink removes the binding of a later create |
| `MetadataRuns.CreatesAreChecked` | src/vn_file.cpp:99-103 | if `GetForUpdate` reports only found and not found, every committing create got its lock |
| `MetadataRuns.CreatesOfANameAreSeparated` | src/vn_file.cpp:84-127 | between two committed creates of one name an unlink of it commits, if the later create got its lock |
| `MetadataCalls.LockErrorOverwrites` | src/vn_file.cpp:99-107 | a run in which a create whose lock request failed replaces an existing binding; the exact condition is `CreateReplacesIff` |
| `MetadataCalls.LockErrorTakesNothing` | src/vn_file.cpp:99-103 | a failed lock request takes no lock and changes nothing stored |
| `MetadataCalls.CreateCallEffect` | src/vn_file.cpp:104-127 | an uninterrupted create commits name, record and seed together and nothing before |
| `MetadataCalls.ExistingCallEffect` | src/vn_file.cpp:99-103 | a create of an existing name changes nothing but the in-memory seed |
| `MetadataCalls.AbortedCallEffect` | src/vn_file.cpp:99-127 | a create that fails after any of its steps changes nothing but the in-memory seed |
| `MetadataCalls.UnlinkCallEffect` | src/vn_file.cpp:533-561 | an uninterrupted unlink deletes the name and nothing else, or stores one link less |
| `DirIterator.LessIffSmallerAt` | src/vn_file.cpp:603-604 | keys are in ascending bytewise order |
| `DirIterator.ListedExactly` | src/vn_file.cpp:599-611 | the walk from the seek position visits every key with the prefix once and no other key |
| `DirIterator.ListingIsDirectoryIff` | src/vn_file.cpp:599-656 | all visited keys are names of the directory if and only if no stored inode number looks like the prefix; every name is visited in any case |
| `DirIterator.SmallSeedIsEnough` | src/vn_file.cpp:599-656 | a seed up to the prefix's value, or up to 24368, is enough |
| `DirIterator.LookalikeExists` | src/vn_file.cpp:602-611 | inode 0x5f32 looks like an entry of directory 2 |
| `DirIterator.LookalikeInRun` | src/vn_mkfs.cpp:78 | a run from the first number mkfs stores, after which a stored number looks like an entry of directory 2 |
| `DirIterator.InodeIterator.constructor` | src/vn_file.cpp:599-606 | the iterator stands at the first key not before the prefix |
| `DirIterator.InodeIterator.NextInode` | src/vn_file.cpp:614-656 | returns name and live inode of the current entry of the snapshot and moves on, or returns none and stays |
| `DirIterator.ListedIsComplete` | src/vn_file.cpp:623-648 | whatever runs after the snapshot, the iterator's assertions hold and no inode is lost, for names and for lookalikes |
| `DirIterator.SmallRunListsAll` | src/vn_file.cpp:599-656 | after every run whose seed is at most 24368 the store is consistent and no directory has lookalikes |
| `DirIterator.ListDirectory` | src/vn_file.cpp:599-656 | iterating a snapshot of a consistent store, with every record read in any later state, returns one entry per key with the prefix; that is every child of the directory once, with the record of its number, and nothing else, if and only if no stored inode number looks like the prefix |
| `Bytes.ExtentIsQuotient` | src/vn_file.cpp:255-278 | the extent index and in-extent offset used throughout are the quotient and the remainder |
| `Bytes.LeRoundTrip` | src/vn_file.cpp:106 | little-endian encoding in k bytes keeps the number modulo 256^k |
| `Bytes.LeByteAt` | src/vn_file.cpp:106 | its i-th byte is the i-th lowest byte of the number |

## Left out

- Extent heads: `flags` and head sizes; only the merge offset, which is also `data_bmp`, is modelled.
- Data calls that interleave with each other inside a call, and lock waits between them; their failures appear as outcomes.
- DataPath.ViveFsContext.Read: requires a buffer for all the bytes the source moves, which past the end of the file can be more than len.
- DataPath.ViveFsContext.Readv: requires room for all the bytes the source moves.
- DataPath.ViveFsContext.Writev: requires what the source asserts, that no segment is empty.
- DirIterator.InodeIterator.NextInode: requires that the source's two assertions hold and that the entry is not the superblock, whose text is not part of this model.
- The abort of the process when an assertion fails; joins are modelled as if the assertion on `data_bmp` held.
- I/O errors of plain `Get` calls, which the readers treat as an absent extent; failed allocations.
- Inode reference counts, `ViveFile` names, ctime, uid, gid and mode; `vn_persist_inode`.
- Hard links: no operation makes them; unlink's other branch is modelled but no run reaches it.
- `vn_rename_file` and `update_file_size`, which are stubs.
- Write-ahead log flushing and sync options: a commit is durable.
- The PureFlash file adapter, store tuning, configuration, the test helper and deployment files.
