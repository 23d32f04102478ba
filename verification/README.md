# CFS, modelled and proved in Dafny

This project models the core of a deduplicating FUSE file system.  A file is cut
into pages of 4096 bytes; a page is stored once, as a block file named by the
hexadecimal form of its SHA-1 digest; every file keeps, on the underlying disk,
a list of (page index, digest) pairs behind a small header.  The simple
specification is one sparse byte array per file.  Between the two lie shared
blocks, linear scans with a seek cursor, retry loops around `read` and `write`,
a growable descriptor table, and a lock that is held for one block at a time.

`dafny verify dfyconfig.toml` checks the whole project.

## Layers

| file | what it models |
|---|---|
| `Bytes.dfy` | bytes, 64-bit little-endian integers, `off_t` wrap-around |
| `Os.dfy` | the kernel: files by path, descriptors with a cursor, scripts of short transfers, interruptions and failures |
| `Io.dfy` | `s_read`, `s_write` |
| `Naming.dfy` | `hexify`, `combine`, `init_storage`, block paths |
| `PairList.dfy`, `PairFile.dfy` | the pair-list format and the cursor steps on it |
| `Storage.dfy` | `store_block`, `load_block`, `block_get_size`, reference counters |
| `Contents.dfy`, `Disk.dfy` | what the disk means: blocks and pair lists as values, pages of a file, the plan of a write |
| `Table.dfy`, `Cfs.dfy` | the descriptor table and the operations of `cfs_state_t` |
| `Bbfs.dfy` | the page loops `bb_read` and `bb_write`, open, release, mknod |
| `Sparse.dfy`, `Sizes.dfy` | byte arrays and the size field against pages |
| `Runs.dfy`, `Counters.dfy`, `Concurrency.dfy` | whole runs, reference counting, interleavings of critical sections |
| `Session.dfy` | whole runs carried out and read back by the methods themselves |
| `Handles.dfy` | runs in which opening, writing, reading and releasing are separate calls, through any number of handles kept open |

The classes `Kernel`, `FdTable` and `CfsState` are changed in place by methods
with the loops of the source; each method is proved against a function on values
(`Register`, `WriteFile`, `ReadByte`, `StoreRun`, `Recounted`, `ReadRun`,
`WriteRun`), and the laws are proved about those functions.  The ghost field
`CfsState.fs` is what the disk represents; `Valid` ties it to the bytes of every
block and every pair list, and `Disk.MetaOnDiskUnique` shows that the bytes leave
no choice of pair lists.

## Assumptions

* SHA-1 is a parameter of which nothing is known (`Contents.Hash`).  Where it
  matters that two payloads have different block names this is a premise about
  the finite set of payloads in question (`Contents.CollisionFree`); a name has
  19 bytes, so for all payloads at once the premise could not hold.
  `Contents.ReadsBackIffNoClash` says what exactly depends on it, and the
  invariants, the isolation of files and the scan do not need it at all.
* In `CfsState` and `Bbfs` no `read` or `write` fails outright
  (`Kernel.Steady`); interruptions, short reads and short writes are allowed
  anywhere.  The steps on a pair list do not notice short writes.  A store does:
  `Cfs.CfsState.RegisterBlock` says what is left then, and `Storage.StoreRunExact`
  and `Storage.DamageStays` say it for every script of replies, failures
  included.  `bb_write` ignores what its registrations return, so
  `Bbfs.BbWrite`, and the runs carried out with it, ask for whole writes
  (`Kernel.Whole`).
* A handle that is written through is in step with its file (`Cfs.Synced`):
  `Handles.SoleWriterInStep` shows that one writing handle per file is enough.
  Reading does not need this.
* Offsets and sizes stay where the page loops do not overflow `off_t`.

## Where the code does less than its documentation and tests promise

* Writing at any offset: `cfs/src/bbfs.c:455` advances by the end position in
  the page, not by the bytes written, and `cfs/src/cfs.c:303` reads the old
  digest over the new one, so a page that is already there keeps its contents.
  `Sparse.WriteReliableExactly` gives the exact condition under which
  `bb_write` is a positioned write for every input of a given size.
* Reading at any offset: `cfs/src/bbfs.c:377-379` subtracts the start position
  twice, so a request that starts inside a page loses bytes even in a zeroed
  buffer (`Sparse.ReadReliableExactly`).
* Reading `size` bytes: `cfs/src/bbfs.c:379` copies all of a page, and
  `cfs/src/bbfs.c:398` returns how far the loop went.  So a read can write behind
  the bytes it was asked for (`Sparse.OverrunInput`; `Sparse.OverrunExactly` says
  when), and its result is the size rounded up to a page boundary
  (`Bbfs.ReadLength`).  `Bbfs.BbRead` asks only for room for the bytes that are
  really written, so a buffer of `size` bytes is admitted wherever it is safe.
* Reading behind the end of a short page: the buffer is not cleared there, so in a
  buffer that was not zeroed old bytes stay (`Sparse.OldTailInput`;
  `Sparse.ByteReliableExactly` says for each byte when).
  `Sparse.ReadMeetsRequestExactly` puts the three together: when a read returns
  what was asked for, whatever the buffer held.
* Storing a block: whatever a failed or short store leaves behind, every later
  store takes for the block (`Storage.DamageStays`): a block without payload that
  no load accepts (`Storage.ShortCounterPoisons`), or a truncated payload that
  loads as a success (`Storage.TruncatedPayloadInput`).
* Releasing descriptor -1 succeeds on a free slot and spoils the slot count
  (`Table.FdTable.Release`); a failed `open` does not leave -1 in the handle, as
  the comment at `cfs/src/bbfs.c:311-313` says, but the negative error number.
* The size field: `block_get_size` counts the 8-byte counter, so rewriting a page
  shifts the size (`Sizes.RewriteSize`, and `Runs.RewriteInput` for an example).
  `Runs.RunSizeLaw` gives the size field after every run, and
  `Runs.RunSizeExactly` when it is right.
* A handle registered while its file was empty never sees a page
  (`Bbfs.StaleHandle`).

## Model

| member | source | states |
|---|---|---|
| Io.SRead | cfs/src/io.c:27-46 | under every script of replies, the bytes delivered, the cursor and the result; without a failure, min(count, available) bytes in order |
| Io.SWrite | cfs/src/io.c:48-67 | under every script of replies, the file, the cursor and the result, which is the length of the last chunk |
| Io.ReadIgnoresChunking | cfs/src/io.c:31-51 | without a failure the loop delivers min(count, available) bytes however the kernel cuts them up |
| Io.WriteIgnoresChunking | cfs/src/io.c:52-66 | without a failure the loop places all bytes; the result is only known to lie between 1 and the count |
| Io.WriteReportsWhole | cfs/src/io.c:66 | the result equals the count if and only if the first chunk that is not interrupted is whole |
| Io.WriteDoneExactly | cfs/src/io.c:52-66 | all bytes are placed if and only if the replies supply them before a failure |
| Io.OnlyInterruptsWhole | cfs/src/io.c:52-66 | interruptions alone never make the result differ from the count |
| Os.Kernel.Read | cfs/src/io.c:32 | one `read`: refused, or some of the available bytes and the cursor moved past them |
| Os.Kernel.Write | cfs/src/io.c:53 | one `write`: refused, or a prefix of the data at the cursor |
| Naming.Hexify | cfs/src/util.c:39-64 | writes 2*min(in, (out-1)/2) digits and a terminator, nothing for empty input, and no other character of the buffer; each byte shows as the digit of its high half and then of its low half, out of 0 to 9 and a to f |
| Naming.HexShows | cfs/src/util.c:43-56 | the same of the hexadecimal form of any bytes |
| Naming.HexInput | cfs/src/util.c:43-56 | the eight bytes 01 23 45 67 89 ab cd ef show as these sixteen characters |
| Naming.NameShows | cfs/src/storage.c:253 | a block name shows the first 19 bytes of the digest |
| Naming.UnhexOfHex | cfs/src/util.c:47-60 | decoding the digits gives the bytes back, so the encoding loses nothing |
| Naming.Combine | cfs/src/util.c:5-31 | the joined path and its terminator, inside any destination that has room for it |
| Naming.CombinedIs | cfs/src/util.c:5-31 | the path of two parts that are not empty starts with the first, ends with the second less one '/' in front, and has one '/' at the joint |
| Naming.CombinedEmpty | cfs/src/util.c:26-30 | an empty part leaves the other part |
| Naming.CombinedNulFree | cfs/src/util.c:5-31 | the path is at most one character longer than its parts, which the buffer sizes rely on |
| Naming.InitStorage | cfs/src/storage.c:377-392 | the root path, the blocks path, and a `block_fname_size` with room for every block path |
| Naming.BlockPathIs | cfs/src/storage.c:377-392 | every block is in `.BLOCKS` under the root directory, whether the root ends in '/' or not, under its name |
| Naming.BlockFile | cfs/src/storage.c:248-256 | the two local buffers are never overrun and give the path of the digest |
| Naming.NameInjective | cfs/src/storage.c:253 | two digests share a block name if and only if their first 19 bytes agree |
| Naming.BlockPathInjective | cfs/src/storage.c:256 | different block names have different paths |
| PairList.ParseOfEncode | cfs/src/cfs.c:1-12 | a pair list written to its bytes and read back is the same, sizes and indices included |
| PairList.EncodeOfParse | cfs/src/cfs.c:1-12 | well-formed bytes are the encoding of what they are read as |
| PairList.HeaderFields | cfs/src/cfs.h:13-17 | magic, size and count are at the offsets of the header macros |
| PairList.EmptyFile | cfs/src/cfs.c:207-210 | a new file is "CFS0.1" with its terminator and sixteen zero bytes |
| PairList.FileBytes | cfs/src/cfs.h:13-17 | every byte of a pair-list file: magic, size, count, page numbers and digests, numbers least significant byte first in two's complement |
| Bytes.OffBytesAt | cfs/src/cfs.c:312-322 | byte i of a written `off_t` is the number divided by 256^i, modulo 256, negative numbers included |
| PairList.PairAt | cfs/src/cfs.h:16-17 | pair i sits at 23 + 28 * i, index before digest |
| PairList.EncodeAppend | cfs/src/cfs.c:312-322 | two writes at the end and a rewritten header encode the list with the pair appended |
| PairList.WriteBack | cfs/src/cfs.c:303-308 | writing back the digest that was read changes no byte of the file |
| PairList.DistinctBounded | cfs/src/cfs.c:315 | the count of pairs with distinct pages is bounded by the page range, so it fits its field |
| PairFile.FindIndex | cfs/src/cfs.c:243-272 | terminates; 1 with the cursor right after the first matching index if and only if there is one, else 0 |
| PairFile.ReadHash | cfs/src/cfs.c:303 | the digest of the pair that the scan found |
| PairFile.WriteHashBack | cfs/src/cfs.c:307-308 | the disk is unchanged |
| PairFile.AppendPair | cfs/src/cfs.c:312-314 | exactly index and digest at the end of the file, whatever it held |
| PairFile.WriteHeader | cfs/src/cfs.c:320-322 | exactly the two header fields are written anew |
| PairFile.ReadHeader | cfs/src/cfs.c:149-152 | size and count as in the header, when the file has one |
| PairFile.WriteEmpty | cfs/src/cfs.c:207-210 | the file is the encoding of the empty list, byte for byte the magic and sixteen zeros |
| Storage.StoreBlock | cfs/src/storage.c:246-307 | disk, result and replies used, for every script of replies, present or new block; no descriptor stays open |
| Storage.StoreRunExact | cfs/src/storage.c:257-306 | for every script of replies: success is reported if and only if neither write is short; the block left behind is whole if and only if the counter is written in one piece and no failure comes before the end of the payload |
| Storage.StoreLeavesPrefix | cfs/src/storage.c:257-306 | whatever the replies, a store leaves the beginning of counter and payload as far as they were written, and touches no other file |
| Storage.NewBlock | cfs/src/storage.c:279-293 | a new block is the bytes 1 0 0 0 0 0 0 0 and the payload |
| Storage.CounterBytes | cfs/src/storage.c:93-110 | the counter in a block file is least significant byte first, the payload behind it |
| Storage.LoadedAfterStore | cfs/src/storage.c:257-372 | what a load finds after any such store: the payload as far as it was written, or an error if the counter was cut up or no payload byte written |
| Storage.DamageStays | cfs/src/storage.c:257-372 | every later store reports success and changes nothing, so the block loads as it was meant if and only if the first store left it whole |
| Storage.TruncatedPayloadInput | cfs/src/storage.c:293-306 | a failure after the first payload byte leaves a block that loads as that byte |
| Storage.ShortCounterPoisons | cfs/src/storage.c:257-306 | a short counter write leaves a block that all later stores accept and all later loads reject |
| Storage.StoreRunSteady | cfs/src/storage.c:257-306 | without failures: a new block is stored whole, or without payload when its counter is cut up |
| Storage.StoreRunCalm | cfs/src/storage.c:257-306 | without short writes: an existing block is left alone, a new one has counter 1 and the payload |
| Storage.LoadBlock | cfs/src/storage.c:309-375 | not found, no payload, or the payload and the counter; nothing is changed |
| Storage.LoadedBlock | cfs/src/storage.c:340-372 | what is loaded is the first 4096 payload bytes, and a block without payload is an error |
| Storage.BlockGetSize | cfs/src/storage.c:187-233 | the length of the block file including its counter, or -1 |
| Storage.BlockIncRef | cfs/src/storage.c:127-184 | the counter plus one modulo 2^64, payload untouched; the new number is returned, or an error when the write was cut up |
| Storage.BlockDecRef | cfs/src/storage.c:64-124 | the counter minus one, payload untouched, the file removed at zero; the new number is returned, or an error when the write was cut up |
| Storage.RecountReturns | cfs/src/storage.c:64-184 | with n references, 0 < n < 2^31 - 1, and the counter written whole, an increment returns n + 1 and a decrement n - 1; for any n the low 32 bits as a signed number; -1 when it was cut up |
| Storage.RecountFails | cfs/src/storage.c:64-184 | without a block, or with a file too short for a counter, the result is -1 and nothing changes |
| Counters.CounterIsBalance | cfs/src/storage.c:64-306 | over every run of stores, increments and decrements, any number of removals and new creations included: the block exists exactly while it has references, its counter is their number, its payload never changes, and no other file does |
| Counters.ReturnsLive | cfs/src/storage.c:64-184 | in every such run an increment or decrement returns the number of references that there are then, and -1 if there was no block |
| Counters.ApplyIsCall | cfs/src/storage.c:64-306 | the events of these runs are the calls of `store_block`, `block_inc_ref` and `block_dec_ref` |
| Counters.LiveSinceCreation | cfs/src/storage.c:64-306 | the references of a block that exists are 1 + increments - decrements since its last creation, and were never zero since |
| Counters.CreationLives | cfs/src/storage.c:64-306 | after any creation, as long as that balance stays positive, the block exists with that many references, whatever was before |
| Counters.GoneUntilStored | cfs/src/storage.c:104-108 | after a removal the files are as if there had been no block before: it returns only by a store, and its counter owes nothing to its earlier life |
| Contents.RegisterPages | cfs/src/cfs.c:287-324 | registering keeps all invariants, adds the page if and only if it is new, and changes no other page of any file, collisions or not |
| Contents.ReadsBackIffNoClash | cfs/src/cfs.c:285-290 | a new page reads back as written if and only if no other payload is stored under its name |
| Contents.RegisteredBytes | cfs/src/cfs.c:298-322 | each registration appends exactly one pair or leaves all pair bytes as they were |
| Contents.MetaFits | cfs/src/cfs.c:315 | under the invariant no header field or index overflows |
| Contents.PlanFrame | cfs/src/bbfs.c:435-459 | what a write registers depends only on the pages it touches |
| Contents.RegisterAllPut | cfs/src/bbfs.c:435-459 | through digests, store and pair list a write is a write of pages, first writer of a page wins |
| Contents.WritesAreIsolated | cfs/src/cfs.c:290-316 | writing a file changes no page of another and no page already there, and leaves no digest dangling, collisions or not |
| Contents.StoreIsAppendOnly | cfs/src/storage.c:257-306 | stored payloads never change; each is under the name of its own digest; nothing else is added |
| Contents.StoreOrderUnseen | cfs/src/storage.c:257-306 | storing the same payloads in any order and any number of times gives the same store |
| Disk.MetaOnDiskUnique | cfs/src/cfs.c:1-12 | the bytes of the disk determine the pair lists |
| Disk.StoreOnDisk | cfs/src/storage.c:257-306 | storing a block keeps the disk a representation, of the store with the block |
| Disk.BlockOnDisk | cfs/src/storage.c:319-372 | size and load of a digest's file are those of the stored block, or of none |
| Disk.MetaToDisk | cfs/src/cfs.c:311-322 | rewriting one pair-list file keeps the disk a representation, of that list changed |
| Table.FdTable.constructor | cfs/src/cfs.c:50-56 | an empty table of 20 free slots |
| Table.FdTable.Insert | cfs/src/cfs.c:126-146 | a slot is always found, the first free one; the map gains exactly this record; the table doubles exactly when it is half full, so the capacity stays 20 * 2^k and at most max(20, 4 * peak) |
| Table.FdTable.Grow | cfs/src/cfs.c:126-135 | doubling with the loop that starts one slot early loses no record |
| Table.SlotsGrow | cfs/src/cfs.c:128-134 | the last old slot is always free, because occupied slots lie in the lower half |
| Table.SlotsInsert | cfs/src/cfs.c:137-146 | first fit in a table less than half full stays in the lower half |
| Table.FilledPrefix | cfs/src/cfs.c:138-139 | the slots before the first free one are at most as many as the records |
| Table.FdTable.Release | cfs/src/cfs.c:176-192 | exactly this record goes, -1 when there is none; releasing -1 reports success and makes the slot count wrong |
| Table.FdTable.GetFile | cfs/src/cfs.c:225-236 | the slot of the record registered for the descriptor, or none; for -1 a free slot |
| Cfs.CfsState.constructor | cfs/src/cfs.c:35-58 | mounting any disk that represents a file system gives a valid state of it |
| Cfs.CfsState.CreateFile | cfs/src/cfs.c:200-219 | a new empty file, or -EEXIST and nothing changed when the path exists |
| Cfs.CfsState.RegisterFile | cfs/src/cfs.c:120-170 | the result is always the descriptor; its record is in step with the header |
| Cfs.CfsState.ReleaseFile | cfs/src/cfs.c:176-192 | the record goes and the state stays valid, unless the descriptor is -1 |
| Cfs.RecordBlock | cfs/src/cfs.c:298-322 | the pair-list file becomes the encoding of the changed list, found or not, and the new record fields agree with it |
| Cfs.CfsState.StorePayload | cfs/src/cfs.c:287-295 | storing through a state: the disk goes on representing a file system, with the block, if and only if its counter was not cut up |
| Cfs.CfsState.RegisterBlock | cfs/src/cfs.c:279-327 | the disk and the record after storing, scanning, writing back or appending, and rewriting the header; when the store reports a failure, -1, nothing registered, and what the store left |
| Cfs.CfsState.ReadBlock | cfs/src/cfs.c:334-365 | 1 and the page if and only if the file has it and the record has blocks, else 0; the error results never occur |
| Cfs.PageFound | cfs/src/cfs.c:347-360 | scan and load find exactly the pages of the file; no digest they meet is dangling |
| Bbfs.FillBlock | cfs/src/bbfs.c:436-446 | the block buffer holds the old page's head, or zeros, and then the new bytes |
| Bbfs.WriteStep | cfs/src/bbfs.c:435-458 | one turn does the first chunk of the plan and the rest of the plan is the plan of the rest |
| Bbfs.BbWrite | cfs/src/bbfs.c:412-462 | for every offset and size: returns the size, the disk is that of the plan carried out, the handle stays in step; -1 and no change without a handle |
| Bbfs.BbRead | cfs/src/bbfs.c:344-400 | for every offset, size and buffer with room for what is written: the result, and the byte left at every index |
| Bbfs.ReadLength | cfs/src/bbfs.c:391-398 | the least number from size on that ends at a page boundary, 0 for size 0 |
| Bbfs.ReadLeaves | cfs/src/bbfs.c:371-389 | the byte at every index, inside the request or behind it: of the page where the copied range reaches, zero where a page is absent, and otherwise what was there |
| Bbfs.ReadStep | cfs/src/bbfs.c:371-389 | what one turn copies or clears is what the description of the buffer says, index by index |
| Bbfs.PartFits | cfs/src/bbfs.c:371-389 | in a buffer that has room for the bytes of the whole read, no turn copies beyond the end |
| Bbfs.StaleHandle | cfs/src/cfs.c:251-253 | a handle sees all pages if and only if its record has blocks or the file is empty |
| Bbfs.BbMknod | cfs/src/bbfs.c:148-151 | a new file of the magic and sixteen zeros, which is the empty list, or -EEXIST and nothing changed; no descriptor left open |
| Bbfs.BbOpen | cfs/src/bbfs.c:301-326 | a fresh handle in step with its file, or -ENOENT, which is also what the handle is set to |
| Bbfs.BbRelease | cfs/src/bbfs.c:535-547 | the handle goes, -1 when there was none; the results of both calls combined, and what releasing -1 does |
| Bbfs.Reopen | cfs/src/cfs.c:120-170 | release and register again: same size, same block count, same bytes for every read |
| Sparse.AlignedPlan | cfs/src/bbfs.c:435-459 | a page-aligned write registers ceil(size/4096) blocks at consecutive pages whose payloads concatenate to the input |
| Sparse.WriteIsPositioned | cfs/src/bbfs.c:435-459 | on new pages a write that is page-aligned or inside one page changes exactly its range of the byte array |
| Sparse.UnalignedPlan | cfs/src/bbfs.c:437-455 | a write that starts inside a page and leaves it puts a hole in front of every later page |
| Sparse.LostByte | cfs/src/bbfs.c:447-455 | otherwise some byte of the range stays as it was, whatever is written |
| Sparse.WriteReliableExactly | cfs/src/bbfs.c:412-462 | a write is a positioned write for all inputs of its size if and only if it is empty, or well shaped and on new pages only |
| Sparse.AlignedRead | cfs/src/bbfs.c:366-396 | a page-aligned read into a zeroed buffer returns the byte array, zeros in holes |
| Sparse.ReadReliableExactly | cfs/src/bbfs.c:374-379 | the requested bytes of a zeroed buffer are those of the byte array for all contents of the file if and only if the request is empty or page-aligned |
| Sparse.OverrunExactly | cfs/src/bbfs.c:376-398 | a read leaves the buffer behind the requested bytes alone if and only if its last page is absent or what is copied of it ends where the request does; exactly then `size` bytes are room enough |
| Sparse.OverrunInput | cfs/src/bbfs.c:379-398 | ten bytes asked for of a full page: 4096 are written and returned |
| Sparse.ByteReliableExactly | cfs/src/bbfs.c:376-389 | a requested byte is right whatever the buffer held if and only if its page is absent or the copied range reaches it |
| Sparse.AlignedByteReliableExactly | cfs/src/bbfs.c:376-389 | for a page-aligned read: if and only if the page is absent or longer than the position |
| Sparse.OldTailInput | cfs/src/bbfs.c:379 | a page asked for of a one-byte page: the rest of the buffer keeps its old bytes |
| Sparse.ReadMeetsRequestExactly | cfs/src/bbfs.c:366-398 | a read returns its size and the bytes of the array, whatever the buffer held, if and only if it is empty, or ends at a page boundary, all its pages are absent or full, and it does not start inside one that is present |
| Sparse.ReadAfterWrite | cfs/src/bbfs.c:366-459 | a page-aligned read after such a write returns the written bytes in their range and the old ones elsewhere |
| Sizes.TotalAgainstEnd | cfs/src/cfs.c:319 | the sum of payload lengths is at most the end of the last page, equal if and only if all lower pages are present and full |
| Sizes.SizeField | cfs/src/cfs.c:304-319 | the size field after any registration, whatever it was before: plus the new length, less the old one and 8 when the page was there |
| Sizes.NewPageSize | cfs/src/cfs.c:315-319 | registering a new page keeps an exact size exact and does not overflow |
| Sizes.RewriteSize | cfs/src/cfs.c:304-319 | registering a present page changes only the size; it stays exact if and only if the new payload is 8 bytes longer |
| Sizes.WriteSizes | cfs/src/bbfs.c:435-459 | over any registrations, of new pages and old ones, the size field moves by the payload bytes added and the drift |
| Sizes.NewPagesSize | cfs/src/bbfs.c:435-459 | a whole write on new pages adds the length of its payloads to the size |
| Runs.RunRefines | cfs/src/bbfs.c:412-462 | every run of creations and writes, rewrites included, shows the pages of a machine without blocks and digests |
| Runs.RunInvariant | cfs/src/cfs.c:290-316 | after every run, collisions or not, page numbers are distinct, fields fit and no digest dangles |
| Runs.OtherFilesUnseen | cfs/src/storage.c:257-306 | a run on other files changes no page of a file, shared blocks or not |
| Runs.AbsRunWritten | cfs/src/bbfs.c:435-459 | after a run of well-shaped writes on new pages each byte is that of the last write that covers it, else zero |
| Runs.RunReadsWhatWasWritten | cfs/src/bbfs.c:366-459 | page-aligned reads after such a run return what was written, through all layers |
| Runs.FreshRegistersOnce | cfs/src/bbfs.c:435-459 | runs of well-shaped writes on new pages are among the runs that register each page of a file at most once |
| Runs.RunSizeLaw | cfs/src/cfs.c:304-322 | after every run, rewrites included, the size field of a file is its payload bytes plus the drift, as an `off_t`; the drift is the sum, over the registrations of a page that was there, of the new length less the old one less 8 |
| Runs.RunSizeExactly | cfs/src/cfs.c:304-322 | so the size field is the number of payload bytes if and only if the drift is zero modulo 2^64 |
| Runs.RewriteInput | cfs/src/cfs.c:304-319 | ten bytes, one byte over them and a hundred on the next page: 110 bytes and the size 93 |
| Runs.RunSizes | cfs/src/cfs.c:315-322 | after every run that registers each page of a file at most once, wherever its writes start and end, the size field of every file is the sum of its payload lengths |
| Runs.RunSizeAgainstEnd | cfs/src/cfs.c:315-322 | after such a run the size is at most the end of the last page, with equality if and only if there are no holes |
| Session.Perform | cfs/src/bbfs.c:148-462 | create, or open, write and release: exactly the step of the run, and no other file or handle affected |
| Session.PerformAll | cfs/src/bbfs.c:148-547 | the methods carry out every run on an empty file system as the run describes |
| Session.RunThenRead | cfs/src/bbfs.c:344-462 | after every run of well-shaped writes on new pages the methods read back, into a zeroed buffer, the bytes that were written |
| Handles.Serve | cfs/src/bbfs.c:148-547 | one call on a handle known by name: the state that it leads to and the bytes that it returns |
| Handles.ServeAll | cfs/src/bbfs.c:148-547 | the methods carry out every run of calls through any number of open handles, and every read in it returns what it should |
| Handles.HandlesUnseen | cfs/src/bbfs.c:301-547 | keeping handles open makes no difference to the files: they are those of the run of the creations and writes alone |
| Handles.SoleWriterInStep | cfs/src/cfs.c:319-322 | a handle that alone wrote to its file since it was opened is in step with it, whatever other handles are open |
| Handles.ReadThroughHandle | cfs/src/bbfs.c:344-462 | at any point of a run a page-aligned read through an open handle returns what was written so far, by any handle, unless its record still says that there are no blocks; then zeros |
| Handles.ReadYourWrites | cfs/src/bbfs.c:344-462 | through a handle that alone writes to its file, a page-aligned read returns everything written so far |
| Concurrency.StepKeeps | cfs/src/cfs.c:287-324 | every critical section keeps the invariants, and contents joined with pending pages stay the goal |
| Concurrency.AnyInterleaving | cfs/src/cfs.c:287-324 | when all writes are through every file holds the goal, under every schedule |
| Concurrency.InterleavedIsSerial | cfs/src/cfs.c:287-324 | every interleaving ends with the contents of every serial order of the calls |
| Concurrency.SerialSchedule | cfs/src/bbfs.c:435-459 | every serial order of whole calls is one of the schedules |
| Concurrency.Alone | cfs/src/bbfs.c:435-459 | a thread left alone finishes, having done its whole plan |
| Concurrency.NoTornPages | cfs/src/cfs.c:334-364 | at any moment a page is absent or already what it will be in the end |
| Concurrency.InterleavedBytes | cfs/src/bbfs.c:435-459 | every byte ends up as the one request that covers it says, others as they were |
| Concurrency.InterleavedSizes | cfs/src/cfs.c:319-322 | the final size of each file is the same under every schedule: the payload bytes of the goal |

## Left out

- Cfs.CfsState.RegisterBlock: the lock is released twice on the error path (`cfs/src/cfs.c:291-295`); locks are not part of the state.
- Bbfs.BbOpen: opening a file that exists but is not a pair list is excluded; the source registers it with whatever its bytes say.
- Bbfs.BbWrite: a handle out of step with its file is excluded, since with several writing handles the source overwrites one header with another; short writes are excluded, since it ignores the results of its registrations.
- Concurrency.StepKeeps: the set of open files and the table are fixed while threads run; record pointers held across a `realloc` are not modelled.
- Io.SRead: the caller's buffer is the returned sequence of bytes, not an array filled in place; in `bb_read` the caller's buffer is an array.
- The locks taken with `fcntl`, and `block_get_refs`, which is unfinished in the source.
- `cfs_file_stat`, and the other callbacks: system calls passed through, which would only add easy members.
- Directories, permissions, symbolic links, `EMFILE` and a full disk: the kernel here has files and descriptors only.
- `PATH_MAX` and the fixed path field of a record: paths are strings of any length.
- Logging, option parsing and `cfscat`.
- SHA-1 itself.
