/** `cfs_state_t` and the operations on registered files (cfs/src/cfs.c). */
module Cfs {
  import opened Bytes
  import opened Os
  import opened Io
  import opened PairList
  import opened PairFile
  import opened Naming
  import opened Storage
  import opened Contents
  import opened Disk
  import opened Table

  /** A record and the header of its file say the same. */
  predicate Synced(file: CfsFile, fs: Fs) {
    && file.path in fs.metas
    && file.size == fs.metas[file.path].size
    && file.totalBlocks == |fs.metas[file.path].pairs|
  }

  /** Every registered descriptor is open on the file its record names. */
  predicate HandlesOk(records: Records, open: map<int, Desc>, fs: Fs) {
    forall fd :: fd in records ==>
      && fd in open
      && records[fd].fd == fd
      && records[fd].path == open[fd].path
      && records[fd].path in fs.metas
  }

  lemma HandlesKept(records: Records, open: map<int, Desc>, open': map<int, Desc>, fs: Fs, fs': Fs, fd: int)
    requires HandlesOk(records, open, fs) && fs.metas.Keys <= fs'.metas.Keys
    requires fd in open && open' - {fd} == open - {fd} && open'.Keys == open.Keys && open'[fd].path == open[fd].path
    ensures HandlesOk(records, open', fs')
  {
    forall g | g in records
      ensures g in open' && open'[g].path == open[g].path
    {
      if g != fd {
        assert g in open - {fd} && (open' - {fd})[g] == (open - {fd})[g];
      }
    }
  }

  lemma HandleOf(records: Records, open: map<int, Desc>, fs: Fs, fd: int)
    requires HandlesOk(records, open, fs) && fd in records
    ensures fd in open && records[fd].fd == fd && records[fd].path == open[fd].path && records[fd].path in fs.metas
  {
  }

  lemma HandlesInsert(records: Records, open: map<int, Desc>, fs: Fs, r: CfsFile)
    requires HandlesOk(records, open, fs)
    requires r.fd in open && open[r.fd].path == r.path && r.path in fs.metas
    ensures HandlesOk(records[r.fd := r], open, fs)
  {
  }

  /** Registering a block once its payload is stored: the part of
      `cfs_file_register_block` that deals with the pair-list file. */
  method RecordBlock(k: Kernel, st: BlkStore, file: CfsFile, index: int, digest: Digest, len: nat,
                     ghost fs: Fs, ghost h: Hash) returns (size: int, totalBlocks: int)
    requires Sized(st) && k.Steady() && OnDisk(k.files, fs, st) && Inv(fs, h)
    requires k.Usable(file.fd) && k.open[file.fd].path == file.path && Synced(file, fs)
    requires 0 <= index < PAGE_LIMIT && Name(digest) in fs.blocks
    modifies k
    ensures k.Steady() && (old(k.Whole()) ==> k.Whole())
    ensures var m' := Registered(fs.metas[file.path], fs.blocks, index, digest, len);
            && k.files == old(k.files)[file.path := Encode(m')]
            && size == m'.size && totalBlocks == |m'.pairs|
    ensures k.open - {file.fd} == old(k.open) - {file.fd} && k.open.Keys == old(k.open).Keys
    ensures k.open[file.fd].path == file.path
  {
    hide Encode, NoFailure, OnlyInterrupts, OnDisk, Inv, Fits, MetaOk, WriteAt, Find, Rewritten, Moved,
         BlockPath, Combined, Name;
    ghost var m := fs.metas[file.path];
    FileFits(k.files, fs, st, h, file.path);
    var hash, oldSize := digest, 0;
    totalBlocks := file.totalBlocks;
    var ret := FindIndex(k, file.fd, file.totalBlocks, index, m);
    ghost var i := Find(m.pairs, index);
    ghost var before := k.files[file.path];
    if ret != 0 {
      hash := ReadHash(k, file.fd, m, i);
      oldSize := BlockGetSize(k, st, hash);
      WriteHashBack(k, file.fd, hash, m, i);
      HashSize(k.files, fs, st, h, hash);
    } else {
      AppendPair(k, file.fd, index, hash);
      totalBlocks := totalBlocks + 1;
    }
    size := Wrap(file.size - oldSize + len);
    WriteHeader(k, file.fd, size, totalBlocks);
    RecordedBytes(m, index, digest, size, ret != 0);
  }

  lemma FileFits(files: Files, fs: Fs, st: BlkStore, h: Hash, path: string)
    requires OnDisk(files, fs, st) && Inv(fs, h) && path in fs.metas
    ensures path in files && files[path] == Encode(fs.metas[path]) && Fits(fs.metas[path])
  {
    hide Encode, Fits, BlocksOnDisk;
    MetaFits(fs.metas[path], fs.blocks);
  }

  lemma HashSize(files: Files, fs: Fs, st: BlkStore, h: Hash, d: Digest)
    requires OnDisk(files, fs, st) && Inv(fs, h)
    ensures FileSize(files, BlockPath(st, Name(d))) == BlockFileSize(fs.blocks, d)
  {
    hide BlockPath, Name, MetasOnDisk, MetaOk;
    BlockOnDisk(files, fs.blocks, st, h, d);
  }

  /** The bytes of the pair-list file after the hash was written back or a pair
      appended, and the header was written. */
  lemma RecordedBytes(m: Meta, index: int, d: Digest, size: int, found: bool)
    ensures found ==> Rewritten(Encode(m), size, |m.pairs|) == Encode(Meta(size, m.pairs))
    ensures !found ==> var e := Encode(m);
            Rewritten(WriteAt(WriteAt(e, |e|, OffBytes(index)), |e| + 8, d), size, |m.pairs| + 1)
            == Encode(Meta(size, m.pairs + [Pair(index, d)]))
  {
    hide WriteAt, Rewritten, OffBytes, PairsBytes, Header;
    if found {
      RewrittenHeader(m.size, |m.pairs|, size, |m.pairs|, PairsBytes(m.pairs));
    } else {
      EncodeAppend(m, Pair(index, d), size);
    }
  }

  class CfsState {
    const kernel: Kernel
    const hash: Hash
    const storage: BlkStore
    const table: FdTable
    /** What the disk represents. */
    ghost var fs: Fs

    ghost predicate Valid()
      reads this, kernel, table, table.fds, table.files
    {
      && kernel.Steady()
      && Sized(storage)
      && table.Valid()
      && OnDisk(kernel.files, fs, storage)
      && Inv(fs, hash)
      && HandlesOk(table.records, kernel.open, fs)
    }

    /** `cfs_init` on a root directory whose files represent `disk`. */
    constructor (k: Kernel, h: Hash, root: string, ghost disk: Fs)
      requires NulFree(root) && k.Steady() && OnDisk(k.files, disk, StoreAt(root)) && Inv(disk, h)
      ensures Valid() && fs == disk && kernel == k && hash == h && storage == StoreAt(root)
      ensures table.records == map[] && fresh(table) && fresh(table.fds) && fresh(table.files)
    {
      var st := InitStorage(root);
      var t := new FdTable();
      kernel, hash, storage, table, fs := k, h, st, t, disk;
    }

    /** `cfs_create_file`. */
    method CreateFile(path: string) returns (fd: int)
      requires Valid() && Apart(path, storage)
      modifies this`fs, kernel
      ensures Valid() && table.records == old(table.records)
      ensures old(kernel.Whole()) ==> kernel.Whole()
      ensures path in old(kernel.files) ==>
                fd == -EEXIST && fs == old(fs) && kernel.files == old(kernel.files) && kernel.open == old(kernel.open)
      ensures path !in old(kernel.files) ==>
                && fd >= 0 && fd !in old(kernel.open)
                && kernel.open - {fd} == old(kernel.open)
                && kernel.open.Keys == old(kernel.open).Keys + {fd}
                && kernel.open[fd].path == path
                && path !in old(fs).metas
                && kernel.files == old(kernel.files)[path := Encode(Meta(0, []))]
                && fs == old(fs).(metas := old(fs).metas[path := Meta(0, [])])
    {
      hide OnDisk, Inv, Encode, NoFailure, OnlyInterrupts, FdTable.Valid;
      fd := kernel.OpenExclusive(path);
      if fd < 0 {
        fd := -EEXIST;  // log_syscall
      } else {
        WriteEmpty(kernel, fd);
        assert kernel.files == old(kernel.files)[path := Encode(Meta(0, []))];
        CreatedOnDisk(old(kernel.files), fs, storage, hash, path);
        ghost var was := fs;
        fs := fs.(metas := fs.metas[path := Meta(0, [])]);
        HandlesGrow(table.records, old(kernel.open), kernel.open, was, fs, fd);
      }
    }

    /** `cfs_register_file` on a descriptor just opened on a CFS file. */
    method RegisterFile(path: string, fd: int) returns (ret: int)
      requires Valid() && fd >= 0 && fd !in table.records
      requires kernel.Usable(fd) && kernel.open[fd].path == path && path in fs.metas
      modifies kernel, table, table.fds, table.files
      ensures Valid() && kernel.files == old(kernel.files) && kernel.writeReplies == old(kernel.writeReplies)
      ensures kernel.open.Keys == old(kernel.open).Keys
      ensures ret == fd
      ensures fd in table.records && table.records == old(table.records)[fd := table.records[fd]]
      ensures table.records[fd].path == path && table.records[fd].fd == fd && Synced(table.records[fd], fs)
      ensures table.fds == old(table.fds) || fresh(table.fds)
      ensures table.files == old(table.files) || fresh(table.files)
    {
      hide OnDisk, Inv, Off, NoFailure, OnlyInterrupts, FdTable.Valid, HandlesOk;
      FileHeader(kernel.files, fs, storage, hash, path);
      var i := table.Insert(path, fd);
      var failed, size, totalBlocks := ReadHeader(kernel, fd, table.files[i].size, table.files[i].totalBlocks);
      table.Update(i, table.files[i].(size := size, totalBlocks := totalBlocks));
      HandlesKept(old(table.records), old(kernel.open), kernel.open, fs, fs, fd);
      assert table.records == old(table.records)[fd := table.files[i]];
      HandlesInsert(old(table.records), kernel.open, fs, table.files[i]);
      if failed {
        return -1;
      }
      return fd;
    }

    /** `cfs_release_file`; releasing -1 takes a free slot for its own and
        spoils the count of slots. */
    method ReleaseFile(fd: int) returns (ret: int)
      requires Valid()
      modifies table, table.fds
      ensures (Valid() <==> fd != -1) && (table.Valid() <==> fd != -1)
      ensures ret == if fd in old(table.records) || fd == -1 then 0 else -1
      ensures table.records == old(table.records) - {fd}
      ensures table.fds == old(table.fds) && table.files == old(table.files)
    {
      hide OnDisk, Inv, FdTable.Valid;
      ret := table.Release(fd);
    }

    /** The next store of `data` makes a new block and its counter is cut up. */
    ghost predicate Poisons(data: seq<byte>)
      reads this, kernel
    {
      && BlockPath(storage, Name(hash(data))) !in kernel.files
      && !FirstChunkWhole(kernel.writeReplies, REF_SIZE)
    }

    /** The `store_block` of `cfs_file_register_block`.  A store that is reported
        as failed has nevertheless stored the block, unless its counter was cut
        up: then the disk no longer represents a file system. */
    method StorePayload(data: seq<byte>, digest: Digest) returns (ret: int)
      requires Valid() && digest == hash(data) && 1 <= |data| <= BLOCK_SIZE
      modifies this`fs, kernel
      ensures StoreOutcome(kernel.files, ret, kernel.writeReplies)
              == StoreRun(old(kernel.files), BlockPath(storage, Name(digest)), data, old(kernel.writeReplies))
      ensures kernel.open == old(kernel.open)
      ensures Valid() <==> !old(Poisons(data))
      ensures old(Poisons(data)) ==> fs == old(fs) && ret == -1
      ensures !old(Poisons(data)) ==>
                && fs == Fs(WithBlock(old(fs).blocks, hash, data), old(fs).metas)
                && Name(digest) in fs.blocks
                && kernel.files.Keys == old(kernel.files).Keys + {BlockPath(storage, Name(digest))}
      ensures old(kernel.Whole()) ==> kernel.Whole() && ret >= 0
    {
      hide OnDisk, Inv, NoFailure, OnlyInterrupts, FdTable.Valid, StoreRun, BlockBytes, BlockPath, Name,
           HandlesOk, FirstChunkWhole;
      StoreRunSteady(kernel.files, BlockPath(storage, Name(digest)), data, kernel.writeReplies);
      if kernel.Whole() {
        StoreRunCalm(kernel.files, BlockPath(storage, Name(digest)), data, kernel.writeReplies);
      }
      StoredDisk(kernel.files, fs, storage, hash, data);
      PoisonedDisk(kernel.files, fs, storage, hash, data);
      HandlesStay(table.records, kernel.open, fs, WithBlock(fs.blocks, hash, data));
      if !Poisons(data) {
        fs := Fs(WithBlock(fs.blocks, hash, data), fs.metas);
      }
      ret := StoreBlock(kernel, storage, data, digest);
    }

    /** `cfs_file_register_block` of `size` payload bytes: 0 if and only if the
        store reports no failure, and otherwise nothing is registered. */
    method RegisterBlock(slot: nat, index: int, data: seq<byte>) returns (ret: int)
      requires Valid() && slot < table.fds.Length && table.fds[slot] != -1
      requires Synced(table.files[slot], fs)
      requires 0 <= index < PAGE_LIMIT && 1 <= |data| <= BLOCK_SIZE
      modifies this`fs, kernel, table`records, table.files
      ensures ret == if StoreRun(old(kernel.files), BlockPath(storage, Name(hash(data))), data,
                                 old(kernel.writeReplies)).ret < 0 then -1 else 0
      ensures old(kernel.Whole()) ==> kernel.Whole() && ret == 0
      ensures ret == 0 ==>
                && Valid()
                && fs == Register(old(fs), hash, old(table.files[slot]).path, index, data)
                && Synced(table.files[slot], fs)
                && table.records == old(table.records)[table.fds[slot] := table.files[slot]]
                && kernel.open.Keys == old(kernel.open).Keys
                && SameNames(old(kernel.files), kernel.files, storage)
      ensures ret == -1 ==>
                && (Valid() <==> !old(Poisons(data)))
                && fs == (if old(Poisons(data)) then old(fs)
                          else Fs(WithBlock(old(fs).blocks, hash, data), old(fs).metas))
                && kernel.files
                   == StoreRun(old(kernel.files), BlockPath(storage, Name(hash(data))), data,
                               old(kernel.writeReplies)).files
                && table.records == old(table.records) && table.files[slot] == old(table.files[slot])
                && kernel.open == old(kernel.open)
      ensures table.files[slot].path == old(table.files[slot]).path && table.files[slot].fd == old(table.files[slot]).fd
    {
      hide OnDisk, Inv, Registered, Encode, NoFailure, OnlyInterrupts, FdTable.Valid, StoreRun, BlockBytes,
           BlockPath, Name, HandlesOk, SameNames, FirstChunkWhole, WithBlock;
      SlotRecord(table, slot);
      HandleOf(table.records, kernel.open, fs, table.fds[slot]);
      var file := table.files[slot];
      var digest := hash(data);
      StoreResult(kernel.files, BlockPath(storage, Name(digest)), data, kernel.writeReplies);
      ret := StorePayload(data, digest);
      if ret < 0 {
        return ret;
      }
      ghost var stored, names := fs, kernel.files;
      FileFits(kernel.files, fs, storage, hash, file.path);
      var size, totalBlocks := RecordBlock(kernel, storage, file, index, digest, |data|, fs, hash);
      table.Update(slot, file.(size := size, totalBlocks := totalBlocks));
      RegisteredDisk(names, old(fs), storage, hash, file.path, index, data);
      fs := Register(old(fs), hash, file.path, index, data);
      HandlesKept(old(table.records), old(kernel.open), kernel.open, stored, fs, file.fd);
      HandlesInsert(old(table.records), kernel.open, fs, table.files[slot]);
      NamesAfterStore(old(kernel.files), kernel.files, old(fs), storage, digest, file.path);
      return 0;
    }

    /** `cfs_file_read_block`: `data` is what it puts in the payload buffer.  The
        record need not be in step with its file: all that matters is whether it
        says that there are no blocks. */
    method ReadBlock(slot: nat, index: int) returns (ret: int, data: seq<byte>)
      requires Valid() && slot < table.fds.Length && table.fds[slot] != -1
      modifies kernel
      ensures Valid() && kernel.files == old(kernel.files) && kernel.writeReplies == old(kernel.writeReplies)
      ensures kernel.open.Keys == old(kernel.open).Keys
      ensures var file := table.files[slot];
              if file.totalBlocks != 0 && index in PagesOf(fs, file.path) then
                ret == 1 && data == PagesOf(fs, file.path)[index]
              else ret == 0 && data == []
    {
      hide OnDisk, Inv, Encode, NoFailure, OnlyInterrupts, FdTable.Valid, PagesOf, Find, Fits, Loaded,
           Moved, BlockPath, Name, HandlesOk;
      SlotRecord(table, slot);
      HandleOf(table.records, kernel.open, fs, table.fds[slot]);
      var file := table.files[slot];
      FileFits(kernel.files, fs, storage, hash, file.path);
      ghost var m := fs.metas[file.path];
      var _ := kernel.Seek(file.fd, BLOCK_START, FromStart);
      var found := FindIndex(kernel, file.fd, file.totalBlocks, index, m);
      HandlesKept(table.records, old(kernel.open), kernel.open, fs, fs, file.fd);
      PageFound(kernel.files, fs, storage, hash, file.path, index);
      if found == 0 {
        return 0, [];
      }
      var digest := ReadHash(kernel, file.fd, m, Find(m.pairs, index));
      HandlesKept(table.records, old(kernel.open), kernel.open, fs, fs, file.fd);
      var refs;
      ret, data, refs := LoadBlock(kernel, storage, digest);
      if ret != 0 {
        return ret, data;
      }
      return 1, data;
    }
  }

  lemma SlotRecord(t: FdTable, slot: nat)
    requires t.Valid() && slot < t.fds.Length && t.fds[slot] != -1
    ensures slot < t.files.Length && t.fds[slot] in t.records && t.records[t.fds[slot]] == t.files[slot]
  {
    assert t.fds[..][slot] == t.fds[slot];
    assert t.files[..][slot] == t.files[slot];
  }

  /** A page is found by scan and load exactly when it is one of the pages of the file. */
  lemma PageFound(files: Files, fs: Fs, st: BlkStore, h: Hash, path: string, index: int)
    requires OnDisk(files, fs, st) && Inv(fs, h) && path in fs.metas
    ensures var ps := fs.metas[path].pairs;
            var k := Find(ps, index);
            && (index in PagesOf(fs, path) <==> k < |ps|)
            && (k < |ps| ==> Loaded(files, BlockPath(st, Name(ps[k].digest))) == Payload(PagesOf(fs, path)[index]))
  {
    hide BlockPath, Name, Loaded, Find, MetasOnDisk;
    var m := fs.metas[path];
    PagesKeys(m, fs.blocks, index);
    if Find(m.pairs, index) < |m.pairs| {
      BlockOnDisk(files, fs.blocks, st, h, m.pairs[Find(m.pairs, index)].digest);
    }
  }

  lemma FileHeader(files: Files, fs: Fs, st: BlkStore, h: Hash, path: string)
    requires OnDisk(files, fs, st) && Inv(fs, h) && path in fs.metas
    ensures path in files && |files[path]| >= BLOCK_START
    ensures Off(files[path][7..15]) == fs.metas[path].size && Off(files[path][15..23]) == |fs.metas[path].pairs|
  {
    hide Fits, BlocksOnDisk, Off, OffBytes;
    FileFits(files, fs, st, h, path);
    HeaderFields(fs.metas[path]);
  }

  lemma StoredDisk(files: Files, fs: Fs, st: BlkStore, h: Hash, data: seq<byte>)
    requires OnDisk(files, fs, st) && Inv(fs, h) && 1 <= |data| <= BLOCK_SIZE
    ensures var path := BlockPath(st, Name(h(data)));
            var files' := if path in files then files else files[path := BlockBytes(1, data)];
            var fs' := Fs(WithBlock(fs.blocks, h, data), fs.metas);
            OnDisk(files', fs', st) && Inv(fs', h) && Name(h(data)) in fs'.blocks
  {
    hide OnDisk, BlockPath, Name, BlockBytes, MetaOk;
    StoreOnDisk(files, fs, st, h, data);
    forall p | p in fs.metas
      ensures MetaOk(fs.metas[p], WithBlock(fs.blocks, h, data))
    {
      PagesStable(fs.metas[p], fs.blocks, h, data);
    }
  }

  /** A block without payload under a name the store does not know. */
  lemma PoisonedDisk(files: Files, fs: Fs, st: BlkStore, h: Hash, data: seq<byte>)
    requires OnDisk(files, fs, st)
    ensures BlockPath(st, Name(h(data))) !in files ==>
              !OnDisk(files[BlockPath(st, Name(h(data))) := BlockBytes(1, [])], fs, st)
  {
    hide BlockPath, Name, BlockBytes, MetasOnDisk, Apart;
  }

  lemma StoreResult(files: Files, path: string, data: seq<byte>, rs: seq<Reply>)
    ensures StoreRun(files, path, data, rs).ret >= -1
  {
    hide WriteRun;
  }

  lemma HandlesStay(records: Records, open: map<int, Desc>, fs: Fs, blocks: Blocks)
    requires HandlesOk(records, open, fs)
    ensures HandlesOk(records, open, Fs(blocks, fs.metas))
  {
  }

  /** The disk after the block is stored and its pair is registered. */
  lemma RegisteredDisk(files: Files, fs: Fs, st: BlkStore, h: Hash, path: string, index: int, data: seq<byte>)
    requires OnDisk(files, Fs(WithBlock(fs.blocks, h, data), fs.metas), st)
    requires Inv(fs, h) && path in fs.metas && 0 <= index < PAGE_LIMIT && 1 <= |data| <= BLOCK_SIZE
    ensures var fs' := Register(fs, h, path, index, data);
            OnDisk(files[path := Encode(fs'.metas[path])], fs', st) && Inv(fs', h)
  {
    hide BlockPath, Name, BlockBytes, Encode, Registered, BlocksOnDisk, MetasOnDisk, MetaOk;
    var fs' := Register(fs, h, path, index, data);
    RegisterPages(fs, h, path, index, data);
    BlocksOkKnown(fs'.blocks, h);
    MetaToDisk(files, Fs(fs'.blocks, fs.metas), st, path, fs'.metas[path]);
  }

  lemma NamesAfterStore(files: Files, files': Files, fs: Fs, st: BlkStore, d: Digest, path: string)
    requires OnDisk(files, fs, st) && path in fs.metas
    requires files'.Keys == files.Keys + {BlockPath(st, Name(d)), path}
    ensures SameNames(files, files', st)
  {
    hide BlockPath, Name, Encode, BlocksOnDisk;
  }

  lemma InvKnown(fs: Fs, h: Hash)
    requires Inv(fs, h)
    ensures BlocksKnown(fs.blocks)
  {
    BlocksOkKnown(fs.blocks, h);
  }

  lemma CreatedOnDisk(files: Files, fs: Fs, st: BlkStore, h: Hash, path: string)
    requires OnDisk(files, fs, st) && Inv(fs, h) && path !in files && Apart(path, st)
    ensures path !in fs.metas
    ensures var fs' := fs.(metas := fs.metas[path := Meta(0, [])]);
            OnDisk(files[path := Encode(Meta(0, []))], fs', st) && Inv(fs', h)
  {
    hide Encode, BlocksOnDisk;
    InvKnown(fs, h);
    MetaToDisk(files, fs, st, path, Meta(0, []));
  }

  lemma HandlesGrow(records: Records, open: map<int, Desc>, open': map<int, Desc>, fs: Fs, fs': Fs, fd: int)
    requires HandlesOk(records, open, fs) && fs.metas.Keys <= fs'.metas.Keys
    requires fd !in open && open' - {fd} == open
    ensures HandlesOk(records, open', fs')
  {
    forall g | g in records
      ensures g in open' && open'[g].path == open[g].path
    {
      assert g in open' - {fd} && (open' - {fd})[g] == open[g];
    }
  }
}
