/** A whole session through the callbacks: every run of creations and writes is
    carried out by the methods, and read back by them. */
module Session {
  import opened Bytes
  import opened PairList
  import opened Naming
  import opened Storage
  import opened Contents
  import opened Disk
  import opened Table
  import opened Cfs
  import opened Bbfs
  import opened Runs

  /** The file system knows the file at `path`, if there is one. */
  ghost predicate Known(s: CfsState, path: string)
    reads s, s.kernel
  {
    path in s.kernel.files ==> path in s.fs.metas
  }

  /** One operation as the kernel would ask for it: `bb_mknod`, or `bb_open`,
      `bb_write` and `bb_release`. */
  method Perform(s: CfsState, op: Op)
    requires s.Valid() && s.kernel.Whole() && Legal(op) && Apart(op.path, s.storage) && Known(s, op.path)
    modifies s`fs, s.kernel, s.table, s.table.fds, s.table.files
    ensures s.Valid() && s.kernel.Whole() && s.fs == Step(old(s.fs), s.hash, op)
    ensures Known(s, op.path)
    ensures forall p :: Apart(p, s.storage) && p != op.path ==> (p in s.kernel.files <==> p in old(s.kernel.files))
    ensures s.table.records == old(s.table.records)
    ensures s.table.fds == old(s.table.fds) || fresh(s.table.fds)
    ensures s.table.files == old(s.table.files) || fresh(s.table.files)
  {
    hide Inv, OnDisk, FdTable.Valid, HandlesOk, Encode, WriteFile, Apart;
    FilesThere(s.kernel.files, s.fs, s.storage);
    match op {
      case Create(path) =>
        var _ := BbMknod(s, path);
      case Write(path, offset, data) =>
        var _, fh := BbOpen(s, path);
        if fh >= 0 {
          var _ := BbWrite(s, data, offset, fh);
          var _ := BbRelease(s, fh);
          assert s.table.records == old(s.table.records);
          StillThere(old(s.fs), s.hash, path, offset, data);
        }
    }
  }

  lemma FilesThere(files: Files, fs: Fs, st: BlkStore)
    requires OnDisk(files, fs, st)
    ensures forall p :: p in fs.metas ==> p in files
  {
  }

  lemma StillThere(fs: Fs, h: Hash, path: string, offset: nat, data: seq<byte>)
    requires path in fs.metas
    ensures WriteFile(fs, h, path, offset, data).metas.Keys == fs.metas.Keys
  {
    hide Plan, PagesOf, RegisterAll;
    RegisterAllKeys(fs, h, path, Plan(PagesOf(fs, path), offset, offset + |data|, data));
  }

  /** A run on an empty file system leaves the state that `Run` describes. */
  method PerformAll(s: CfsState, ops: seq<Op>)
    requires s.Valid() && s.kernel.Whole() && s.fs == EMPTY
    requires forall i :: 0 <= i < |ops| ==>
               Legal(ops[i]) && Apart(ops[i].path, s.storage) && ops[i].path !in s.kernel.files
    modifies s`fs, s.kernel, s.table, s.table.fds, s.table.files
    ensures s.Valid() && s.kernel.Whole() && s.fs == Run(s.hash, ops)
    ensures forall i :: 0 <= i < |ops| ==> Known(s, ops[i].path)
    ensures s.table.records == old(s.table.records)
    ensures s.table.fds == old(s.table.fds) || fresh(s.table.fds)
    ensures s.table.files == old(s.table.files) || fresh(s.table.files)
  {
    hide Inv, OnDisk, FdTable.Valid, HandlesOk, Step, Apart, Legal;
    for n := 0 to |ops|
      invariant s.Valid() && s.kernel.Whole() && s.fs == Run(s.hash, ops[..n])
      invariant forall i :: 0 <= i < |ops| ==> Known(s, ops[i].path)
      invariant s.table.records == old(s.table.records)
      invariant s.table.fds == old(s.table.fds) || fresh(s.table.fds)
      invariant s.table.files == old(s.table.files) || fresh(s.table.files)
    {
      ghost var before := s.fs;
      Perform(s, ops[n]);
      assert ops[..n + 1][..n] == ops[..n] && ops[..n + 1][n] == ops[n];
      StepKeepsFiles(before, s.hash, ops[n]);
    }
    assert ops[..|ops|] == ops;
  }

  lemma StepKeepsFiles(fs: Fs, h: Hash, op: Op)
    ensures fs.metas.Keys <= Step(fs, h, op).metas.Keys
  {
    hide WriteFile;
    if op.Write? && op.path in fs.metas {
      StillThere(fs, h, op.path, op.offset, op.data);
    }
  }

  /** The law that the file system is for: after any run of well-shaped writes to
      new pages, opening a file and reading it at a page boundary into a zeroed
      buffer gives the bytes that were written, and zeros where none were. */
  method RunThenRead(s: CfsState, ops: seq<Op>, path: string, buf: array<byte>, size: nat, offset: nat,
                     ghost u: set<seq<byte>>) returns (ret: int)
    requires s.Valid() && s.kernel.Whole() && s.fs == EMPTY
    requires forall i :: 0 <= i < |ops| ==>
               Legal(ops[i]) && Apart(ops[i].path, s.storage) && ops[i].path !in s.kernel.files
    requires FreshRun(ops) && CollisionFree(s.hash, u) && RunPayloads(ops) <= u
    requires (exists i :: 0 <= i < |ops| && ops[i].path == path) && path in AbsRun(ops)
    requires offset % BLOCK_SIZE == 0 && offset + size <= OFFSET_LIMIT
    requires Roomy(AbsRun(ops)[path], offset, size, buf.Length)
    requires forall i :: 0 <= i < buf.Length ==> buf[i] == 0
    modifies s`fs, s.kernel, s.table, s.table.fds, s.table.files, buf
    ensures s.Valid() && s.table.records == old(s.table.records)
    ensures ret == ReadLength(offset, size)
    ensures forall i :: 0 <= i < buf.Length && i < ret ==> buf[i] == Written(ops, path, offset + i)
    ensures forall i :: ret <= i < buf.Length ==> buf[i] == 0
  {
    hide Inv, OnDisk, FdTable.Valid, HandlesOk, Apart, Legal, Run, AbsRun, FreshRun,
         RunPayloads, CollisionFree, Written, ReadByte, PagesOf, ReadLength, Roomy;
    PerformAll(s, ops);
    FileExistsAfter(s.hash, ops, u, path);
    FilesThere(s.kernel.files, s.fs, s.storage);
    var _, fh := BbOpen(s, path);
    StaleHandle(s.table.records[fh], s.fs, s.hash);
    NoPages(s.fs, path);
    ret := BbRead(s, buf, size, offset, fh);
    forall i | 0 <= i < buf.Length && i < ret
      ensures buf[i] == Written(ops, path, offset + i)
    {
      RunReadsWhatWasWritten(s.hash, ops, u, path, offset, size, i);
    }
    var _ := BbRelease(s, fh);
  }

  lemma FileExistsAfter(h: Hash, ops: seq<Op>, u: set<seq<byte>>, path: string)
    requires CollisionFree(h, u) && RunPayloads(ops) <= u && path in AbsRun(ops)
    requires forall i :: 0 <= i < |ops| ==> Legal(ops[i])
    ensures path in Run(h, ops).metas && PagesOf(Run(h, ops), path) == AbsRun(ops)[path]
  {
    hide InvIn, Run, AbsRun, RunPayloads, PagesOf;
    RunRefines(h, ops, u);
    assert View(Run(h, ops))[path] == PagesOf(Run(h, ops), path);
  }
}
