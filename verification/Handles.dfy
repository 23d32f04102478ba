/** Files that stay open: creating, opening, writing, reading and releasing are
    separate calls of a run, through any number of handles. */
module Handles {
  import opened Bytes
  import opened Storage
  import opened Contents
  import opened Disk
  import opened Table
  import opened Cfs
  import opened Bbfs
  import opened Sizes
  import opened Runs
  import opened Session

  /** What the record of an open file remembers of its header. */
  datatype Handle = Handle(path: string, size: int, totalBlocks: int)

  datatype World = World(fs: Fs, handles: map<nat, Handle>)

  const START: World := World(EMPTY, map[])

  /** The calls; `n` is the name by which the caller knows a handle. */
  datatype Call =
    | Mknod(path: string)
    | Open(n: nat, path: string)
    | Pwrite(n: nat, offset: nat, data: seq<byte>)
    | Pread(n: nat, offset: nat, size: nat)
    | Release(n: nat)

  /** A handle in step with its file. */
  function HandleOn(fs: Fs, path: string): Handle {
    if path in fs.metas then Handle(path, fs.metas[path].size, |fs.metas[path].pairs|) else Handle(path, 0, 0)
  }

  /** The operation on files that a call stands for, if any. */
  function Doing(w: World, c: Call): seq<Op> {
    match c
    case Mknod(path) => [Create(path)]
    case Pwrite(n, offset, data) => if n in w.handles then [Write(w.handles[n].path, offset, data)] else []
    case _ => []
  }

  function Advance(w: World, h: Hash, c: Call): World {
    match c
    case Mknod(path) => w.(fs := Step(w.fs, h, Create(path)))
    case Open(n, path) => if path in w.fs.metas then w.(handles := w.handles[n := HandleOn(w.fs, path)]) else w
    case Pwrite(n, offset, data) =>
      if n !in w.handles then w
      else
        var path := w.handles[n].path;
        var fs := Step(w.fs, h, Write(path, offset, data));
        World(fs, w.handles[n := HandleOn(fs, path)])
    case Pread(_, _, _) => w
    case Release(n) => w.(handles := w.handles - {n})
  }

  function After(h: Hash, calls: seq<Call>): World {
    if calls == [] then START else Advance(After(h, calls[..|calls| - 1]), h, calls[|calls| - 1])
  }

  /** Handles are opened once and used while they are open; one that has fallen
      behind its file is not written through. */
  predicate Allowed(w: World, c: Call) {
    match c
    case Mknod(_) => true
    case Open(n, _) => n !in w.handles
    case Pwrite(n, offset, data) =>
      n in w.handles && offset + |data| <= OFFSET_LIMIT && w.handles[n] == HandleOn(w.fs, w.handles[n].path)
    case Pread(n, offset, size) => n in w.handles && offset + size <= OFFSET_LIMIT
    case Release(n) => n in w.handles
  }

  predicate AllAllowed(h: Hash, calls: seq<Call>) {
    forall i :: 0 <= i < |calls| ==> Allowed(After(h, calls[..i]), calls[i])
  }

  /** The pages that are seen through a handle. */
  function Seen(w: World, n: nat): Pages
    requires n in w.handles
  {
    if w.handles[n].totalBlocks == 0 then map[] else PagesOf(w.fs, w.handles[n].path)
  }

  /** The bytes that a call returns, when its buffer was zeroed. */
  function Answer(w: World, c: Call): seq<byte> {
    if c.Pread? && c.n in w.handles then
      seq(ReadLength(c.offset, c.size), i requires 0 <= i => ReadByte(Seen(w, c.n), c.offset, c.size, i, 0))
    else []
  }

  // ---------------------------------------------------- carrying out the calls

  /** The file system and its table are in the state `w`; `names` are the
      descriptors of the handles. */
  ghost predicate Serving(s: CfsState, names: map<nat, int>, w: World)
    reads s, s.kernel, s.table, s.table.fds, s.table.files
  {
    && s.Valid() && s.kernel.Whole() && s.fs == w.fs
    && Named(s.table.records, names, w.handles)
  }

  predicate Named(records: Records, names: map<nat, int>, handles: map<nat, Handle>) {
    && names.Keys == handles.Keys
    && (forall m, n :: m in names && n in names && names[m] == names[n] ==> m == n)
    && forall n :: n in names ==> names[n] >= 0 && names[n] in records && Matches(records[names[n]], handles[n])
  }

  predicate Matches(file: CfsFile, handle: Handle) {
    file.path == handle.path && file.size == handle.size && file.totalBlocks == handle.totalBlocks
  }

  lemma SyncedHandle(file: CfsFile, handle: Handle, fs: Fs)
    requires Matches(file, handle) && file.path in fs.metas
    ensures Synced(file, fs) <==> handle == HandleOn(fs, file.path)
  {
  }

  method ServeOpen(s: CfsState, names: map<nat, int>, ghost w: World, n: nat, path: string)
      returns (names': map<nat, int>)
    requires Serving(s, names, w) && n !in w.handles && Known(s, path)
    modifies s.kernel, s.table, s.table.fds, s.table.files
    ensures Serving(s, names', Advance(w, s.hash, Open(n, path))) && s.kernel.files == old(s.kernel.files)
    ensures s.table.fds == old(s.table.fds) || fresh(s.table.fds)
    ensures s.table.files == old(s.table.files) || fresh(s.table.files)
  {
    hide Inv, OnDisk, FdTable.Valid, HandlesOk;
    FilesThere(s.kernel.files, s.fs, s.storage);
    var retstat, fh := BbOpen(s, path);
    if retstat != 0 {
      return names;
    }
    SyncedHandle(s.table.records[fh], HandleOn(s.fs, path), s.fs);
    return names[n := fh];
  }

  method ServeWrite(s: CfsState, names: map<nat, int>, ghost w: World, n: nat, offset: nat, data: seq<byte>)
    requires Serving(s, names, w) && Allowed(w, Pwrite(n, offset, data))
    modifies s`fs, s.kernel, s.table`records, s.table.files
    ensures Serving(s, names, Advance(w, s.hash, Pwrite(n, offset, data)))
    ensures SameNames(old(s.kernel.files), s.kernel.files, s.storage)
  {
    hide Inv, OnDisk, FdTable.Valid, HandlesOk, WriteFile, SameNames;
    HandleOf(s.table.records, s.kernel.open, s.fs, names[n]);
    SyncedHandle(s.table.records[names[n]], w.handles[n], s.fs);
    var _ := BbWrite(s, data, offset, names[n]);
    SyncedHandle(s.table.records[names[n]], HandleOn(s.fs, w.handles[n].path), s.fs);
  }

  method ServeRead(s: CfsState, names: map<nat, int>, ghost w: World, n: nat, offset: nat, size: nat)
      returns (answer: seq<byte>)
    requires Serving(s, names, w) && Allowed(w, Pread(n, offset, size))
    modifies s.kernel
    ensures Serving(s, names, w) && s.kernel.files == old(s.kernel.files)
    ensures answer == Answer(w, Pread(n, offset, size))
  {
    hide Inv, OnDisk, FdTable.Valid, HandlesOk, ReadByte, PagesOf;
    var buf := new byte[ReadLength(offset, size)](_ => 0);
    var _ := BbRead(s, buf, size, offset, names[n]);
    return buf[..];
  }

  method ServeRelease(s: CfsState, names: map<nat, int>, ghost w: World, n: nat) returns (names': map<nat, int>)
    requires Serving(s, names, w) && n in w.handles
    modifies s.kernel, s.table, s.table.fds
    ensures Serving(s, names', Advance(w, s.hash, Release(n))) && s.kernel.files == old(s.kernel.files)
    ensures s.table.fds == old(s.table.fds) && s.table.files == old(s.table.files)
  {
    hide Inv, OnDisk, FdTable.Valid, HandlesOk;
    var _ := BbRelease(s, names[n]);
    return names - {n};
  }

  /** One call: the state that it leads to, and the bytes that it returns. */
  method Serve(s: CfsState, names: map<nat, int>, ghost w: World, c: Call)
      returns (names': map<nat, int>, answer: seq<byte>)
    requires Serving(s, names, w) && Allowed(w, c)
    requires c.Mknod? || c.Open? ==> Apart(c.path, s.storage) && Known(s, c.path)
    modifies s`fs, s.kernel, s.table, s.table.fds, s.table.files
    ensures Serving(s, names', Advance(w, s.hash, c)) && answer == Answer(w, c)
    ensures c.Mknod? || c.Open? ==> Known(s, c.path)
    ensures forall p :: Apart(p, s.storage) && !(c.Mknod? && p == c.path) ==>
              (p in s.kernel.files <==> p in old(s.kernel.files))
    ensures s.table.fds == old(s.table.fds) || fresh(s.table.fds)
    ensures s.table.files == old(s.table.files) || fresh(s.table.files)
  {
    hide Inv, OnDisk, FdTable.Valid, HandlesOk, Apart, WriteFile, ReadByte, PagesOf;
    names', answer := names, [];
    match c {
      case Mknod(path) =>
        FilesThere(s.kernel.files, s.fs, s.storage);
        var _ := BbMknod(s, path);
      case Open(n, path) =>
        names' := ServeOpen(s, names, w, n, path);
      case Pwrite(n, offset, data) =>
        ServeWrite(s, names, w, n, offset, data);
      case Pread(n, offset, size) =>
        answer := ServeRead(s, names, w, n, offset, size);
      case Release(n) =>
        names' := ServeRelease(s, names, w, n);
    }
  }

  /** Every allowed run of calls on an empty file system is carried out as `After`
      says, and every read on the way returns what it should. */
  method ServeAll(s: CfsState, calls: seq<Call>) returns (names: map<nat, int>, answers: seq<seq<byte>>)
    requires s.Valid() && s.kernel.Whole() && s.fs == EMPTY && AllAllowed(s.hash, calls)
    requires forall i :: 0 <= i < |calls| && (calls[i].Mknod? || calls[i].Open?) ==>
               Apart(calls[i].path, s.storage) && calls[i].path !in s.kernel.files
    modifies s`fs, s.kernel, s.table, s.table.fds, s.table.files
    ensures Serving(s, names, After(s.hash, calls)) && |answers| == |calls|
    ensures forall i :: 0 <= i < |calls| ==> answers[i] == Answer(After(s.hash, calls[..i]), calls[i])
  {
    hide Inv, OnDisk, FdTable.Valid, HandlesOk, Apart, Advance, Answer, Allowed, Named;
    names, answers := map[], [];
    NothingNamed(s.table.records);
    for t := 0 to |calls|
      invariant Serving(s, names, After(s.hash, calls[..t])) && |answers| == t
      invariant forall i :: 0 <= i < |calls| && (calls[i].Mknod? || calls[i].Open?) ==> Known(s, calls[i].path)
      invariant forall i :: 0 <= i < t ==> answers[i] == Answer(After(s.hash, calls[..i]), calls[i])
      invariant s.table.fds == old(s.table.fds) || fresh(s.table.fds)
      invariant s.table.files == old(s.table.files) || fresh(s.table.files)
    {
      ghost var w := After(s.hash, calls[..t]);
      var answer;
      names, answer := Serve(s, names, w, calls[t]);
      answers := answers + [answer];
      assert calls[..t + 1][..t] == calls[..t] && calls[..t + 1][t] == calls[t];
      AdvanceKeepsFiles(w, s.hash, calls[t]);
    }
    assert calls[..|calls|] == calls;
  }

  lemma NothingNamed(records: Records)
    ensures Named(records, map[], map[])
  {
  }

  lemma AdvanceKeepsFiles(w: World, h: Hash, c: Call)
    ensures w.fs.metas.Keys <= Advance(w, h, c).fs.metas.Keys
  {
    hide Step;
    match c {
      case Mknod(path) => StepKeepsFiles(w.fs, h, Create(path));
      case Pwrite(n, offset, data) =>
        if n in w.handles {
          StepKeepsFiles(w.fs, h, Write(w.handles[n].path, offset, data));
        }
      case _ =>
    }
  }

  // ------------------------------------------------- what the handles come to

  /** The creations and writes of a run of calls. */
  function Ops(h: Hash, calls: seq<Call>): seq<Op> {
    if calls == [] then []
    else Ops(h, calls[..|calls| - 1]) + Doing(After(h, calls[..|calls| - 1]), calls[|calls| - 1])
  }

  predicate FilesKnown(w: World) {
    forall n :: n in w.handles ==> w.handles[n].path in w.fs.metas
  }

  /** Keeping handles open makes no difference to the files: every run of calls
      leaves what the run of its creations and writes leaves. */
  lemma {:induction false} HandlesUnseen(h: Hash, calls: seq<Call>)
    ensures After(h, calls).fs == Run(h, Ops(h, calls))
    ensures FilesKnown(After(h, calls))
  {
    hide Step;
    if calls != [] {
      var front, last := calls[..|calls| - 1], calls[|calls| - 1];
      HandlesUnseen(h, front);
      AdvanceKeepsFiles(After(h, front), h, last);
      RunDoing(h, Ops(h, front), Doing(After(h, front), last));
    }
  }

  lemma RunDoing(h: Hash, ops: seq<Op>, more: seq<Op>)
    requires |more| <= 1
    ensures Run(h, ops + more) == if more == [] then Run(h, ops) else Step(Run(h, ops), h, more[0])
  {
    hide Step;
    if more == [] {
      assert ops + more == ops;
    } else {
      var all := ops + more;
      assert all[..|all| - 1] == ops && all[|all| - 1] == more[0];
    }
  }

  lemma {:induction false} OpsLegal(h: Hash, calls: seq<Call>)
    requires AllAllowed(h, calls)
    ensures forall i :: 0 <= i < |Ops(h, calls)| ==> Legal(Ops(h, calls)[i])
  {
    if calls != [] {
      AllowedFront(h, calls);
      OpsLegal(h, calls[..|calls| - 1]);
    }
  }

  lemma AllowedFront(h: Hash, calls: seq<Call>)
    requires AllAllowed(h, calls) && calls != []
    ensures AllAllowed(h, calls[..|calls| - 1])
    ensures Allowed(After(h, calls[..|calls| - 1]), calls[|calls| - 1])
  {
    hide Allowed, After;
    var front := calls[..|calls| - 1];
    forall i | 0 <= i < |front|
      ensures Allowed(After(h, front[..i]), front[i])
    {
      assert front[..i] == calls[..i];
    }
  }

  /** Since `n` was opened nothing was written to its file but through `n`. */
  predicate SoleWriter(h: Hash, calls: seq<Call>, n: nat) {
    calls != [] &&
    var front, last := calls[..|calls| - 1], calls[|calls| - 1];
    var handles := After(h, front).handles;
    if (last.Open? || last.Pwrite?) && last.n == n then true
    else
      && SoleWriter(h, front, n)
      && (last.Pwrite? && last.n in handles && n in handles ==> handles[last.n].path != handles[n].path)
  }

  /** Such a handle is in step with its file, so that writing through it is
      allowed and everything in the file is seen through it. */
  lemma {:induction false} SoleWriterInStep(h: Hash, calls: seq<Call>, n: nat)
    requires AllAllowed(h, calls) && SoleWriter(h, calls, n) && n in After(h, calls).handles
    ensures var w := After(h, calls); w.handles[n] == HandleOn(w.fs, w.handles[n].path)
  {
    hide Step;
    var front, last := calls[..|calls| - 1], calls[|calls| - 1];
    var w := After(h, front);
    AllowedFront(h, calls);
    HandlesUnseen(h, front);
    if n in w.handles && !(last.Pwrite? && last.n == n) {
      SoleWriterInStep(h, front, n);
      if Doing(w, last) != [] {
        StepElsewhere(w.fs, h, Doing(w, last)[0], w.handles[n].path);
      }
    }
  }

  lemma StepElsewhere(fs: Fs, h: Hash, op: Op, path: string)
    requires path in fs.metas && (op.Write? ==> op.path != path)
    ensures HandleOn(Step(fs, h, op), path) == HandleOn(fs, path)
  {
    hide Plan, RegisterAll, PagesOf;
    if op.Write? && op.path in fs.metas {
      OtherHeaders(fs, h, op.path, Plan(PagesOf(fs, op.path), op.offset, op.offset + |op.data|, op.data), path);
    }
  }

  /** A page-aligned read through a handle kept open, at any point of a run with
      other writes and reads before it: what was written so far, unless the handle
      is from a time when its file was empty and nothing was written through it
      since. */
  lemma ReadThroughHandle(h: Hash, calls: seq<Call>, u: set<seq<byte>>, n: nat, offset: nat, size: nat, i: nat)
    requires AllAllowed(h, calls) && n in After(h, calls).handles && offset % BLOCK_SIZE == 0
    requires FreshRun(Ops(h, calls)) && CollisionFree(h, u) && RunPayloads(Ops(h, calls)) <= u
    requires i < ReadLength(offset, size)
    ensures var w := After(h, calls);
            Answer(w, Pread(n, offset, size))[i]
            == if w.handles[n].totalBlocks == 0 then 0 else Written(Ops(h, calls), w.handles[n].path, offset + i)
  {
    hide ReadByte, PagesOf, Written, FreshRun, RunPayloads, CollisionFree, After, AllAllowed, Ops, Run, AbsRun;
    var w, ops := After(h, calls), Ops(h, calls);
    HandlesUnseen(h, calls);
    OpsLegal(h, calls);
    FileInAbs(h, ops, u, w.handles[n].path);
    RunReadsWhatWasWritten(h, ops, u, w.handles[n].path, offset, size, i);
    NothingRead(offset, size, i);
  }

  lemma FileInAbs(h: Hash, ops: seq<Op>, u: set<seq<byte>>, path: string)
    requires CollisionFree(h, u) && RunPayloads(ops) <= u && path in Run(h, ops).metas
    requires forall i :: 0 <= i < |ops| ==> Legal(ops[i])
    ensures path in AbsRun(ops) && AbsRun(ops)[path] == PagesOf(Run(h, ops), path)
  {
    hide InvIn, Run, AbsRun, RunPayloads, PagesOf;
    RunRefines(h, ops, u);
    ViewKeys(Run(h, ops));
  }

  lemma NothingRead(offset: nat, size: nat, i: nat)
    ensures ReadByte(map[], offset, size, i, 0) == 0
  {
  }

  /** Through a handle that is the only one its file is written through, a
      page-aligned read returns everything written to the file so far, whether
      through this handle, before it was opened, or since. */
  lemma ReadYourWrites(h: Hash, calls: seq<Call>, u: set<seq<byte>>, n: nat, offset: nat, size: nat, i: nat)
    requires AllAllowed(h, calls) && n in After(h, calls).handles && SoleWriter(h, calls, n)
    requires FreshRun(Ops(h, calls)) && CollisionFree(h, u) && RunPayloads(Ops(h, calls)) <= u
    requires offset % BLOCK_SIZE == 0 && i < ReadLength(offset, size)
    ensures Answer(After(h, calls), Pread(n, offset, size))[i]
            == Written(Ops(h, calls), After(h, calls).handles[n].path, offset + i)
  {
    hide ReadByte, PagesOf, Written, FreshRun, RunPayloads, CollisionFree, After, AllAllowed, Ops, Run, AbsRun,
         Answer, ReadLength, SoleWriter;
    var w, ops := After(h, calls), Ops(h, calls);
    ReadThroughHandle(h, calls, u, n, offset, size, i);
    SoleWriterInStep(h, calls, n);
    if w.handles[n].totalBlocks == 0 {
      HandlesUnseen(h, calls);
      OpsLegal(h, calls);
      FileInAbs(h, ops, u, w.handles[n].path);
      NoPages(w.fs, w.handles[n].path);
      RunReadsWhatWasWritten(h, ops, u, w.handles[n].path, offset, size, i);
      NothingRead(offset, size, i);
    }
  }
}
