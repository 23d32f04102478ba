/** Whole runs: creating and writing files through hash, store, append and scan
    refines a map from files to sparse byte arrays. */
module Runs {
  import opened Bytes
  import opened PairList
  import opened Storage
  import opened Naming
  import opened Contents
  import opened Bbfs
  import opened Sparse
  import opened Sizes

  datatype Op = Create(path: string) | Write(path: string, offset: nat, data: seq<byte>)

  predicate Legal(op: Op) { op.Write? ==> op.offset + |op.data| <= OFFSET_LIMIT }

  /** One operation: `bb_mknod`, or `bb_write` through an open handle. */
  function Step(fs: Fs, h: Hash, op: Op): Fs {
    match op
    case Create(path) => if path in fs.metas then fs else fs.(metas := fs.metas[path := Meta(0, [])])
    case Write(path, offset, data) => if path in fs.metas then WriteFile(fs, h, path, offset, data) else fs
  }

  function Run(h: Hash, ops: seq<Op>): Fs {
    if ops == [] then EMPTY else Step(Run(h, ops[..|ops| - 1]), h, ops[|ops| - 1])
  }

  /** The same without blocks, digests or pair lists: pages by file and number. */
  type Abs = map<string, Pages>

  function AbsStep(abs: Abs, op: Op): Abs {
    match op
    case Create(path) => if path in abs then abs else abs[path := map[]]
    case Write(path, offset, data) =>
      if path in abs then abs[path := WritePages(abs[path], offset, data)] else abs
  }

  function AbsRun(ops: seq<Op>): Abs {
    if ops == [] then map[] else AbsStep(AbsRun(ops[..|ops| - 1]), ops[|ops| - 1])
  }

  function View(fs: Fs): Abs { map p | p in fs.metas :: PagesOf(fs, p) }

  /** The payloads an operation stores. */
  function Payloads(abs: Abs, op: Op): set<seq<byte>> {
    if op.Write? && op.path in abs then
      set c | c in Plan(abs[op.path], op.offset, op.offset + |op.data|, op.data) :: c.data
    else {}
  }

  function RunPayloads(ops: seq<Op>): set<seq<byte>> {
    if ops == [] then {}
    else RunPayloads(ops[..|ops| - 1]) + Payloads(AbsRun(ops[..|ops| - 1]), ops[|ops| - 1])
  }

  lemma PlanGood(pages: Pages, offset: nat, data: seq<byte>, u: set<seq<byte>>)
    requires offset + |data| <= OFFSET_LIMIT
    requires forall c :: c in Plan(pages, offset, offset + |data|, data) ==> c.data in u
    ensures Good(Plan(pages, offset, offset + |data|, data), u)
  {
  }

  lemma WritePlanGood(fs: Fs, op: Op, u: set<seq<byte>>)
    requires op.Write? && Legal(op) && op.path in fs.metas && Payloads(View(fs), op) <= u
    ensures Good(Plan(PagesOf(fs, op.path), op.offset, op.offset + |op.data|, op.data), u)
  {
    hide PagesOf, Plan;
    forall c | c in Plan(PagesOf(fs, op.path), op.offset, op.offset + |op.data|, op.data)
      ensures c.data in u
    {
      assert c.data in Payloads(View(fs), op);
    }
    PlanGood(PagesOf(fs, op.path), op.offset, op.data, u);
  }

  lemma StepRefines(fs: Fs, h: Hash, u: set<seq<byte>>, op: Op)
    requires InvIn(fs, h, u) && Legal(op) && Payloads(View(fs), op) <= u
    ensures InvIn(Step(fs, h, op), h, u)
    ensures View(Step(fs, h, op)) == AbsStep(View(fs), op)
  {
    if op.path in fs.metas {
      if op.Write? {
        WriteRefines(fs, h, u, op);
      }
    } else if op.Create? {
      CreateRefines(fs, h, u, op);
    }
  }

  lemma WriteRefines(fs: Fs, h: Hash, u: set<seq<byte>>, op: Op)
    requires InvIn(fs, h, u) && Legal(op) && op.Write? && op.path in fs.metas && Payloads(View(fs), op) <= u
    ensures InvIn(Step(fs, h, op), h, u)
    ensures View(Step(fs, h, op)) == AbsStep(View(fs), op)
  {
    hide PagesOf, Plan, RegisterAll, PutAll, InvIn, Good, Payloads;
    WritePlanGood(fs, op, u);
    RegisterAllPut(fs, h, u, op.path, Plan(PagesOf(fs, op.path), op.offset, op.offset + |op.data|, op.data));
  }

  lemma CreateRefines(fs: Fs, h: Hash, u: set<seq<byte>>, op: Op)
    requires InvIn(fs, h, u) && op.Create? && op.path !in fs.metas
    ensures InvIn(Step(fs, h, op), h, u)
    ensures View(Step(fs, h, op)) == AbsStep(View(fs), op)
  {
    hide PagesOf, Name, CollisionFree;
    EmptyPages(fs, op.path);
  }

  lemma EmptyPages(fs: Fs, path: string)
    requires path !in fs.metas
    ensures var fs' := fs.(metas := fs.metas[path := Meta(0, [])]);
            PagesOf(fs', path) == map[] && forall p :: p != path ==> PagesOf(fs', p) == PagesOf(fs, p)
  {
    assert Indices([]) == {};
  }

  /** For every run, whatever pages it writes and how often: if no two of the
      payloads it stores share a block name, the files hold the pages of the
      simple machine, and all invariants of disk and store hold. */
  lemma {:induction false} RunRefines(h: Hash, ops: seq<Op>, u: set<seq<byte>>)
    requires CollisionFree(h, u) && RunPayloads(ops) <= u
    requires forall i :: 0 <= i < |ops| ==> Legal(ops[i])
    ensures InvIn(Run(h, ops), h, u)
    ensures View(Run(h, ops)) == AbsRun(ops)
  {
    hide InvIn, Payloads, Step, AbsStep, CollisionFree;
    if ops == [] {
      EmptyInv(h, u);
    } else {
      var front := ops[..|ops| - 1];
      RunRefines(h, front, u);
      StepRefines(Run(h, front), h, u, ops[|ops| - 1]);
    }
  }

  lemma EmptyInv(h: Hash, u: set<seq<byte>>)
    requires CollisionFree(h, u)
    ensures InvIn(EMPTY, h, u) && View(EMPTY) == map[]
  {
  }

  /** With or without collisions, rewrites or holes: every digest names a stored
      block of 1 to 4096 bytes, page numbers do not repeat, header fields fit. */
  lemma {:induction false} RunInvariant(h: Hash, ops: seq<Op>)
    requires forall i :: 0 <= i < |ops| ==> Legal(ops[i])
    ensures Inv(Run(h, ops), h)
  {
    hide Inv, Step;
    if ops == [] {
      EmptyInv(h, {});
      InvOfInvIn(EMPTY, h);
    } else {
      var front := ops[..|ops| - 1];
      RunInvariant(h, front);
      StepInvariant(Run(h, front), h, ops[|ops| - 1]);
    }
  }

  lemma InvOfInvIn(fs: Fs, h: Hash)
    requires InvIn(fs, h, {})
    ensures Inv(fs, h)
  {
  }

  lemma StepInvariant(fs: Fs, h: Hash, op: Op)
    requires Inv(fs, h) && Legal(op)
    ensures Inv(Step(fs, h, op), h)
    ensures forall p :: p != op.path ==> PagesOf(Step(fs, h, op), p) == PagesOf(fs, p)
  {
    hide PagesOf, Plan, RegisterAll, Name;
    match op {
      case Create(path) =>
        if path !in fs.metas {
          EmptyPages(fs, path);
        }
      case Write(path, offset, data) =>
        if path in fs.metas {
          WritesAreIsolated(fs, h, path, Plan(PagesOf(fs, path), offset, offset + |data|, data));
        }
    }
  }

  /** Deduplication is invisible: a run of operations on other files leaves every
      read of a file as it was, even when the files share blocks. */
  lemma {:induction false} OtherFilesUnseen(h: Hash, ops: seq<Op>, more: seq<Op>, path: string)
    requires forall i :: 0 <= i < |ops| ==> Legal(ops[i])
    requires forall i :: 0 <= i < |more| ==> Legal(more[i]) && more[i].path != path
    ensures PagesOf(Run(h, ops + more), path) == PagesOf(Run(h, ops), path)
    decreases |more|
  {
    hide PagesOf, Step, Inv;
    if more == [] {
      assert ops + more == ops;
    } else {
      var front, last := more[..|more| - 1], more[|more| - 1];
      var all := ops + more;
      assert all[..|all| - 1] == ops + front && all[|all| - 1] == last;
      OtherFilesUnseen(h, ops, front, path);
      RunInvariant(h, ops + front);
      StepInvariant(Run(h, ops + front), h, last);
    }
  }

  // ------------------------------------------------------------ byte arrays

  /** Every write is well shaped and on pages its file does not have yet. */
  predicate FreshRun(ops: seq<Op>) {
    ops == [] ||
    var front, last := ops[..|ops| - 1], ops[|ops| - 1];
    && FreshRun(front)
    && (last.Write? ==>
          && last.path in AbsRun(front)
          && Shaped(last.offset, |last.data|)
          && (last.data != [] ==> Untouched(AbsRun(front)[last.path], last.offset, |last.data|)))
  }

  /** Byte `k` of `path` as the user of the file system wrote it: from the last
      write that covers it, zero if there is none. */
  function Written(ops: seq<Op>, path: string, k: nat): byte {
    if ops == [] then 0
    else
      var last := ops[|ops| - 1];
      if last.Write? && last.path == path && last.offset <= k < last.offset + |last.data| then
        last.data[k - last.offset]
      else Written(ops[..|ops| - 1], path, k)
  }

  lemma {:induction false} AbsRunWritten(ops: seq<Op>, path: string, k: nat)
    requires FreshRun(ops) && path in AbsRun(ops)
    ensures ByteAt(AbsRun(ops)[path], k) == Written(ops, path, k)
  {
    hide ByteAt, WritePages, Shaped, Untouched;
    var front, last := ops[..|ops| - 1], ops[|ops| - 1];
    if path in AbsRun(front) {
      AbsRunWritten(front, path, k);
      if last.Write? && last.path == path {
        WriteIsPositioned(AbsRun(front)[path], last.offset, last.data);
      }
    } else {
      NothingWritten(front, path, k);
      NoPagesZero(k);
    }
  }

  lemma NoPagesZero(k: nat)
    ensures ByteAt(map[], k) == 0
  {
  }

  lemma {:induction false} NothingWritten(ops: seq<Op>, path: string, k: nat)
    requires FreshRun(ops) && path !in AbsRun(ops)
    ensures Written(ops, path, k) == 0
  {
    if ops != [] {
      NothingWritten(ops[..|ops| - 1], path, k);
    }
  }

  /** Whole runs refine byte arrays: after any run of writes to new pages, a
      page-aligned read into a zeroed buffer returns what was written, through
      every layer below. */
  lemma RunReadsWhatWasWritten(h: Hash, ops: seq<Op>, u: set<seq<byte>>, path: string,
                               offset: nat, size: nat, i: nat)
    requires CollisionFree(h, u) && RunPayloads(ops) <= u
    requires (forall j :: 0 <= j < |ops| ==> Legal(ops[j])) && FreshRun(ops)
    requires path in AbsRun(ops) && offset % BLOCK_SIZE == 0
    ensures ReadByte(PagesOf(Run(h, ops), path), offset, size, i, 0) == Written(ops, path, offset + i)
  {
    hide ReadByte, ByteAt, PagesOf, AbsRun, Run, Written, FreshRun, InvIn;
    RunRefines(h, ops, u);
    assert PagesOf(Run(h, ops), path) == View(Run(h, ops))[path];
    AbsRunWritten(ops, path, offset + i);
    AlignedRead(PagesOf(Run(h, ops), path), offset, size, i);
  }

  // ------------------------------------------------------------------- sizes

  /** The pages of the plan of a write are not in the file. */
  predicate PlanIsNew(pages: Pages, offset: nat, data: seq<byte>) {
    var plan := Plan(pages, offset, offset + |data|, data);
    forall i :: 0 <= i < |plan| ==> plan[i].index !in pages
  }

  /** The run registers no page of a file twice; its writes may start and end
      anywhere. */
  predicate RegistersOnce(ops: seq<Op>) {
    ops == [] ||
    var front, last := ops[..|ops| - 1], ops[|ops| - 1];
    && RegistersOnce(front)
    && (last.Write? && last.path in AbsRun(front) ==> PlanIsNew(AbsRun(front)[last.path], last.offset, last.data))
  }

  /** Runs on untouched pages are among them. */
  lemma {:induction false} FreshRegistersOnce(ops: seq<Op>)
    requires FreshRun(ops)
    ensures RegistersOnce(ops)
  {
    hide Shaped, Untouched, PlanIsNew, AbsRun;
    if ops != [] {
      var front, last := ops[..|ops| - 1], ops[|ops| - 1];
      FreshRegistersOnce(front);
      if last.Write? && last.path in AbsRun(front) {
        PlanOnNewPages(AbsRun(front)[last.path], last.offset, last.data);
      }
    }
  }

  /** How far the size field of `path` has moved away from its payload bytes: over
      all registrations of a page that was there, the sum of the new length less
      the old one and less 8. */
  function RunDrift(ops: seq<Op>, path: string): int {
    if ops == [] then 0
    else
      var front, last := ops[..|ops| - 1], ops[|ops| - 1];
      RunDrift(front, path)
      + if last.Write? && last.path == path && path in AbsRun(front) then
          Drift(AbsRun(front)[path], Plan(AbsRun(front)[path], last.offset, last.offset + |last.data|, last.data))
        else 0
  }

  lemma {:induction false} UnknownDrift(ops: seq<Op>, path: string)
    requires path !in AbsRun(ops)
    ensures RunDrift(ops, path) == 0
  {
    hide WritePages, Plan;
    if ops != [] {
      UnknownDrift(ops[..|ops| - 1], path);
    }
  }

  lemma {:induction false} OnceDrift(ops: seq<Op>, path: string)
    requires RegistersOnce(ops)
    ensures RunDrift(ops, path) == 0
  {
    hide AbsRun, Plan, Drift;
    if ops != [] {
      var front, last := ops[..|ops| - 1], ops[|ops| - 1];
      OnceDrift(front, path);
      if last.Write? && last.path == path && path in AbsRun(front) {
        var pages := AbsRun(front)[path];
        PlanIncreasing(pages, last.offset, last.offset + |last.data|, last.data);
        NoDrift(pages, Plan(pages, last.offset, last.offset + |last.data|, last.data));
      }
    }
  }

  /** The size field after one operation. */
  lemma StepSize(fs: Fs, h: Hash, u: set<seq<byte>>, op: Op, path: string)
    requires InvIn(fs, h, u) && Legal(op) && Payloads(View(fs), op) <= u && path in fs.metas
    ensures path in Step(fs, h, op).metas
    ensures var pages := PagesOf(fs, path);
            Step(fs, h, op).metas[path].size
            == if op.Write? && op.path == path then
                 Wrap(fs.metas[path].size + Total(WritePages(pages, op.offset, op.data)) - Total(pages)
                      + Drift(pages, Plan(pages, op.offset, op.offset + |op.data|, op.data)))
               else fs.metas[path].size
  {
    hide PagesOf, Plan, RegisterAll, Total, InvIn, Payloads, View, Good, Drift, PutAll, Wrap;
    if op.Write? && op.path in fs.metas {
      var plan := Plan(PagesOf(fs, op.path), op.offset, op.offset + |op.data|, op.data);
      WritePlanGood(fs, op, u);
      if path == op.path {
        WriteSizes(fs, h, u, path, plan);
      } else {
        OtherHeaders(fs, h, op.path, plan, path);
      }
    }
  }

  lemma PlanOnNewPages(pages: Pages, offset: nat, data: seq<byte>)
    requires data != [] ==> Untouched(pages, offset, |data|)
    ensures PlanIsNew(pages, offset, data)
  {
  }

  /** For every run, rewrites and partial writes included, the size field of a file
      is the number of its payload bytes plus the drift, as an `off_t`. */
  lemma {:induction false} RunSizeLaw(h: Hash, ops: seq<Op>, u: set<seq<byte>>, path: string)
    requires CollisionFree(h, u) && RunPayloads(ops) <= u
    requires forall i :: 0 <= i < |ops| ==> Legal(ops[i])
    requires path in Run(h, ops).metas
    ensures path in AbsRun(ops)
    ensures Run(h, ops).metas[path].size == Wrap(Total(AbsRun(ops)[path]) + RunDrift(ops, path))
  {
    hide InvIn, Payloads, Step, CollisionFree, PagesOf, Total, Drift, Plan, Wrap, WritePages;
    RunRefines(h, ops, u);
    ViewKeys(Run(h, ops));
    if ops != [] {
      var front, last := ops[..|ops| - 1], ops[|ops| - 1];
      var fs := Run(h, front);
      RunRefines(h, front, u);
      ViewKeys(fs);
      if path in fs.metas {
        RunSizeLaw(h, front, u, path);
        StepSize(fs, h, u, last, path);
        var pages := AbsRun(front)[path];
        if last.Write? && last.path == path {
          WrapSum(Total(pages) + RunDrift(front, path),
                  Total(WritePages(pages, last.offset, last.data)) - Total(pages)
                  + Drift(pages, Plan(pages, last.offset, last.offset + |last.data|, last.data)));
        }
      } else {
        UnknownDrift(front, path);
        MadeFile(fs, h, last, path);
        NoPagesNoBytes();
      }
    }
  }

  lemma MadeFile(fs: Fs, h: Hash, op: Op, path: string)
    requires path !in fs.metas && path in Step(fs, h, op).metas
    ensures op == Create(path) && Step(fs, h, op).metas[path].size == 0
  {
    hide RegisterAll, Plan, PagesOf;
    if op.Write? && op.path in fs.metas {
      WriteKeys(fs, h, op);
    }
  }

  /** So it is that number exactly when the drift comes to nothing in 64 bits. */
  lemma RunSizeExactly(h: Hash, ops: seq<Op>, u: set<seq<byte>>, path: string)
    requires CollisionFree(h, u) && RunPayloads(ops) <= u
    requires forall i :: 0 <= i < |ops| ==> Legal(ops[i])
    requires path in Run(h, ops).metas
    ensures SizeExact(Run(h, ops), path) <==> RunDrift(ops, path) % TWO64 == 0
  {
    hide PagesOf, Run, AbsRun, RunPayloads, CollisionFree, Inv, InvIn, Total, RunDrift, Wrap;
    RunSizeLaw(h, ops, u, path);
    RunRefines(h, ops, u);
    ViewKeys(Run(h, ops));
    RunInvariant(h, ops);
    PagesInRange(Run(h, ops), h, path);
    TotalSmall(PagesOf(Run(h, ops), path));
    WrapExactly(Total(PagesOf(Run(h, ops), path)), RunDrift(ops, path));
  }

  lemma WrapExactly(n: nat, d: int)
    requires n < TWO63
    ensures Wrap(n + d) == n <==> d % TWO64 == 0
  {
    assert (n + d - Wrap(n + d)) % TWO64 == 0;
  }

  /** Ten bytes, then one byte at the same place, then a hundred on the next page:
      110 bytes are there and the size field says 93. */
  lemma RewriteInput(path: string, a: seq<byte>, b: byte, c: seq<byte>)
    requires |a| == 10 && |c| == 100
    ensures var ops := [Create(path), Write(path, 0, a), Write(path, 0, [b]), Write(path, 4096, c)];
            && path in AbsRun(ops) && AbsRun(ops)[path] == map[0 := a, 1 := c]
            && Total(AbsRun(ops)[path]) == 110 && RunDrift(ops, path) == -17
            && Wrap(Total(AbsRun(ops)[path]) + RunDrift(ops, path)) == 93
  {
    hide Plan, Total, AbsRun, RunDrift;
    var create, first, again, next := Create(path), Write(path, 0, a), Write(path, 0, [b]), Write(path, 4096, c);
    JustMade(path);
    assert [create, first][..1] == [create];
    OneWrite([create, first], path, map[], Chunk(0, a));
    assert [create, first, again][..2] == [create, first];
    OneWrite([create, first, again], path, map[0 := a], Chunk(0, [b]));
    assert [create, first, again, next][..3] == [create, first, again];
    OneWrite([create, first, again, next], path, map[0 := a], Chunk(1, c));
    NoPagesNoBytes();
    PutTotal(map[], Chunk(0, a));
    PutTotal(map[0 := a], Chunk(1, c));
  }

  lemma JustMade(path: string)
    ensures AbsRun([Create(path)]) == map[path := map[]] && RunDrift([Create(path)], path) == 0
  {
    assert [Create(path)][..0] == [];
  }

  /** A run whose last write is of one block at the start of a page. */
  lemma {:induction false} OneWrite(ops: seq<Op>, path: string, pages: Pages, c: Chunk)
    requires ops != [] && 0 <= c.index && 1 <= |c.data| <= BLOCK_SIZE
    requires ops[|ops| - 1] == Write(path, BLOCK_SIZE * c.index, c.data)
    requires path in AbsRun(ops[..|ops| - 1]) && AbsRun(ops[..|ops| - 1])[path] == pages
    ensures path in AbsRun(ops) && AbsRun(ops)[path] == Put(pages, c)
    ensures RunDrift(ops, path) == RunDrift(ops[..|ops| - 1], path) + ChunkDrift(pages, c)
  {
    hide Plan, Put, ChunkDrift, Lead;
    var offset := BLOCK_SIZE * c.index;
    OneChunk(pages, offset, c.data);
    assert Lead(pages, c.index, 0) + c.data == c.data;
    var plan := Plan(pages, offset, offset + |c.data|, c.data);
    assert plan == [c] && plan[1..] == [];
    assert PutAll(pages, plan) == Put(pages, c);
    assert Drift(pages, plan) == ChunkDrift(pages, c);
  }

  /** For every run that registers each page of a file at most once the size
      field of each file is the number of payload bytes it has. */
  lemma RunSizes(h: Hash, ops: seq<Op>, u: set<seq<byte>>, path: string)
    requires CollisionFree(h, u) && RunPayloads(ops) <= u
    requires (forall i :: 0 <= i < |ops| ==> Legal(ops[i])) && RegistersOnce(ops)
    requires path in Run(h, ops).metas
    ensures SizeExact(Run(h, ops), path)
  {
    hide SizeExact, Run, RunPayloads, CollisionFree, RegistersOnce, RunDrift;
    OnceDrift(ops, path);
    RunSizeExactly(h, ops, u, path);
  }

  lemma ViewKeys(fs: Fs)
    ensures forall p :: p in View(fs) <==> p in fs.metas
    ensures forall p :: p in fs.metas ==> View(fs)[p] == PagesOf(fs, p)
  {
  }

  lemma WriteKeys(fs: Fs, h: Hash, op: Op)
    requires op.Write? && op.path in fs.metas
    ensures Step(fs, h, op).metas.Keys == fs.metas.Keys
  {
    hide Plan, PagesOf, RegisterAll;
    RegisterAllKeys(fs, h, op.path, Plan(PagesOf(fs, op.path), op.offset, op.offset + |op.data|, op.data));
  }

  /** For every such run the size of a file is at most the end of its last page,
      and equal to it exactly when all lower pages are there and full. */
  lemma {:induction false} RunSizeAgainstEnd(h: Hash, ops: seq<Op>, u: set<seq<byte>>, path: string, last: nat)
    requires CollisionFree(h, u) && RunPayloads(ops) <= u
    requires (forall i :: 0 <= i < |ops| ==> Legal(ops[i])) && RegistersOnce(ops)
    requires path in Run(h, ops).metas
    requires last in PagesOf(Run(h, ops), path) && forall q :: q in PagesOf(Run(h, ops), path) ==> q <= last
    ensures var pages, size := PagesOf(Run(h, ops), path), Run(h, ops).metas[path].size;
            && size <= BLOCK_SIZE * last + |pages[last]|
            && (size == BLOCK_SIZE * last + |pages[last]|
                <==> forall q :: 0 <= q < last ==> q in pages && |pages[q]| == BLOCK_SIZE)
  {
    hide PagesOf, Run, RegistersOnce, RunPayloads, Inv, Total;
    RunSizes(h, ops, u, path);
    RunInvariant(h, ops);
    PagesInRange(Run(h, ops), h, path);
    TotalAgainstEnd(PagesOf(Run(h, ops), path), last);
  }
}
