/** Concurrent `bb_write` calls on a fixed set of open files.  The lock of
    `cfs_state_t` is held for one block at a time, so a step of a thread is one
    critical section: a `cfs_file_read_block` or a `cfs_file_register_block`. */
module Concurrency {
  import opened Bytes
  import opened Storage
  import opened Contents
  import opened Bbfs
  import opened Sparse
  import opened Sizes

  /** The block buffer between the two critical sections of one turn. */
  datatype Buffer = NotRead | Holding(page: seq<byte>)

  /** A `bb_write` in progress: what is left of its range and of its input. */
  datatype Thread = Thread(path: string, cur: nat, end: nat, data: seq<byte>, buffer: Buffer)

  datatype Config = Config(fs: Fs, threads: seq<Thread>)

  predicate Finished(t: Thread) { t.cur >= t.end }

  predicate AllFinished(c: Config) { forall i :: 0 <= i < |c.threads| ==> Finished(c.threads[i]) }

  function Low(t: Thread): int { t.cur / BLOCK_SIZE }

  function High(t: Thread): int { (t.end - 1) / BLOCK_SIZE }

  /** How far the current turn reaches into the page. */
  function Right(t: Thread): nat
    requires !Finished(t)
  {
    Min(BLOCK_SIZE, t.cur % BLOCK_SIZE + t.end - t.cur)
  }

  /** The first `n` bytes of a block buffer into which `oldPage` was read. */
  function Padded(oldPage: seq<byte>, n: nat): (r: seq<byte>)
    ensures |r| == n
  {
    seq(n, i requires 0 <= i => if i < |oldPage| then oldPage[i] else 0)
  }

  function PageOr(pages: Pages, q: int): seq<byte> { if q in pages then pages[q] else [] }

  predicate NeedsRead(t: Thread) { t.cur % BLOCK_SIZE != 0 && t.buffer.NotRead? }

  /** The thread after its read, and after its registration. */
  function AfterRead(t: Thread, pages: Pages): Thread { t.(buffer := Holding(PageOr(pages, Low(t)))) }

  function AfterRegister(t: Thread): (t': Thread)
    requires !Finished(t) && t.end - t.cur <= |t.data|
    ensures t'.path == t.path && t'.end == t.end && t.cur < t'.cur && t'.end - t'.cur <= |t'.data| && t'.buffer.NotRead?
  {
    t.(cur := t.cur + Right(t), data := t.data[Right(t) - t.cur % BLOCK_SIZE..], buffer := NotRead)
  }

  /** The block that the thread is about to register. */
  function Block(t: Thread): Chunk
    requires !Finished(t) && t.end - t.cur <= |t.data|
  {
    var rem := t.cur % BLOCK_SIZE;
    Chunk(Low(t), Padded(if t.buffer.Holding? then t.buffer.page else [], rem) + t.data[..Right(t) - rem])
  }

  /** Threads name files that exist and have input for what is left. */
  predicate Runnable(t: Thread, fs: Fs) {
    t.path in fs.metas && t.end - t.cur <= |t.data| && t.end <= OFFSET_LIMIT
  }

  predicate AllRunnable(c: Config) {
    forall i :: 0 <= i < |c.threads| ==> Runnable(c.threads[i], c.fs)
  }

  /** One critical section of thread `i`; a thread that is through does nothing. */
  function Step(c: Config, h: Hash, i: nat): (c': Config)
    requires AllRunnable(c)
    ensures AllRunnable(c') && |c'.threads| == |c.threads|
  {
    if i >= |c.threads| || Finished(c.threads[i]) then c
    else
      var t := c.threads[i];
      assert Runnable(t, c.fs);
      if NeedsRead(t) then c.(threads := c.threads[i := AfterRead(t, PagesOf(c.fs, t.path))])
      else Config(Register(c.fs, h, t.path, Block(t).index, Block(t).data), c.threads[i := AfterRegister(t)])
  }

  /** A schedule says whose critical section comes next. */
  function Interleave(c: Config, h: Hash, schedule: seq<nat>): (c': Config)
    requires AllRunnable(c)
    ensures AllRunnable(c') && |c'.threads| == |c.threads|
    decreases |schedule|
  {
    if schedule == [] then c else Interleave(Step(c, h, schedule[0]), h, schedule[1..])
  }

  // -------------------------------------------------------------- invariants

  function PlanOf(pages: Pages, t: Thread): seq<Chunk>
    requires t.end - t.cur <= |t.data|
  {
    Plan(pages, t.cur, t.end, t.data)
  }

  /** Two requests on one file have no page in common. */
  predicate Separate(t: Thread, u: Thread) {
    t.path == u.path && !Finished(t) && !Finished(u) ==> High(t) < Low(u) || High(u) < Low(t)
  }

  predicate ThreadOk(t: Thread, fs: Fs, u: set<seq<byte>>) {
    && Runnable(t, fs)
    && Good(PlanOf(PagesOf(fs, t.path), t), u)
    && (t.buffer.Holding? && !Finished(t) ==> t.buffer.page == PageOr(PagesOf(fs, t.path), Low(t)))
  }

  /** The file and store invariants, and what each thread still has to do. */
  predicate Ok(c: Config, h: Hash, u: set<seq<byte>>): (ok: bool)
    ensures ok ==> AllRunnable(c) && AllSeparate(c.threads)
  {
    && InvIn(c.fs, h, u)
    && (forall i :: 0 <= i < |c.threads| ==> ThreadOk(c.threads[i], c.fs, u))
    && AllSeparate(c.threads)
  }

  /** The block a thread registers is the first of its plan. */
  lemma BlockIsHead(pages: Pages, t: Thread)
    requires !Finished(t) && t.end - t.cur <= |t.data| && !NeedsRead(t)
    requires t.buffer.Holding? ==> t.buffer.page == PageOr(pages, Low(t))
    ensures var plan := PlanOf(pages, t);
            plan != [] && plan[0] == Block(t) && plan[1..] == PlanOf(pages, AfterRegister(t))
  {
    var rem := t.cur % BLOCK_SIZE;
    var oldPage := if t.buffer.Holding? then t.buffer.page else [];
    assert Padded(oldPage, rem) == Lead(pages, Low(t), rem);
    assert PlanOf(pages, t)[1..] == PlanOf(pages, AfterRegister(t));
  }

  /** A turn leaves the pages of later turns alone. */
  lemma LaterPages(t: Thread)
    requires !Finished(t)
    ensures t.end - t.cur <= |t.data| && !Finished(AfterRegister(t)) ==>
              Low(AfterRegister(t)) == Low(t) + 1 && High(AfterRegister(t)) == High(t)
    ensures Low(t) <= High(t)
  {
  }

  /** The plan of a thread after another page was put. */
  lemma PlanAfterPut(pages: Pages, c: Chunk, t: Thread)
    requires t.end - t.cur <= |t.data|
    requires Finished(t) || c.index < Low(t) || High(t) < c.index
    ensures PlanOf(Put(pages, c), t) == PlanOf(pages, t)
    ensures !Finished(t) ==> PageOr(Put(pages, c), Low(t)) == PageOr(pages, Low(t))
  {
    if Finished(t) {
      PlanEmpty(pages, t.cur, t.end, t.data);
      PlanEmpty(Put(pages, c), t.cur, t.end, t.data);
    } else {
      LaterPages(t);
      PlanFrame(pages, Put(pages, c), t.cur, t.end, t.data);
    }
  }

  /** The pages after the threads of `ts` on `path` have finished one by one. */
  function Finish(pages: Pages, ts: seq<Thread>, path: string): Pages
    requires forall i :: 0 <= i < |ts| ==> ts[i].end - ts[i].cur <= |ts[i].data|
    decreases |ts|
  {
    if ts == [] then pages
    else Finish(if ts[0].path == path then PutAll(pages, PlanOf(pages, ts[0])) else pages, ts[1..], path)
  }

  lemma {:induction false} PutCommutes(pages: Pages, chunks: seq<Chunk>, c: Chunk)
    requires forall i :: 0 <= i < |chunks| ==> chunks[i].index != c.index
    ensures PutAll(Put(pages, c), chunks) == Put(PutAll(pages, chunks), c)
    decreases |chunks|
  {
    if chunks != [] {
      assert Put(Put(pages, c), chunks[0]) == Put(Put(pages, chunks[0]), c);
      PutCommutes(Put(pages, chunks[0]), chunks[1..], c);
    }
  }

  lemma {:induction false} PutAllElsewhere(pages: Pages, chunks: seq<Chunk>, q: int)
    requires forall i :: 0 <= i < |chunks| ==> chunks[i].index != q
    ensures PageOr(PutAll(pages, chunks), q) == PageOr(pages, q)
    ensures q in PutAll(pages, chunks) <==> q in pages
    decreases |chunks|
  {
    if chunks != [] {
      PutAllElsewhere(Put(pages, chunks[0]), chunks[1..], q);
    }
  }

  predicate Inputs(ts: seq<Thread>) { forall i :: 0 <= i < |ts| ==> ts[i].end - ts[i].cur <= |ts[i].data| }

  predicate AllSeparate(ts: seq<Thread>) { forall i, j :: 0 <= i < j < |ts| ==> Separate(ts[i], ts[j]) }

  /** Registering the next block of one thread does not change where all of them
      end up: contents so far and pending pages together stay the goal. */
  lemma {:induction false} FinishStep(pages: Pages, ts: seq<Thread>, i: nat)
    requires Inputs(ts) && AllSeparate(ts) && i < |ts| && !Finished(ts[i]) && !NeedsRead(ts[i])
    requires ts[i].buffer.Holding? ==> ts[i].buffer.page == PageOr(pages, Low(ts[i]))
    ensures Inputs(ts[i := AfterRegister(ts[i])])
    ensures Finish(Put(pages, Block(ts[i])), ts[i := AfterRegister(ts[i])], ts[i].path) == Finish(pages, ts, ts[i].path)
    decreases |ts|
  {
    hide Plan, Put, Block, Low, High;
    var t, c := ts[i], Block(ts[i]);
    var pages' := Put(pages, c);
    var ts' := ts[i := AfterRegister(t)];
    if i == 0 {
      BlockIsHead(pages, t);
      LaterPages(t);
      BlockIndex(t);
      PutAllHead(pages, PlanOf(pages, t));
      PlanAfterPut(pages, c, AfterRegister(t));
      assert ts'[1..] == ts[1..];
    } else {
      var first := ts[0];
      assert Separate(first, t);
      BlockIndex(t);
      assert ts[1..][i - 1] == t && ts'[1..] == ts[1..][i - 1 := AfterRegister(t)];
      if first.path == t.path {
        var plan := PlanOf(pages, first);
        PlanIndices(pages, first);
        LaterPages(t);
        PlanAfterPut(pages, c, first);
        PutCommutes(pages, plan, c);
        PutAllElsewhere(pages, plan, Low(t));
        FinishStep(PutAll(pages, plan), ts[1..], i - 1);
      } else {
        FinishStep(pages, ts[1..], i - 1);
      }
    }
  }

  lemma BlockIndex(t: Thread)
    requires !Finished(t) && t.end - t.cur <= |t.data|
    ensures Block(t).index == Low(t)
  {
  }

  lemma PlanIndices(pages: Pages, t: Thread)
    requires t.end - t.cur <= |t.data|
    ensures forall i :: 0 <= i < |PlanOf(pages, t)| ==> Low(t) <= PlanOf(pages, t)[i].index <= High(t)
    ensures Finished(t) ==> PlanOf(pages, t) == []
  {
  }

  /** Threads on other files do not matter. */
  lemma {:induction false} FinishOther(pages: Pages, ts: seq<Thread>, i: nat, t: Thread, path: string)
    requires Inputs(ts) && i < |ts| && t.end - t.cur <= |t.data| && ts[i].path != path && t.path != path
    ensures Finish(pages, ts[i := t], path) == Finish(pages, ts, path)
    decreases |ts|
  {
    if i == 0 {
      assert ts[i := t][1..] == ts[1..];
    } else {
      assert ts[i := t][1..] == ts[1..][i - 1 := t];
      FinishOther(if ts[0].path == path then PutAll(pages, PlanOf(pages, ts[0])) else pages, ts[1..], i - 1, t, path);
    }
  }

  /** A read changes nothing but the buffer of its thread. */
  lemma {:induction false} FinishRead(pages: Pages, ts: seq<Thread>, i: nat, b: Buffer, path: string)
    requires Inputs(ts) && i < |ts|
    ensures Finish(pages, ts[i := ts[i].(buffer := b)], path) == Finish(pages, ts, path)
    decreases |ts|
  {
    var ts' := ts[i := ts[i].(buffer := b)];
    if i == 0 {
      assert ts'[1..] == ts[1..];
    } else {
      assert ts'[1..] == ts[1..][i - 1 := ts[1..][i - 1].(buffer := b)];
      FinishRead(if ts[0].path == path then PutAll(pages, PlanOf(pages, ts[0])) else pages, ts[1..], i - 1, b, path);
    }
  }

  /** What the file `path` will hold when all threads are through. */
  function Goal(c: Config, path: string): Pages
    requires AllRunnable(c)
  {
    InputsOf(c);
    Finish(PagesOf(c.fs, path), c.threads, path)
  }

  lemma InputsOf(c: Config)
    requires AllRunnable(c)
    ensures Inputs(c.threads)
  {
  }

  /** A thread whose pages are not the one registered stays as it was. */
  lemma ThreadUnaffected(t: Thread, fs: Fs, fs': Fs, c: Chunk, u: set<seq<byte>>)
    requires ThreadOk(t, fs, u) && fs'.metas.Keys == fs.metas.Keys
    requires PagesOf(fs', t.path) == PagesOf(fs, t.path)
             || (PagesOf(fs', t.path) == Put(PagesOf(fs, t.path), c)
                 && (Finished(t) || c.index < Low(t) || High(t) < c.index))
    ensures ThreadOk(t, fs', u)
  {
    hide PagesOf, Plan, Put, Good, Low, High;
    if PagesOf(fs', t.path) != PagesOf(fs, t.path) {
      PlanAfterPut(PagesOf(fs, t.path), c, t);
    }
  }

  /** The thread that registered has the rest of its plan before it. */
  lemma ThreadAdvanced(t: Thread, fs: Fs, fs': Fs, u: set<seq<byte>>)
    requires ThreadOk(t, fs, u) && !Finished(t) && !NeedsRead(t) && fs'.metas.Keys == fs.metas.Keys
    requires PagesOf(fs', t.path) == Put(PagesOf(fs, t.path), Block(t))
    ensures Good([Block(t)], u)
    ensures ThreadOk(AfterRegister(t), fs', u)
  {
    hide PagesOf, Plan, Put, Block, Low, High;
    var pages := PagesOf(fs, t.path);
    BlockIsHead(pages, t);
    BlockIndex(t);
    LaterPages(t);
    PlanAfterPut(pages, Block(t), AfterRegister(t));
    var plan := PlanOf(pages, t);
    forall i | 0 <= i < |plan[1..]|
      ensures plan[1..][i] == plan[i + 1]
    {
    }
  }

  lemma StepReads(c: Config, h: Hash, u: set<seq<byte>>, i: nat)
    requires Ok(c, h, u) && i < |c.threads| && !Finished(c.threads[i]) && NeedsRead(c.threads[i])
    ensures Ok(Step(c, h, i), h, u)
    ensures forall path :: Goal(Step(c, h, i), path) == Goal(c, path)
  {
    hide InvIn, PagesOf, Plan, Good, High, Finish, PageOr;
    var t := c.threads[i];
    var t' := AfterRead(t, PagesOf(c.fs, t.path));
    assert ThreadOk(t, c.fs, u);
    assert PlanOf(PagesOf(c.fs, t.path), t') == PlanOf(PagesOf(c.fs, t.path), t);
    ReadKeepsSeparate(c.threads, i, t'.buffer);
    assert ThreadOk(t', c.fs, u);
    forall j | 0 <= j < |c.threads|
      ensures ThreadOk(Step(c, h, i).threads[j], c.fs, u)
    {
      assert ThreadOk(c.threads[j], c.fs, u);
    }
    forall path
      ensures Goal(Step(c, h, i), path) == Goal(c, path)
    {
      FinishRead(PagesOf(c.fs, path), c.threads, i, t'.buffer, path);
    }
  }

  lemma ReadKeepsSeparate(ts: seq<Thread>, i: nat, b: Buffer)
    requires AllSeparate(ts) && i < |ts|
    ensures AllSeparate(ts[i := ts[i].(buffer := b)])
  {
  }

  lemma AdvanceKeepsSeparate(ts: seq<Thread>, i: nat)
    requires AllSeparate(ts) && i < |ts| && !Finished(ts[i]) && ts[i].end - ts[i].cur <= |ts[i].data|
    ensures AllSeparate(ts[i := AfterRegister(ts[i])])
  {
    hide Low, High;
    var ts' := ts[i := AfterRegister(ts[i])];
    LaterPages(ts[i]);
    forall j, k | 0 <= j < k < |ts'|
      ensures Separate(ts'[j], ts'[k])
    {
      assert Separate(ts[j], ts[k]);
    }
  }

  lemma StepRegisters(c: Config, h: Hash, u: set<seq<byte>>, i: nat)
    requires Ok(c, h, u) && i < |c.threads| && !Finished(c.threads[i]) && !NeedsRead(c.threads[i])
    ensures Ok(Step(c, h, i), h, u)
    ensures forall path :: Goal(Step(c, h, i), path) == Goal(c, path)
  {
    hide InvIn, PagesOf, Plan, Good, Low, High, Finish, PageOr, Block, Register, Put;
    var t := c.threads[i];
    var fs' := Step(c, h, i).fs;
    assert ThreadOk(t, c.fs, u);
    BlockIndex(t);
    BlockGood(t, c.fs, u);
    RegisterPut(c.fs, h, u, t.path, Block(t));
    ThreadAdvanced(t, c.fs, fs', u);
    AdvanceKeepsSeparate(c.threads, i);
    forall j | 0 <= j < |c.threads| && j != i
      ensures ThreadOk(c.threads[j], fs', u)
    {
      assert ThreadOk(c.threads[j], c.fs, u);
      assert if i < j then Separate(t, c.threads[j]) else Separate(c.threads[j], t);
      LaterPages(t);
      ThreadUnaffected(c.threads[j], c.fs, fs', Block(t), u);
    }
    GoalKept(c, h, u, i);
  }

  lemma BlockGood(t: Thread, fs: Fs, u: set<seq<byte>>)
    requires ThreadOk(t, fs, u) && !Finished(t) && !NeedsRead(t)
    ensures Good([Block(t)], u)
  {
    hide Plan, PagesOf, Block;
    BlockIsHead(PagesOf(fs, t.path), t);
  }

  lemma GoalKept(c: Config, h: Hash, u: set<seq<byte>>, i: nat)
    requires Ok(c, h, u)
    requires i < |c.threads| && !Finished(c.threads[i]) && !NeedsRead(c.threads[i])
    ensures forall path :: Goal(Step(c, h, i), path) == Goal(c, path)
  {
    hide InvIn, PagesOf, Plan, Good, Low, High, Finish, PageOr, Block, Register, Put;
    InputsOf(c);
    var t := c.threads[i];
    assert ThreadOk(t, c.fs, u);
    BlockGood(t, c.fs, u);
    RegisterPut(c.fs, h, u, t.path, Block(t));
    forall path
      ensures Goal(Step(c, h, i), path) == Goal(c, path)
    {
      if path == t.path {
        FinishStep(PagesOf(c.fs, path), c.threads, i);
      } else {
        FinishOther(PagesOf(c.fs, path), c.threads, i, AfterRegister(t), path);
      }
    }
  }

  /** Every critical section keeps the invariants of files and store, and keeps
      "contents so far joined with pending pages" equal to the goal. */
  lemma StepKeeps(c: Config, h: Hash, u: set<seq<byte>>, i: nat)
    requires Ok(c, h, u)
    ensures Ok(Step(c, h, i), h, u)
    ensures forall path :: Goal(Step(c, h, i), path) == Goal(c, path)
  {
    hide Ok, Goal;
    if i < |c.threads| && !Finished(c.threads[i]) {
      if NeedsRead(c.threads[i]) {
        StepReads(c, h, u, i);
      } else {
        StepRegisters(c, h, u, i);
      }
    }
  }

  lemma {:induction false} InterleaveKeeps(c: Config, h: Hash, u: set<seq<byte>>, schedule: seq<nat>)
    requires Ok(c, h, u)
    ensures Ok(Interleave(c, h, schedule), h, u)
    ensures forall path :: Goal(Interleave(c, h, schedule), path) == Goal(c, path)
    decreases |schedule|
  {
    hide Ok, Goal, Step;
    if schedule != [] {
      StepKeeps(c, h, u, schedule[0]);
      InterleaveKeeps(Step(c, h, schedule[0]), h, u, schedule[1..]);
    }
  }

  lemma {:induction false} NothingLeft(pages: Pages, ts: seq<Thread>, path: string)
    requires Inputs(ts) && forall i :: 0 <= i < |ts| ==> Finished(ts[i])
    ensures Finish(pages, ts, path) == pages
    decreases |ts|
  {
    if ts != [] {
      PlanIndices(pages, ts[0]);
      NothingLeft(pages, ts[1..], path);
    }
  }

  /** However the critical sections interleave: once all threads are through,
      every file holds the goal, which does not depend on the schedule. */
  lemma AnyInterleaving(c: Config, h: Hash, u: set<seq<byte>>, schedule: seq<nat>, path: string)
    requires Ok(c, h, u) && AllFinished(Interleave(c, h, schedule))
    ensures PagesOf(Interleave(c, h, schedule).fs, path) == Goal(c, path)
  {
    hide Ok, PagesOf;
    InterleaveKeeps(c, h, u, schedule);
    var c' := Interleave(c, h, schedule);
    InputsOf(c');
    NothingLeft(PagesOf(c'.fs, path), c'.threads, path);
  }

  /** At any moment in between, a page of a file is absent or already what it
      will be in the end: no reader sees a torn or a stale page. */
  lemma NoTornPages(c: Config, h: Hash, u: set<seq<byte>>, schedule: seq<nat>, path: string, q: int)
    requires Ok(c, h, u) && q in PagesOf(Interleave(c, h, schedule).fs, path)
    ensures q in Goal(c, path) && PagesOf(Interleave(c, h, schedule).fs, path)[q] == Goal(c, path)[q]
  {
    hide Ok, PagesOf;
    InterleaveKeeps(c, h, u, schedule);
    var c' := Interleave(c, h, schedule);
    InputsOf(c');
    FinishOnlyAdds(PagesOf(c'.fs, path), c'.threads, path);
  }

  lemma {:induction false} FinishOnlyAdds(pages: Pages, ts: seq<Thread>, path: string)
    requires Inputs(ts)
    ensures forall q :: q in pages ==> q in Finish(pages, ts, path) && Finish(pages, ts, path)[q] == pages[q]
    decreases |ts|
  {
    hide PutAll;
    if ts != [] {
      var next := if ts[0].path == path then PutAll(pages, PlanOf(pages, ts[0])) else pages;
      PutAllFrom(pages, PlanOf(pages, ts[0]));
      FinishOnlyAdds(next, ts[1..], path);
    }
  }

  // ----------------------------------------------------------- serial orders

  /** A `bb_write` call that has not begun. */
  predicate Untried(t: Thread) { t.end == t.cur + |t.data| && t.buffer.NotRead? }

  /** The calls of `ts` one after the other, each from beginning to end. */
  function Serial(fs: Fs, h: Hash, ts: seq<Thread>): Fs
    requires forall i :: 0 <= i < |ts| ==> ts[i].path in fs.metas
    decreases |ts|
  {
    if ts == [] then fs
    else
      var fs' := WriteFile(fs, h, ts[0].path, ts[0].cur, ts[0].data);
      RegisterAllKeys(fs, h, ts[0].path,
                      Plan(PagesOf(fs, ts[0].path), ts[0].cur, ts[0].cur + |ts[0].data|, ts[0].data));
      Serial(fs', h, ts[1..])
  }

  function Pick(ts: seq<Thread>, order: seq<nat>): (r: seq<Thread>)
    requires forall i :: 0 <= i < |order| ==> order[i] < |ts|
    ensures |r| == |order| && forall i :: 0 <= i < |r| ==> r[i] == ts[order[i]]
  {
    seq(|order|, i requires 0 <= i < |order| => ts[order[i]])
  }

  /** `order` names every thread once. */
  predicate IsOrder(order: seq<nat>, n: nat) {
    && (forall i :: 0 <= i < |order| ==> order[i] < n)
    && (forall i, j :: 0 <= i < j < |order| ==> order[i] != order[j])
    && (forall k :: 0 <= k < n ==> k in order)
  }

  lemma {:induction false} InterleaveConcat(c: Config, h: Hash, a: seq<nat>, b: seq<nat>)
    requires AllRunnable(c)
    ensures Interleave(c, h, a + b) == Interleave(Interleave(c, h, a), h, b)
    decreases |a|
  {
    hide Step;
    if a == [] {
      assert a + b == b;
    } else {
      assert (a + b)[0] == a[0] && (a + b)[1..] == a[1..] + b;
      InterleaveConcat(Step(c, h, a[0]), h, a[1..], b);
    }
  }

  /** A registration does the first chunk of the plan of its thread. */
  lemma StepPlan(c: Config, h: Hash, u: set<seq<byte>>, i: nat)
    requires Ok(c, h, u) && i < |c.threads| && !Finished(c.threads[i]) && !NeedsRead(c.threads[i])
    ensures var t := c.threads[i];
            var fs' := Step(c, h, i).fs;
            t.path in c.fs.metas && t.path in fs'.metas
            && RegisterAll(c.fs, h, t.path, PlanOf(PagesOf(c.fs, t.path), t))
               == RegisterAll(fs', h, t.path, PlanOf(PagesOf(fs', t.path), AfterRegister(t)))
  {
    hide InvIn, PagesOf, Plan, Good, Low, High, PageOr, Block, Register, Put, RegisterAll, Separate;
    var t := c.threads[i];
    var fs' := Step(c, h, i).fs;
    assert ThreadOk(t, c.fs, u);
    BlockGood(t, c.fs, u);
    BlockIsHead(PagesOf(c.fs, t.path), t);
    BlockIndex(t);
    RegisterPut(c.fs, h, u, t.path, Block(t));
    LaterPages(t);
    PlanAfterPut(PagesOf(c.fs, t.path), Block(t), AfterRegister(t));
    RegisterAllHead(c.fs, h, t.path, PlanOf(PagesOf(c.fs, t.path), t));
  }

  /** What is left of a thread's plan, carried out. */
  function Rest(c: Config, h: Hash, i: nat): Fs
    requires AllRunnable(c) && i < |c.threads|
  {
    assert Runnable(c.threads[i], c.fs);
    var t := c.threads[i];
    RegisterAll(c.fs, h, t.path, PlanOf(PagesOf(c.fs, t.path), t))
  }

  /** A critical section brings its thread nearer to its end, leaves the other
      threads alone, and leaves the rest of the plan to come to the same. */
  lemma TowardsEnd(c: Config, h: Hash, u: set<seq<byte>>, i: nat)
    requires Ok(c, h, u) && i < |c.threads| && !Finished(c.threads[i])
    ensures var c1, t := Step(c, h, i), c.threads[i];
            && c1.threads == c.threads[i := c1.threads[i]]
            && Rest(c1, h, i) == Rest(c, h, i)
            && c1.threads[i].end == t.end
            && (t.cur < c1.threads[i].cur
                || (t.cur == c1.threads[i].cur && t.buffer.NotRead? && c1.threads[i].buffer.Holding?))
  {
    hide Ok, PagesOf, Plan, Low, PageOr, Block, Register, RegisterAll, AfterRegister;
    if !NeedsRead(c.threads[i]) {
      StepPlan(c, h, u, i);
    }
  }

  /** Left alone, a thread carries out its whole plan. */
  lemma {:induction false} Alone(c: Config, h: Hash, u: set<seq<byte>>, i: nat) returns (schedule: seq<nat>)
    requires Ok(c, h, u) && i < |c.threads|
    ensures var c' := Interleave(c, h, schedule);
            && c'.fs == Rest(c, h, i)
            && Finished(c'.threads[i])
            && c'.threads == c.threads[i := c'.threads[i]]
            && Ok(c', h, u)
    decreases c.threads[i].end - c.threads[i].cur, if c.threads[i].buffer.NotRead? then 1 else 0
  {
    hide Ok, Rest, Step;
    if Finished(c.threads[i]) {
      NoRest(c, h, i);
      schedule := [];
    } else {
      StepKeeps(c, h, u, i);
      TowardsEnd(c, h, u, i);
      var rest := Alone(Step(c, h, i), h, u, i);
      schedule := [i] + rest;
      InterleaveConcat(c, h, [i], rest);
      assert Interleave(c, h, [i]) == Step(c, h, i);
    }
  }

  lemma NoRest(c: Config, h: Hash, i: nat)
    requires AllRunnable(c) && i < |c.threads| && Finished(c.threads[i])
    ensures Rest(c, h, i) == c.fs
  {
    assert Runnable(c.threads[i], c.fs);
    PlanIndices(PagesOf(c.fs, c.threads[i].path), c.threads[i]);
  }

  /** Every serial order is one of the schedules. */
  lemma {:induction false} SerialSchedule(c: Config, h: Hash, u: set<seq<byte>>, order: seq<nat>)
      returns (schedule: seq<nat>)
    requires Ok(c, h, u)
    requires forall i :: 0 <= i < |order| ==> order[i] < |c.threads| && Untried(c.threads[order[i]])
    requires forall i, j :: 0 <= i < j < |order| ==> order[i] != order[j]
    ensures forall i :: 0 <= i < |order| ==> Pick(c.threads, order)[i].path in c.fs.metas
    ensures Interleave(c, h, schedule).fs == Serial(c.fs, h, Pick(c.threads, order))
    ensures forall k :: 0 <= k < |c.threads| && (k in order || Finished(c.threads[k])) ==>
              Finished(Interleave(c, h, schedule).threads[k])
    decreases |order|
  {
    hide Ok, PagesOf, Plan, RegisterAll, Untried, WriteFile, Rest, Interleave, Serial;
    PathsKnown(c, order);
    if order == [] {
      schedule := [];
      NothingToDo(c, h);
    } else {
      var t := c.threads[order[0]];
      var first := Alone(c, h, u, order[0]);
      var c1 := Interleave(c, h, first);
      UntriedRest(c, h, order[0]);
      assert forall i :: 0 <= i < |order[1..]| ==> order[1..][i] == order[i + 1] && order[i + 1] != order[0];
      var rest := SerialSchedule(c1, h, u, order[1..]);
      SerialHead(c.fs, h, Pick(c.threads, order));
      assert Pick(c1.threads, order[1..]) == Pick(c.threads, order)[1..];
      schedule := first + rest;
      InterleaveConcat(c, h, first, rest);
      forall k | 0 <= k < |c.threads| && (k in order || Finished(c.threads[k]))
        ensures Finished(Interleave(c, h, schedule).threads[k])
      {
        assert k == order[0] || k in order[1..] || Finished(c1.threads[k]);
      }
    }
  }

  lemma NothingToDo(c: Config, h: Hash)
    requires AllRunnable(c)
    ensures Interleave(c, h, []) == c && Serial(c.fs, h, []) == c.fs
  {
  }

  lemma SerialHead(fs: Fs, h: Hash, ts: seq<Thread>)
    requires ts != [] && forall i :: 0 <= i < |ts| ==> ts[i].path in fs.metas
    ensures var fs' := WriteFile(fs, h, ts[0].path, ts[0].cur, ts[0].data);
            && (forall i :: 0 <= i < |ts[1..]| ==> ts[1..][i].path in fs'.metas)
            && Serial(fs, h, ts) == Serial(fs', h, ts[1..])
  {
    hide RegisterAll, Plan, PagesOf;
    RegisterAllKeys(fs, h, ts[0].path,
                    Plan(PagesOf(fs, ts[0].path), ts[0].cur, ts[0].cur + |ts[0].data|, ts[0].data));
  }

  lemma UntriedRest(c: Config, h: Hash, i: nat)
    requires AllRunnable(c) && i < |c.threads| && Untried(c.threads[i])
    ensures var t := c.threads[i];
            t.path in c.fs.metas && Rest(c, h, i) == WriteFile(c.fs, h, t.path, t.cur, t.data)
  {
    hide RegisterAll, Plan, PagesOf;
    assert Runnable(c.threads[i], c.fs);
  }

  lemma PathsKnown(c: Config, order: seq<nat>)
    requires AllRunnable(c) && forall i :: 0 <= i < |order| ==> order[i] < |c.threads|
    ensures forall i :: 0 <= i < |order| ==> Pick(c.threads, order)[i].path in c.fs.metas
  {
    forall i | 0 <= i < |order|
      ensures Pick(c.threads, order)[i].path in c.fs.metas
    {
      assert Runnable(c.threads[order[i]], c.fs);
    }
  }

  /** Concurrent writes to different pages end with the contents of every serial
      order of the same `bb_write` calls, under every interleaving. */
  lemma InterleavedIsSerial(c: Config, h: Hash, u: set<seq<byte>>, schedule: seq<nat>, order: seq<nat>, path: string)
    requires Ok(c, h, u) && AllFinished(Interleave(c, h, schedule))
    requires (forall i :: 0 <= i < |c.threads| ==> Untried(c.threads[i])) && IsOrder(order, |c.threads|)
    ensures forall i :: 0 <= i < |order| ==> Pick(c.threads, order)[i].path in c.fs.metas
    ensures PagesOf(Interleave(c, h, schedule).fs, path) == PagesOf(Serial(c.fs, h, Pick(c.threads, order)), path)
  {
    hide Ok, PagesOf, Goal, Serial, Untried;
    PathsKnown(c, order);
    var serial := SerialSchedule(c, h, u, order);
    AnyInterleaving(c, h, u, schedule, path);
    AnyInterleaving(c, h, u, serial, path);
  }

  // --------------------------------------------------------- bytes and sizes

  /** No page that the thread has yet to register is in the file. */
  predicate OnNewPages(t: Thread, pages: Pages) {
    !Finished(t) ==> forall q :: Low(t) <= q <= High(t) ==> q !in pages
  }

  lemma WrittenPages(pages: Pages, t: Thread, u: Thread)
    requires Untried(t) && OnNewPages(u, pages) && Separate(t, u) && t.path == u.path
    ensures PutAll(pages, PlanOf(pages, t)) == WritePages(pages, t.cur, t.data)
    ensures OnNewPages(u, PutAll(pages, PlanOf(pages, t)))
  {
    hide Plan, PutAll;
    PlanIndices(pages, t);
    PutAllFrom(pages, PlanOf(pages, t));
  }

  /** Where a request of `ts` covers byte `k` of `path`, the goal has its byte. */
  lemma {:induction false} FinishBytes(pages: Pages, ts: seq<Thread>, path: string, k: nat)
    requires Inputs(ts) && AllSeparate(ts)
    requires forall i :: 0 <= i < |ts| ==> Untried(ts[i]) && Shaped(ts[i].cur, |ts[i].data|)
    requires forall i :: 0 <= i < |ts| && ts[i].path == path ==> OnNewPages(ts[i], pages)
    ensures forall i :: 0 <= i < |ts| && ts[i].path == path && ts[i].cur <= k < ts[i].end ==>
              ByteAt(Finish(pages, ts, path), k) == ts[i].data[k - ts[i].cur]
    ensures (forall i :: 0 <= i < |ts| && ts[i].path == path ==> !(ts[i].cur <= k < ts[i].end)) ==>
              ByteAt(Finish(pages, ts, path), k) == ByteAt(pages, k)
    decreases |ts|
  {
    hide ByteAt, Plan, PutAll, WritePages, Shaped, OnNewPages, Separate;
    if ts != [] {
      var t, rest := ts[0], ts[1..];
      var next := if t.path == path then PutAll(pages, PlanOf(pages, t)) else pages;
      forall i, j | 0 <= i < j < |rest|
        ensures Separate(rest[i], rest[j])
      {
        assert Separate(ts[i + 1], ts[j + 1]);
      }
      forall i | 0 <= i < |rest|
        ensures Untried(rest[i]) && Shaped(rest[i].cur, |rest[i].data|)
        ensures rest[i].path == path ==> OnNewPages(rest[i], next)
      {
        assert ts[i + 1] == rest[i] && Separate(t, ts[i + 1]);
        if t.path == path == rest[i].path {
          WrittenPages(pages, t, rest[i]);
        }
      }
      FinishBytes(next, rest, path, k);
      if t.path == path {
        FirstWritten(pages, t, k);
        OtherwiseCovered(ts, path, k);
      }
      forall i | 0 <= i < |rest|
        ensures rest[i] == ts[i + 1]
      {
      }
    }
  }

  lemma FirstWritten(pages: Pages, t: Thread, k: nat)
    requires Untried(t) && Shaped(t.cur, |t.data|) && OnNewPages(t, pages)
    ensures ByteAt(PutAll(pages, PlanOf(pages, t)), k)
            == if t.cur <= k < t.end then t.data[k - t.cur] else ByteAt(pages, k)
  {
    hide ByteAt, Shaped;
    WriteIsPositioned(pages, t.cur, t.data);
  }

  lemma CoveredPage(t: Thread, k: nat)
    ensures t.cur <= k < t.end ==> Low(t) <= k / BLOCK_SIZE <= High(t)
  {
  }

  /** No byte is covered by two requests. */
  lemma OtherwiseCovered(ts: seq<Thread>, path: string, k: nat)
    requires AllSeparate(ts) && ts != [] && ts[0].path == path
    ensures ts[0].cur <= k < ts[0].end ==>
              forall i :: 0 < i < |ts| && ts[i].path == path ==> !(ts[i].cur <= k < ts[i].end)
  {
    hide Low, High;
    CoveredPage(ts[0], k);
    forall i | 0 < i < |ts| && ts[i].path == path
      ensures !(ts[0].cur <= k < ts[0].end && ts[i].cur <= k < ts[i].end)
    {
      assert Separate(ts[0], ts[i]);
      CoveredPage(ts[i], k);
    }
  }

  /** Every interleaving of well-shaped writes to new, different pages leaves
      every byte of every file as the one request that covers it says, and the
      bytes that none covers as they were. */
  lemma InterleavedBytes(c: Config, h: Hash, u: set<seq<byte>>, schedule: seq<nat>, path: string, k: nat)
    requires Ok(c, h, u) && AllFinished(Interleave(c, h, schedule))
    requires forall i :: 0 <= i < |c.threads| ==> Untried(c.threads[i]) && Shaped(c.threads[i].cur, |c.threads[i].data|)
    requires forall i :: 0 <= i < |c.threads| ==> OnNewPages(c.threads[i], PagesOf(c.fs, c.threads[i].path))
    ensures forall i ::
              0 <= i < |c.threads| && c.threads[i].path == path && c.threads[i].cur <= k < c.threads[i].end ==>
              ByteAt(PagesOf(Interleave(c, h, schedule).fs, path), k) == c.threads[i].data[k - c.threads[i].cur]
    ensures (forall i ::
               0 <= i < |c.threads| && c.threads[i].path == path ==> !(c.threads[i].cur <= k < c.threads[i].end)) ==>
              ByteAt(PagesOf(Interleave(c, h, schedule).fs, path), k) == ByteAt(PagesOf(c.fs, path), k)
  {
    hide PagesOf, ByteAt, Shaped, OnNewPages, Finish, ThreadOk, InvIn, Separate;
    InputsOf(c);
    AnyInterleaving(c, h, u, schedule, path);
    FinishBytes(PagesOf(c.fs, path), c.threads, path, k);
  }

  /** While threads write new pages, sizes stay exact step by step. */
  lemma StepSizes(c: Config, h: Hash, u: set<seq<byte>>, i: nat, path: string)
    requires Ok(c, h, u) && SizeExact(c.fs, path)
    requires forall j :: 0 <= j < |c.threads| ==> OnNewPages(c.threads[j], PagesOf(c.fs, c.threads[j].path))
    ensures SizeExact(Step(c, h, i).fs, path)
    ensures forall j :: 0 <= j < |c.threads| ==>
              OnNewPages(Step(c, h, i).threads[j], PagesOf(Step(c, h, i).fs, Step(c, h, i).threads[j].path))
  {
    hide InvIn, PagesOf, Plan, Good, Block, PageOr, Total;
    if i < |c.threads| && !Finished(c.threads[i]) && !NeedsRead(c.threads[i]) {
      var t := c.threads[i];
      var fs' := Step(c, h, i).fs;
      assert ThreadOk(t, c.fs, u);
      BlockGood(t, c.fs, u);
      BlockIndex(t);
      LaterPages(t);
      GoodHead(Block(t), u);
      RegisterPut(c.fs, h, u, t.path, Block(t));
      RegisterSize(c.fs, h, u, t.path, Block(t), path);
      forall j | 0 <= j < |c.threads|
        ensures OnNewPages(Step(c, h, i).threads[j], PagesOf(fs', c.threads[j].path))
      {
        if j < i {
          assert Separate(c.threads[j], t);
        } else if i < j {
          assert Separate(t, c.threads[j]);
        }
      }
    }
  }

  lemma GoodHead(c: Chunk, u: set<seq<byte>>)
    requires Good([c], u)
    ensures 0 <= c.index < PAGE_LIMIT && 1 <= |c.data| <= BLOCK_SIZE && c.data in u
  {
    assert [c][0] == c;
  }

  lemma RegisterSize(fs: Fs, h: Hash, u: set<seq<byte>>, file: string, c: Chunk, path: string)
    requires InvIn(fs, h, u) && file in fs.metas && c.index !in PagesOf(fs, file)
    requires 0 <= c.index < PAGE_LIMIT && 1 <= |c.data| <= BLOCK_SIZE && c.data in u
    requires SizeExact(fs, path)
    ensures SizeExact(Register(fs, h, file, c.index, c.data), path)
  {
    hide PagesOf, Total, Registered, Inv;
    RegisterPages(fs, h, file, c.index, c.data);
    if file == path {
      StoredSame(fs, h, u, c.data);
      NewPageSize(fs, h, path, c.index, c.data);
    }
  }

  /** The size field of a file after all threads are through does not depend on
      the interleaving: it is the number of payload bytes of the goal. */
  lemma {:induction false} InterleavedSizes(c: Config, h: Hash, u: set<seq<byte>>, schedule: seq<nat>, path: string)
    requires Ok(c, h, u) && AllFinished(Interleave(c, h, schedule)) && SizeExact(c.fs, path)
    requires forall j :: 0 <= j < |c.threads| ==> OnNewPages(c.threads[j], PagesOf(c.fs, c.threads[j].path))
    ensures path in Interleave(c, h, schedule).fs.metas
    ensures Interleave(c, h, schedule).fs.metas[path].size == Total(Goal(c, path))
    decreases |schedule|
  {
    hide Ok, PagesOf, Goal, Step, OnNewPages, Total;
    AnyInterleaving(c, h, u, schedule, path);
    if schedule != [] {
      StepKeeps(c, h, u, schedule[0]);
      StepSizes(c, h, u, schedule[0], path);
      InterleavedSizes(Step(c, h, schedule[0]), h, u, schedule[1..], path);
    }
  }
}
