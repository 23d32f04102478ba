/** The size field of a file against the pages the file has. */
module Sizes {
  import opened Bytes
  import opened PairList
  import opened Naming
  import opened Storage
  import opened Contents
  import opened Sparse

  function PageLen(pages: Pages, q: int): nat { if q in pages then |pages[q]| else 0 }

  /** The number of payload bytes in pages 0 to n - 1. */
  function SumBelow(pages: Pages, n: nat): nat {
    if n == 0 then 0 else SumBelow(pages, n - 1) + PageLen(pages, n - 1)
  }

  /** All payload bytes of a file. */
  function Total(pages: Pages): nat { SumBelow(pages, PAGE_LIMIT) }

  predicate InRange(pages: Pages) {
    forall q :: q in pages ==> 0 <= q < PAGE_LIMIT && 1 <= |pages[q]| <= BLOCK_SIZE
  }

  lemma {:induction false} SumPut(pages: Pages, q: nat, d: seq<byte>, n: nat)
    requires q !in pages
    ensures SumBelow(pages[q := d], n) == SumBelow(pages, n) + if q < n then |d| else 0
  {
    if n > 0 {
      SumPut(pages, q, d, n - 1);
    }
  }

  lemma {:induction false} SumBound(pages: Pages, n: nat)
    requires InRange(pages)
    ensures SumBelow(pages, n) <= BLOCK_SIZE * n
  {
    if n > 0 {
      SumBound(pages, n - 1);
    }
  }

  lemma {:induction false} SumFull(pages: Pages, n: nat)
    requires InRange(pages)
    ensures SumBelow(pages, n) == BLOCK_SIZE * n
            <==> forall q :: 0 <= q < n ==> q in pages && |pages[q]| == BLOCK_SIZE
  {
    if n > 0 {
      SumBound(pages, n - 1);
      SumFull(pages, n - 1);
      if SumBelow(pages, n) == BLOCK_SIZE * n {
        assert PageLen(pages, n - 1) == BLOCK_SIZE;
      }
      if forall q :: 0 <= q < n ==> q in pages && |pages[q]| == BLOCK_SIZE {
        assert n - 1 in pages;
      }
    }
  }

  lemma {:induction false} SumAbove(pages: Pages, n: nat, m: nat)
    requires n <= m && forall q :: n <= q ==> q !in pages
    ensures SumBelow(pages, m) == SumBelow(pages, n)
    decreases m
  {
    if n < m {
      SumAbove(pages, n, m - 1);
    }
  }

  /** The payload bytes of a file whose last page is `last` reach at most to the
      end of that page, and exactly there if and only if there are no holes. */
  lemma TotalAgainstEnd(pages: Pages, last: nat)
    requires InRange(pages) && last in pages && forall q :: q in pages ==> q <= last
    ensures Total(pages) <= BLOCK_SIZE * last + |pages[last]|
    ensures Total(pages) == BLOCK_SIZE * last + |pages[last]|
            <==> forall q :: 0 <= q < last ==> q in pages && |pages[q]| == BLOCK_SIZE
  {
    SumAbove(pages, last + 1, PAGE_LIMIT);
    SumBound(pages, last);
    SumFull(pages, last);
  }

  /** The header says how many payload bytes the file has. */
  predicate SizeExact(fs: Fs, path: string) {
    path in fs.metas && fs.metas[path].size == Total(PagesOf(fs, path))
  }

  lemma PagesInRange(fs: Fs, h: Hash, path: string)
    requires Inv(fs, h)
    ensures InRange(PagesOf(fs, path))
  {
    if path in fs.metas {
      var ps := fs.metas[path].pairs;
      forall q | q in PagesOf(fs, path)
        ensures 0 <= q < PAGE_LIMIT
      {
        assert ps[Find(ps, q)].index == q;
      }
    }
  }

  /** The size field after any registration, whatever it was before. */
  lemma SizeField(fs: Fs, h: Hash, path: string, index: int, data: seq<byte>)
    requires Inv(fs, h) && path in fs.metas
    ensures Register(fs, h, path, index, data).metas[path].size
            == Wrap(fs.metas[path].size + |data|
                    - if index in PagesOf(fs, path) then |PagesOf(fs, path)[index]| + 8 else 0)
  {
    hide PagesOf, Name, Find, Inv;
    NewPage(fs, h, path, index);
    if index in PagesOf(fs, path) {
      OldSize(fs, h, path, index, data);
    }
  }

  /** Registering a new page keeps the size exact, and never overflows it. */
  lemma NewPageSize(fs: Fs, h: Hash, path: string, index: int, data: seq<byte>)
    requires Inv(fs, h) && SizeExact(fs, path) && 0 <= index < PAGE_LIMIT && 1 <= |data| <= BLOCK_SIZE
    requires index !in PagesOf(fs, path)
    requires Name(h(data)) in fs.blocks ==> fs.blocks[Name(h(data))].data == data
    ensures SizeExact(Register(fs, h, path, index, data), path)
    ensures Register(fs, h, path, index, data).metas[path].size == fs.metas[path].size + |data|
  {
    hide SumBelow, PagesOf, Name, Find, Inv, Register;
    var fs' := Register(fs, h, path, index, data);
    RegisterPages(fs, h, path, index, data);
    PagesInRange(fs', h, path);
    SumPut(PagesOf(fs, path), index, data, PAGE_LIMIT);
    SumBound(PagesOf(fs', path), PAGE_LIMIT);
    SizeField(fs, h, path, index, data);
  }

  lemma NewPage(fs: Fs, h: Hash, path: string, index: int)
    requires Inv(fs, h) && path in fs.metas
    ensures index in PagesOf(fs, path) <==> Find(fs.metas[path].pairs, index) < |fs.metas[path].pairs|
  {
    hide Find, Name;
    PagesKeys(fs.metas[path], fs.blocks, index);
  }

  /** Registering a page that is there changes no page, but the size moves by the
      difference to the whole block file, counter included: it stays exact if and
      only if the new payload is 8 bytes longer than the old one. */
  lemma RewriteSize(fs: Fs, h: Hash, path: string, index: int, data: seq<byte>)
    requires Inv(fs, h) && SizeExact(fs, path) && 0 <= index < PAGE_LIMIT && 1 <= |data| <= BLOCK_SIZE
    requires index in PagesOf(fs, path)
    ensures var fs' := Register(fs, h, path, index, data);
            && PagesOf(fs', path) == PagesOf(fs, path)
            && fs'.metas[path].size == Wrap(fs.metas[path].size - (REF_SIZE + |PagesOf(fs, path)[index]|) + |data|)
            && (SizeExact(fs', path) <==> |data| == |PagesOf(fs, path)[index]| + REF_SIZE)
  {
    hide SumBelow, Name, Find, Inv, Total, Register, PagesOf;
    RegisterPages(fs, h, path, index, data);
    PagesInRange(fs, h, path);
    SizeField(fs, h, path, index, data);
    TotalSmall(PagesOf(fs, path));
  }

  lemma TotalSmall(pages: Pages)
    requires InRange(pages)
    ensures Total(pages) <= TWO63 - BLOCK_SIZE
  {
    SumBound(pages, PAGE_LIMIT);
  }

  lemma OldSize(fs: Fs, h: Hash, path: string, index: int, data: seq<byte>)
    requires Inv(fs, h) && path in fs.metas && index in PagesOf(fs, path)
    ensures var ps := fs.metas[path].pairs;
            && Find(ps, index) < |ps|
            && BlockFileSize(WithBlock(fs.blocks, h, data), ps[Find(ps, index)].digest)
               == REF_SIZE + |PagesOf(fs, path)[index]|
  {
    hide Name, Find;
    NewPage(fs, h, path, index);
  }

  // ------------------------------------------------------------------- drift

  /** How far the size field moves away from the payload bytes when `c` is
      registered: by nothing for a new page, and for a page that is there by the
      new length less the old one and less the 8 bytes of the block's counter. */
  function ChunkDrift(pages: Pages, c: Chunk): int {
    if c.index in pages then |c.data| - |pages[c.index]| - 8 else 0
  }

  function Drift(pages: Pages, chunks: seq<Chunk>): int
    decreases |chunks|
  {
    if chunks == [] then 0 else ChunkDrift(pages, chunks[0]) + Drift(Put(pages, chunks[0]), chunks[1..])
  }

  lemma WrapSum(v: int, w: int)
    ensures Wrap(Wrap(v) + w) == Wrap(v + w)
  {
    assert (v - Wrap(v)) % TWO64 == 0;
  }

  lemma SizeFits(fs: Fs, h: Hash, path: string)
    requires Inv(fs, h) && path in fs.metas
    ensures FitsOff(fs.metas[path].size)
  {
  }

  lemma PutTotal(pages: Pages, c: Chunk)
    requires 0 <= c.index < PAGE_LIMIT
    ensures Total(Put(pages, c)) == Total(pages) + if c.index in pages then 0 else |c.data|
  {
    hide SumBelow;
    if c.index !in pages {
      SumPut(pages, c.index, c.data, PAGE_LIMIT);
    }
  }

  /** The size field after any registrations, of new pages and of old ones: it moves
      with the payload bytes and the drift. */
  lemma {:induction false} WriteSizes(fs: Fs, h: Hash, u: set<seq<byte>>, path: string, chunks: seq<Chunk>)
    requires InvIn(fs, h, u) && path in fs.metas && Good(chunks, u)
    ensures path in RegisterAll(fs, h, path, chunks).metas
    ensures var pages := PagesOf(fs, path);
            RegisterAll(fs, h, path, chunks).metas[path].size
            == Wrap(fs.metas[path].size + Total(PutAll(pages, chunks)) - Total(pages) + Drift(pages, chunks))
    decreases |chunks|
  {
    hide PagesOf, Register, Name, Total, Wrap, Inv, Put;
    SizeFits(fs, h, path);
    if chunks != [] {
      var c, rest := chunks[0], chunks[1..];
      assert c == [c][0] && Good([c], u);
      var fs', pages := Register(fs, h, path, c.index, c.data), PagesOf(fs, path);
      RegisterPut(fs, h, u, path, c);
      SizeField(fs, h, path, c.index, c.data);
      PutTotal(pages, c);
      WriteSizes(fs', h, u, path, rest);
      WrapSum(fs.metas[path].size + Total(Put(pages, c)) - Total(pages) + ChunkDrift(pages, c),
              Total(PutAll(pages, chunks)) - Total(Put(pages, c)) + Drift(Put(pages, c), rest));
    }
  }

  lemma {:induction false} NoDrift(pages: Pages, chunks: seq<Chunk>)
    requires Increasing(chunks) && forall i :: 0 <= i < |chunks| ==> chunks[i].index !in pages
    ensures Drift(pages, chunks) == 0
    decreases |chunks|
  {
    if chunks != [] {
      NoDrift(Put(pages, chunks[0]), chunks[1..]);
    }
  }

  /** Over a whole `bb_write` on new pages: the size grows by the payloads. */
  lemma {:induction false} NewPagesSize(fs: Fs, h: Hash, u: set<seq<byte>>, path: string, chunks: seq<Chunk>)
    requires InvIn(fs, h, u) && SizeExact(fs, path) && Good(chunks, u)
    requires forall i :: 0 <= i < |chunks| ==> chunks[i].index !in PagesOf(fs, path)
    requires forall i, j :: 0 <= i < j < |chunks| ==> chunks[i].index != chunks[j].index
    ensures SizeExact(RegisterAll(fs, h, path, chunks), path)
    ensures RegisterAll(fs, h, path, chunks).metas[path].size == fs.metas[path].size + |Joined(chunks)|
    decreases |chunks|
  {
    hide PagesOf, Register, Name, Total;
    if chunks != [] {
      var c, rest := chunks[0], chunks[1..];
      assert c == [c][0] && Good([c], u);
      StoredSame(fs, h, u, c.data);
      NewPageSize(fs, h, path, c.index, c.data);
      RegisterPut(fs, h, u, path, c);
      NewPagesSize(Register(fs, h, path, c.index, c.data), h, u, path, rest);
    }
  }

  lemma StoredSame(fs: Fs, h: Hash, u: set<seq<byte>>, data: seq<byte>)
    requires InvIn(fs, h, u) && data in u
    ensures Name(h(data)) in fs.blocks ==> fs.blocks[Name(h(data))].data == data
  {
    hide Name;
    if Name(h(data)) in fs.blocks {
      BlockName(fs, h, Name(h(data)));
    }
  }

  predicate Increasing(chunks: seq<Chunk>) {
    forall i, j :: 0 <= i < j < |chunks| ==> chunks[i].index < chunks[j].index
  }

  lemma IncreasingCons(c: Chunk, rest: seq<Chunk>)
    requires Increasing(rest) && forall i :: 0 <= i < |rest| ==> c.index < rest[i].index
    ensures Increasing([c] + rest)
  {
  }

  /** The pages of a plan come in increasing order. */
  lemma {:induction false} PlanIncreasing(pages: Pages, cur: nat, end: nat, data: seq<byte>)
    requires end - cur <= |data|
    ensures Increasing(Plan(pages, cur, end, data))
    decreases end - cur
  {
    hide Increasing, Plan, Lead;
    if cur >= end {
      PlanEmpty(pages, cur, end, data);
      NothingIncreasing();
    } else {
      var rem := cur % BLOCK_SIZE;
      var right := Min(BLOCK_SIZE, rem + end - cur);
      var first := Chunk(cur / BLOCK_SIZE, Lead(pages, cur / BLOCK_SIZE, rem) + data[..right - rem]);
      var rest := Plan(pages, cur + right, end, data[right - rem..]);
      PlanHead(pages, cur, end, data);
      PlanIncreasing(pages, cur + right, end, data[right - rem..]);
      if cur + right < end {
        PageAfter(cur);
      } else {
        PlanEmpty(pages, cur + right, end, data[right - rem..]);
      }
      IncreasingCons(first, rest);
    }
  }

  lemma NothingIncreasing()
    ensures Increasing([])
  {
  }

  /** Writing one file leaves the headers of the others alone. */
  lemma {:induction false} OtherHeaders(fs: Fs, h: Hash, path: string, chunks: seq<Chunk>, other: string)
    requires path in fs.metas && other in fs.metas && other != path
    ensures RegisterAll(fs, h, path, chunks).metas.Keys == fs.metas.Keys
    ensures RegisterAll(fs, h, path, chunks).metas[other] == fs.metas[other]
    decreases |chunks|
  {
    if chunks != [] {
      OtherHeaders(Register(fs, h, path, chunks[0].index, chunks[0].data), h, path, chunks[1..], other);
    }
  }

  lemma NoPagesNoBytes()
    ensures Total(map[]) == 0
  {
    SumAbove(map[], 0, PAGE_LIMIT);
  }
}
