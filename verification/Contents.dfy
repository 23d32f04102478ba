/** What the disk means: a store of immutable blocks named by digest, and for
    every file its list of pairs.  The methods of Cfs and Bbfs are proved against
    the functions of this module. */
module Contents {
  import opened Bytes
  import opened PairList
  import opened Naming
  import opened Storage

  /** SHA-1, of which nothing is known. */
  type Hash = seq<byte> -> Digest

  datatype Block = Block(refs: nat, data: seq<byte>)

  type Blocks = map<string, Block>

  datatype Fs = Fs(blocks: Blocks, metas: map<string, Meta>)

  /** The pages of one file that are present, by page number. */
  type Pages = map<int, seq<byte>>

  /** One more than the largest page number of a request that ends in the range
      of `off_t`, page boundary included. */
  const PAGE_LIMIT: int := 0x7_FFFF_FFFF_FFFF

  const EMPTY: Fs := Fs(map[], map[])

  predicate BlocksOk(blocks: Blocks, h: Hash) {
    forall n :: n in blocks ==> n == Name(h(blocks[n].data)) && 1 <= |blocks[n].data| <= BLOCK_SIZE
  }

  /** Page numbers are distinct and in range, and no digest dangles. */
  predicate MetaOk(m: Meta, blocks: Blocks) {
    && FitsOff(m.size)
    && Distinct(m.pairs)
    && forall i :: 0 <= i < |m.pairs| ==>
         0 <= m.pairs[i].index < PAGE_LIMIT && Name(m.pairs[i].digest) in blocks
  }

  predicate Inv(fs: Fs, h: Hash) {
    && BlocksOk(fs.blocks, h)
    && forall p :: p in fs.metas ==> MetaOk(fs.metas[p], fs.blocks)
  }

  /** The number of blocks of a file cannot outgrow its field. */
  lemma MetaFits(m: Meta, blocks: Blocks)
    requires MetaOk(m, blocks)
    ensures Fits(m) && |m.pairs| <= PAGE_LIMIT
  {
    DistinctBounded(m.pairs, PAGE_LIMIT);
  }

  // ---------------------------------------------------------------- register

  /** The store after `store_block`. */
  function WithBlock(blocks: Blocks, h: Hash, data: seq<byte>): Blocks {
    if Name(h(data)) in blocks then blocks else blocks[Name(h(data)) := Block(1, data)]
  }

  /** `block_get_size`: it counts the 8-byte counter too. */
  function BlockFileSize(blocks: Blocks, d: Digest): int {
    if Name(d) in blocks then REF_SIZE + |blocks[Name(d)].data| else -1
  }

  /** The pair list after `len` bytes with digest `d` are registered at `index`:
      for a page that is present only the size changes. */
  function Registered(m: Meta, blocks: Blocks, index: int, d: Digest, len: nat): Meta {
    var k := Find(m.pairs, index);
    if k < |m.pairs| then Meta(Wrap(m.size - BlockFileSize(blocks, m.pairs[k].digest) + len), m.pairs)
    else Meta(Wrap(m.size + len), m.pairs + [Pair(index, d)])
  }

  /** `cfs_file_register_block`. */
  function Register(fs: Fs, h: Hash, path: string, index: int, data: seq<byte>): Fs
    requires path in fs.metas
  {
    var blocks := WithBlock(fs.blocks, h, data);
    Fs(blocks, fs.metas[path := Registered(fs.metas[path], blocks, index, h(data), |data|)])
  }

  /** What `cfs_file_read_block` finds, for all pages of a file at once. */
  function PagesOf(fs: Fs, path: string): Pages {
    if path in fs.metas then PagesIn(fs.metas[path].pairs, fs.blocks) else map[]
  }

  function PagesIn(ps: seq<Pair>, blocks: Blocks): Pages {
    map i | i in Indices(ps) && Find(ps, i) < |ps| && Name(ps[Find(ps, i)].digest) in blocks
      :: blocks[Name(ps[Find(ps, i)].digest)].data
  }

  lemma FindInIndices(ps: seq<Pair>, index: int)
    ensures index in Indices(ps) <==> Find(ps, index) < |ps|
  {
    if Find(ps, index) < |ps| {
      assert ps[Find(ps, index)] in ps;
    }
  }

  /** The payload that ends up under the name of `data`. */
  function Held(blocks: Blocks, h: Hash, data: seq<byte>): seq<byte> {
    if Name(h(data)) in blocks then blocks[Name(h(data))].data else data
  }

  /** Adding a block leaves every page of every well-formed file as it was. */
  lemma PagesStable(m: Meta, blocks: Blocks, h: Hash, data: seq<byte>)
    requires MetaOk(m, blocks)
    ensures MetaOk(m, WithBlock(blocks, h, data))
    ensures PagesIn(m.pairs, WithBlock(blocks, h, data)) == PagesIn(m.pairs, blocks)
  {
  }

  lemma PagesKeys(m: Meta, blocks: Blocks, index: int)
    requires MetaOk(m, blocks)
    ensures index in PagesIn(m.pairs, blocks) <==> Find(m.pairs, index) < |m.pairs|
  {
    FindInIndices(m.pairs, index);
  }

  /** The page of a file that registering adds, if any. */
  lemma PagesAppend(m: Meta, blocks: Blocks, p: Pair)
    requires MetaOk(m, blocks) && Find(m.pairs, p.index) == |m.pairs|
    requires Name(p.digest) in blocks
    ensures PagesIn(m.pairs + [p], blocks) == PagesIn(m.pairs, blocks)[p.index := blocks[Name(p.digest)].data]
  {
    hide Find, Name, Indices, Distinct;
    var ps := m.pairs + [p];
    forall i
      ensures i in PagesIn(ps, blocks) <==> i in PagesIn(m.pairs, blocks) || i == p.index
      ensures i in PagesIn(ps, blocks) ==>
                PagesIn(ps, blocks)[i]
                == if i == p.index then blocks[Name(p.digest)].data else PagesIn(m.pairs, blocks)[i]
    {
      FindAppend(m.pairs, p, i);
      FindInIndices(ps, i);
      FindInIndices(m.pairs, i);
    }
  }

  /** Registering keeps the invariant, adds the page when it is new, and changes
      no other page of any file. */
  lemma RegisterPages(fs: Fs, h: Hash, path: string, index: int, data: seq<byte>)
    requires Inv(fs, h) && path in fs.metas && 0 <= index < PAGE_LIMIT && 1 <= |data| <= BLOCK_SIZE
    ensures Inv(Register(fs, h, path, index, data), h)
    ensures Register(fs, h, path, index, data).metas.Keys == fs.metas.Keys
    ensures PagesOf(Register(fs, h, path, index, data), path)
            == if index in PagesOf(fs, path) then PagesOf(fs, path)
               else PagesOf(fs, path)[index := Held(fs.blocks, h, data)]
    ensures forall p :: p != path ==> PagesOf(Register(fs, h, path, index, data), p) == PagesOf(fs, p)
  {
    hide PagesIn, Find, Name, Distinct;
    var fs' := Register(fs, h, path, index, data);
    var m := fs.metas[path];
    forall p | p in fs.metas
      ensures MetaOk(fs.metas[p], fs'.blocks)
      ensures PagesIn(fs.metas[p].pairs, fs'.blocks) == PagesIn(fs.metas[p].pairs, fs.blocks)
    {
      PagesStable(fs.metas[p], fs.blocks, h, data);
    }
    PagesKeys(m, fs.blocks, index);
    if Find(m.pairs, index) == |m.pairs| {
      PagesAppend(m, fs'.blocks, Pair(index, h(data)));
      DistinctAppend(m.pairs, Pair(index, h(data)));
    }
  }

  lemma DistinctAppend(ps: seq<Pair>, p: Pair)
    requires Distinct(ps) && Find(ps, p.index) == |ps|
    ensures Distinct(ps + [p])
  {
  }

  /** After a new page is registered the file shows the given bytes exactly when
      no other payload was stored under their name. */
  lemma ReadsBackIffNoClash(fs: Fs, h: Hash, path: string, index: int, data: seq<byte>)
    requires Inv(fs, h) && path in fs.metas && 0 <= index < PAGE_LIMIT && 1 <= |data| <= BLOCK_SIZE
    requires index !in PagesOf(fs, path)
    ensures (index in PagesOf(Register(fs, h, path, index, data), path)
             && PagesOf(Register(fs, h, path, index, data), path)[index] == data)
            <==> (Name(h(data)) in fs.blocks ==> fs.blocks[Name(h(data))].data == data)
  {
    RegisterPages(fs, h, path, index, data);
  }

  // ------------------------------------------------------------------- write

  datatype Chunk = Chunk(index: int, data: seq<byte>)

  /** The first `n` bytes of page `q`, zeros where there are none. */
  function Lead(pages: Pages, q: int, n: nat): (r: seq<byte>)
    ensures |r| == n
  {
    seq(n, i requires 0 <= i => if q in pages && i < |pages[q]| then pages[q][i] else 0)
  }

  /** The blocks `bb_write` registers from offset `cur` on, for a request that
      ends at `end`; `data` is what is left of the buffer.  As in the source, the
      offset advances by the end position in the page and the buffer by the bytes
      taken, which differ when the request starts inside a page. */
  function Plan(pages: Pages, cur: nat, end: nat, data: seq<byte>): (r: seq<Chunk>)
    requires end - cur <= |data|
    decreases end - cur
    ensures forall i :: 0 <= i < |r| ==>
              && cur / BLOCK_SIZE <= r[i].index <= (end - 1) / BLOCK_SIZE
              && 1 <= |r[i].data| <= BLOCK_SIZE
  {
    if cur >= end then []
    else
      var rem := cur % BLOCK_SIZE;
      var right := Min(BLOCK_SIZE, rem + end - cur);
      [Chunk(cur / BLOCK_SIZE, Lead(pages, cur / BLOCK_SIZE, rem) + data[..right - rem])]
      + Plan(pages, cur + right, end, data[right - rem..])
  }

  function RegisterAll(fs: Fs, h: Hash, path: string, chunks: seq<Chunk>): Fs
    requires path in fs.metas
    decreases |chunks|
  {
    if chunks == [] then fs
    else RegisterAll(Register(fs, h, path, chunks[0].index, chunks[0].data), h, path, chunks[1..])
  }

  lemma RegisterAllNone(fs: Fs, h: Hash, path: string)
    requires path in fs.metas
    ensures RegisterAll(fs, h, path, []) == fs
  {
  }

  lemma RegisterAllHead(fs: Fs, h: Hash, path: string, chunks: seq<Chunk>)
    requires path in fs.metas && chunks != []
    ensures RegisterAll(fs, h, path, chunks)
            == RegisterAll(Register(fs, h, path, chunks[0].index, chunks[0].data), h, path, chunks[1..])
  {
  }

  lemma {:induction false} RegisterAllKeys(fs: Fs, h: Hash, path: string, chunks: seq<Chunk>)
    requires path in fs.metas
    ensures RegisterAll(fs, h, path, chunks).metas.Keys == fs.metas.Keys
    decreases |chunks|
  {
    if chunks != [] {
      RegisterAllKeys(Register(fs, h, path, chunks[0].index, chunks[0].data), h, path, chunks[1..]);
    }
  }

  /** The page after the one that `cur` is in. */
  lemma PageAfter(cur: nat)
    ensures (cur + BLOCK_SIZE) / BLOCK_SIZE == cur / BLOCK_SIZE + 1
    ensures (cur + BLOCK_SIZE) % BLOCK_SIZE == cur % BLOCK_SIZE
  {
  }

  /** The first chunk of a plan, and the plan of what comes after it. */
  lemma PlanHead(pages: Pages, cur: nat, end: nat, data: seq<byte>)
    requires cur < end && end - cur <= |data|
    ensures var rem := cur % BLOCK_SIZE;
            var right := Min(BLOCK_SIZE, rem + end - cur);
            Plan(pages, cur, end, data)
            == [Chunk(cur / BLOCK_SIZE, Lead(pages, cur / BLOCK_SIZE, rem) + data[..right - rem])]
               + Plan(pages, cur + right, end, data[right - rem..])
  {
    hide Lead;
  }

  lemma PlanEmpty(pages: Pages, cur: nat, end: nat, data: seq<byte>)
    requires cur >= end
    ensures Plan(pages, cur, end, data) == []
  {
  }

  /** The plan for what comes after the page that `cur` is in does not look at that page. */
  lemma PlanBehind(pages: Pages, cur: nat, end: nat, data: seq<byte>, d: seq<byte>)
    requires cur < end && end - cur <= |data|
    ensures var rem := cur % BLOCK_SIZE;
            var right := Min(BLOCK_SIZE, rem + end - cur);
            Plan(pages[cur / BLOCK_SIZE := d], cur + right, end, data[right - rem..])
            == Plan(pages, cur + right, end, data[right - rem..])
  {
    hide Lead, Plan;
    var q, right := cur / BLOCK_SIZE, Min(BLOCK_SIZE, cur % BLOCK_SIZE + end - cur);
    var rest := data[right - cur % BLOCK_SIZE..];
    if cur + right < end {
      PageAfter(cur);
      PlanFrame(pages, pages[q := d], cur + right, end, rest);
    } else {
      PlanEmpty(pages, cur + right, end, rest);
      PlanEmpty(pages[q := d], cur + right, end, rest);
    }
  }

  /** `bb_write` of `data` at `offset`. */
  function WriteFile(fs: Fs, h: Hash, path: string, offset: nat, data: seq<byte>): Fs
    requires path in fs.metas
  {
    RegisterAll(fs, h, path, Plan(PagesOf(fs, path), offset, offset + |data|, data))
  }

  predicate Agree(a: Pages, b: Pages, lo: int, hi: int) {
    forall q :: lo <= q <= hi ==> (q in a <==> q in b) && (q in a ==> a[q] == b[q])
  }

  /** A plan looks only at the pages it is for. */
  lemma {:induction false} PlanFrame(a: Pages, b: Pages, cur: nat, end: nat, data: seq<byte>)
    requires end - cur <= |data|
    requires Agree(a, b, cur / BLOCK_SIZE, (end - 1) / BLOCK_SIZE)
    ensures Plan(a, cur, end, data) == Plan(b, cur, end, data)
    decreases end - cur
  {
    if cur < end {
      var rem := cur % BLOCK_SIZE;
      var right := Min(BLOCK_SIZE, rem + end - cur);
      var q := cur / BLOCK_SIZE;
      assert Lead(a, q, rem) == Lead(b, q, rem);
      PlanFrame(a, b, cur + right, end, data[right - rem..]);
    }
  }

  /** Pages as a file system without digests would keep them: a page once there
      stays as it is. */
  function Put(pages: Pages, c: Chunk): Pages {
    if c.index in pages then pages else pages[c.index := c.data]
  }

  function PutAll(pages: Pages, chunks: seq<Chunk>): Pages
    decreases |chunks|
  {
    if chunks == [] then pages else PutAll(Put(pages, chunks[0]), chunks[1..])
  }

  /** No two of the payloads in `u` have the same block name.  `u` is finite: over
      all payloads the 19 bytes of a name could not be enough. */
  predicate CollisionFree(h: Hash, u: set<seq<byte>>) {
    forall a, b :: a in u && b in u && Name(h(a)) == Name(h(b)) ==> a == b
  }

  /** The invariant, with all stored payloads in `u`. */
  predicate InvIn(fs: Fs, h: Hash, u: set<seq<byte>>) {
    Inv(fs, h) && CollisionFree(h, u) && forall n :: n in fs.blocks ==> fs.blocks[n].data in u
  }

  predicate Good(chunks: seq<Chunk>, u: set<seq<byte>>) {
    forall i :: 0 <= i < |chunks| ==>
      0 <= chunks[i].index < PAGE_LIMIT && 1 <= |chunks[i].data| <= BLOCK_SIZE && chunks[i].data in u
  }

  lemma RegisterPut(fs: Fs, h: Hash, u: set<seq<byte>>, path: string, c: Chunk)
    requires InvIn(fs, h, u) && path in fs.metas && Good([c], u)
    ensures InvIn(Register(fs, h, path, c.index, c.data), h, u)
    ensures Register(fs, h, path, c.index, c.data).metas.Keys == fs.metas.Keys
    ensures PagesOf(Register(fs, h, path, c.index, c.data), path) == Put(PagesOf(fs, path), c)
    ensures forall p :: p != path ==> PagesOf(Register(fs, h, path, c.index, c.data), p) == PagesOf(fs, p)
  {
    hide PagesOf, Name, Inv;
    assert [c][0] == c;
    RegisterPages(fs, h, path, c.index, c.data);
    assert Held(fs.blocks, h, c.data) == c.data by {
      var n := Name(h(c.data));
      if n in fs.blocks {
        assert n == Name(h(fs.blocks[n].data)) by { BlockName(fs, h, n); }
      }
    }
  }

  lemma BlockName(fs: Fs, h: Hash, n: string)
    requires Inv(fs, h) && n in fs.blocks
    ensures n == Name(h(fs.blocks[n].data)) && 1 <= |fs.blocks[n].data| <= BLOCK_SIZE
  {
  }

  /** Through the store and the pair list, registering is putting pages. */
  lemma {:induction false} RegisterAllPut(fs: Fs, h: Hash, u: set<seq<byte>>, path: string, chunks: seq<Chunk>)
    requires InvIn(fs, h, u) && path in fs.metas && Good(chunks, u)
    ensures InvIn(RegisterAll(fs, h, path, chunks), h, u)
    ensures RegisterAll(fs, h, path, chunks).metas.Keys == fs.metas.Keys
    ensures PagesOf(RegisterAll(fs, h, path, chunks), path) == PutAll(PagesOf(fs, path), chunks)
    ensures forall p :: p != path ==> PagesOf(RegisterAll(fs, h, path, chunks), p) == PagesOf(fs, p)
    decreases |chunks|
  {
    hide PagesOf, InvIn, Register, Put;
    if chunks != [] {
      assert chunks[0] == [chunks[0]][0];
      RegisterPut(fs, h, u, path, chunks[0]);
      RegisterAllPut(Register(fs, h, path, chunks[0].index, chunks[0].data), h, u, path, chunks[1..]);
    }
  }

  /** Writing one file changes no page of another, with or without collisions,
      and keeps the invariant: deduplication does not show. */
  lemma {:induction false} WritesAreIsolated(fs: Fs, h: Hash, path: string, chunks: seq<Chunk>)
    requires Inv(fs, h) && path in fs.metas
    requires forall i :: 0 <= i < |chunks| ==> 0 <= chunks[i].index < PAGE_LIMIT && 1 <= |chunks[i].data| <= BLOCK_SIZE
    ensures Inv(RegisterAll(fs, h, path, chunks), h)
    ensures RegisterAll(fs, h, path, chunks).metas.Keys == fs.metas.Keys
    ensures forall p :: p != path ==> PagesOf(RegisterAll(fs, h, path, chunks), p) == PagesOf(fs, p)
    ensures forall q :: q in PagesOf(fs, path) ==>
              q in PagesOf(RegisterAll(fs, h, path, chunks), path)
              && PagesOf(RegisterAll(fs, h, path, chunks), path)[q] == PagesOf(fs, path)[q]
    decreases |chunks|
  {
    hide PagesOf, Inv, Register;
    if chunks != [] {
      RegisterPages(fs, h, path, chunks[0].index, chunks[0].data);
      WritesAreIsolated(Register(fs, h, path, chunks[0].index, chunks[0].data), h, path, chunks[1..]);
    }
  }

  /** A registration, of a new page or again of an old one, leaves the pair bytes
      of the file as they were, and adds exactly one pair when the page is new. */
  lemma RegisteredBytes(m: Meta, blocks: Blocks, index: int, d: Digest, len: nat)
    ensures var before, after := Encode(m), Encode(Registered(m, blocks, index, d, len));
            && after[..SIZE_START] == before[..SIZE_START] == MAGIC
            && (index in Indices(m.pairs) ==> after[BLOCK_START..] == before[BLOCK_START..])
            && (index !in Indices(m.pairs) ==>
                  after[BLOCK_START..] == before[BLOCK_START..] + PairBytes(Pair(index, d)))
  {
    hide PairsBytes, PairBytes, OffBytes;
    FindInIndices(m.pairs, index);
    PairsBytesConcat(m.pairs, [Pair(index, d)]);
    PairsBytesCons(Pair(index, d), []);
    PairsBytesNone();
    assert [Pair(index, d)] + [] == [Pair(index, d)];
  }

  // ------------------------------------------------------------------- store

  /** `store_block` called for each of `payloads` in turn. */
  function WithBlocks(blocks: Blocks, h: Hash, payloads: seq<seq<byte>>): Blocks
    decreases |payloads|
  {
    if payloads == [] then blocks else WithBlocks(WithBlock(blocks, h, payloads[0]), h, payloads[1..])
  }

  /** The store holds what it held, unchanged, and under its name each payload
      that was stored, and nothing else. */
  lemma {:induction false} StoreIsAppendOnly(blocks: Blocks, h: Hash, payloads: seq<seq<byte>>, u: set<seq<byte>>)
    requires CollisionFree(h, u) && forall p :: p in payloads ==> p in u
    requires forall n :: n in blocks ==> n == Name(h(blocks[n].data)) && blocks[n].data in u
    ensures forall n :: n in blocks ==>
              n in WithBlocks(blocks, h, payloads) && WithBlocks(blocks, h, payloads)[n] == blocks[n]
    ensures forall p :: p in payloads ==>
              Name(h(p)) in WithBlocks(blocks, h, payloads) && WithBlocks(blocks, h, payloads)[Name(h(p))].data == p
    ensures forall n :: n in WithBlocks(blocks, h, payloads) && n !in blocks ==>
              WithBlocks(blocks, h, payloads)[n].refs == 1
              && WithBlocks(blocks, h, payloads)[n].data in payloads
              && n == Name(h(WithBlocks(blocks, h, payloads)[n].data))
    decreases |payloads|
  {
    hide Name;
    if payloads != [] {
      var first, rest := payloads[0], payloads[1..];
      assert first in payloads;
      StoreIsAppendOnly(WithBlock(blocks, h, first), h, rest, u);
    }
  }

  /** Neither the order of the stores nor their repetition shows in the store. */
  lemma StoreOrderUnseen(blocks: Blocks, h: Hash, a: seq<seq<byte>>, b: seq<seq<byte>>, u: set<seq<byte>>)
    requires CollisionFree(h, u) && (forall p :: p in a ==> p in u) && forall p :: p in a <==> p in b
    requires forall n :: n in blocks ==> n == Name(h(blocks[n].data)) && blocks[n].data in u
    ensures WithBlocks(blocks, h, a) == WithBlocks(blocks, h, b)
  {
    hide Name;
    StoreIsAppendOnly(blocks, h, a, u);
    StoreIsAppendOnly(blocks, h, b, u);
    var x, y := WithBlocks(blocks, h, a), WithBlocks(blocks, h, b);
    forall n
      ensures n in x <==> n in y
      ensures n in x && n in y ==> x[n] == y[n]
    {
      if n !in blocks {
        if n in x {
          assert Name(h(x[n].data)) in y;
        }
        if n in y {
          assert Name(h(y[n].data)) in x;
        }
      }
    }
  }
}
