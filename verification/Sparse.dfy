/** The simple specification: a file is an array of bytes, zero where nothing was
    written.  When the page loops meet it, and when they do not. */
module Sparse {
  import opened Bytes
  import opened Storage
  import opened Contents
  import opened Bbfs

  /** Byte `k` of the file. */
  function ByteAt(pages: Pages, k: nat): byte {
    var q, o := k / BLOCK_SIZE, k % BLOCK_SIZE;
    if q in pages && o < |pages[q]| then pages[q][o] else 0
  }

  /** The pages after `bb_write` of `data` at `offset`. */
  function WritePages(pages: Pages, offset: nat, data: seq<byte>): Pages {
    PutAll(pages, Plan(pages, offset, offset + |data|, data))
  }

  /** `after` is the array `before` with `data` at `offset`. */
  ghost predicate Positioned(before: Pages, offset: nat, data: seq<byte>, after: Pages) {
    forall k: nat :: ByteAt(after, k) == if offset <= k < offset + |data| then data[k - offset] else ByteAt(before, k)
  }

  /** The request starts at a page boundary or stays inside one page. */
  predicate Shaped(offset: nat, size: nat) {
    offset % BLOCK_SIZE == 0 || offset % BLOCK_SIZE + size <= BLOCK_SIZE
  }

  /** No page that the request touches is in the file. */
  predicate Untouched(pages: Pages, offset: nat, size: nat) {
    forall q :: offset / BLOCK_SIZE <= q <= (offset + size - 1) / BLOCK_SIZE ==> q !in pages
  }

  // ------------------------------------------------------------------- plans

  /** The payloads of a plan one after the other. */
  function Joined(chunks: seq<Chunk>): seq<byte> {
    if chunks == [] then [] else chunks[0].data + Joined(chunks[1..])
  }

  /** A page-aligned `bb_write` registers ceil(size / 4096) blocks, at consecutive
      page numbers, whose payloads are the input cut up. */
  lemma {:induction false} AlignedPlan(pages: Pages, cur: nat, end: nat, data: seq<byte>)
    requires cur % BLOCK_SIZE == 0 && cur <= end && |data| == end - cur
    ensures var plan := Plan(pages, cur, end, data);
            && |plan| == (end - cur + BLOCK_SIZE - 1) / BLOCK_SIZE
            && (forall i :: 0 <= i < |plan| ==> plan[i].index == cur / BLOCK_SIZE + i)
            && Joined(plan) == data
    decreases end - cur
  {
    hide Plan, Joined, Lead;
    if cur == end {
      PlanEmpty(pages, cur, end, data);
      JoinedNone();
    } else {
      var right := Min(BLOCK_SIZE, end - cur);
      var first := Chunk(cur / BLOCK_SIZE, data[..right]);
      var rest := Plan(pages, cur + right, end, data[right..]);
      AlignedHead(pages, cur, end, data);
      JoinedCons(first, rest);
      assert data == data[..right] + data[right..];
      if right == BLOCK_SIZE {
        PageAfter(cur);
        AlignedPlan(pages, cur + right, end, data[right..]);
        assert forall i :: 0 < i < |[first] + rest| ==> ([first] + rest)[i] == rest[i - 1];
      } else {
        PlanEmpty(pages, cur + right, end, data[right..]);
        JoinedNone();
      }
    }
  }

  lemma JoinedNone()
    ensures Joined([]) == []
  {
  }

  lemma JoinedCons(c: Chunk, rest: seq<Chunk>)
    ensures Joined([c] + rest) == c.data + Joined(rest)
  {
    assert ([c] + rest)[1..] == rest;
  }

  /** The first chunk of a page-aligned plan has no lead. */
  lemma AlignedHead(pages: Pages, cur: nat, end: nat, data: seq<byte>)
    requires cur % BLOCK_SIZE == 0 && cur < end && |data| == end - cur
    ensures var right := Min(BLOCK_SIZE, end - cur);
            Plan(pages, cur, end, data)
            == [Chunk(cur / BLOCK_SIZE, data[..right])] + Plan(pages, cur + right, end, data[right..])
  {
    hide Plan;
    PlanHead(pages, cur, end, data);
    assert Lead(pages, cur / BLOCK_SIZE, 0) == [];
    assert [] + data[..Min(BLOCK_SIZE, end - cur)] == data[..Min(BLOCK_SIZE, end - cur)];
  }

  /** Pages that are there stay; pages that appear come from the chunks. */
  lemma {:induction false} PutAllFrom(pages: Pages, chunks: seq<Chunk>)
    ensures forall q :: q in pages ==> q in PutAll(pages, chunks) && PutAll(pages, chunks)[q] == pages[q]
    ensures forall q :: q in PutAll(pages, chunks) && q !in pages ==>
              exists i :: 0 <= i < |chunks| && chunks[i] == Chunk(q, PutAll(pages, chunks)[q])
    decreases |chunks|
  {
    if chunks != [] {
      var rest := chunks[1..];
      PutAllFrom(Put(pages, chunks[0]), rest);
      forall q | q in PutAll(pages, chunks) && q !in pages
        ensures exists i :: 0 <= i < |chunks| && chunks[i] == Chunk(q, PutAll(pages, chunks)[q])
      {
        if q in Put(pages, chunks[0]) {
          assert chunks[0] == Chunk(q, PutAll(pages, chunks)[q]);
        } else {
          var i :| 0 <= i < |rest| && rest[i] == Chunk(q, PutAll(pages, chunks)[q]);
          assert chunks[i + 1] == rest[i];
        }
      }
    }
  }

  // ------------------------------------------------------------------ writes

  lemma ByteInPage(pages: Pages, q: int, d: seq<byte>, k: nat)
    requires q !in pages
    ensures ByteAt(pages[q := d], k)
            == if k / BLOCK_SIZE == q then (if k % BLOCK_SIZE < |d| then d[k % BLOCK_SIZE] else 0) else ByteAt(pages, k)
    ensures k / BLOCK_SIZE == q ==> ByteAt(pages, k) == 0
  {
  }

  /** Doing a page-aligned plan page by page. */
  lemma AlignedStep(pages: Pages, cur: nat, data: seq<byte>)
    requires cur % BLOCK_SIZE == 0 && data != [] && Untouched(pages, cur, |data|)
    ensures var right := Min(BLOCK_SIZE, |data|);
            var pages' := pages[cur / BLOCK_SIZE := data[..right]];
            && PutAll(pages, Plan(pages, cur, cur + |data|, data))
               == PutAll(pages', Plan(pages', cur + right, cur + |data|, data[right..]))
            && (right < |data| ==> Untouched(pages', cur + right, |data| - right))
  {
    hide PutAll, Plan;
    var end, right, q := cur + |data|, Min(BLOCK_SIZE, |data|), cur / BLOCK_SIZE;
    AlignedHead(pages, cur, end, data);
    PlanBehind(pages, cur, end, data, data[..right]);
    PageOfRequest(cur, |data|);
    PutAllHead(pages, Plan(pages, cur, end, data));
  }

  /** The first page of a page-aligned request is one of its pages, and the rest
      of the request has the others. */
  lemma PageOfRequest(cur: nat, size: nat)
    requires cur % BLOCK_SIZE == 0 && size > 0
    ensures cur / BLOCK_SIZE <= (cur + size - 1) / BLOCK_SIZE
    ensures size > BLOCK_SIZE ==> (cur + BLOCK_SIZE) / BLOCK_SIZE == cur / BLOCK_SIZE + 1
  {
  }

  lemma PutAllHead(pages: Pages, chunks: seq<Chunk>)
    requires chunks != []
    ensures PutAll(pages, chunks) == PutAll(Put(pages, chunks[0]), chunks[1..])
  {
  }

  lemma FirstPage(pages: Pages, cur: nat, d: seq<byte>, k: nat)
    requires cur % BLOCK_SIZE == 0 && cur / BLOCK_SIZE !in pages && |d| <= BLOCK_SIZE
    ensures ByteAt(pages[cur / BLOCK_SIZE := d], k)
            == if cur <= k < cur + |d| then d[k - cur] else ByteAt(pages, k)
  {
    hide ByteAt;
    ByteInPage(pages, cur / BLOCK_SIZE, d, k);
  }

  lemma {:induction false} AlignedWrite(pages: Pages, cur: nat, data: seq<byte>, k: nat)
    requires cur % BLOCK_SIZE == 0 && (data != [] ==> Untouched(pages, cur, |data|))
    ensures ByteAt(PutAll(pages, Plan(pages, cur, cur + |data|, data)), k)
            == if cur <= k < cur + |data| then data[k - cur] else ByteAt(pages, k)
    decreases |data|
  {
    hide ByteAt, Plan, PutAll;
    if data == [] {
      PlanEmpty(pages, cur, cur, data);
      PutNone(pages);
    } else {
      var right := Min(BLOCK_SIZE, |data|);
      AlignedStep(pages, cur, data);
      FirstPage(pages, cur, data[..right], k);
      var pages' := pages[cur / BLOCK_SIZE := data[..right]];
      if right < |data| {
        assert (cur + right) + |data[right..]| == cur + |data|;
        AlignedWrite(pages', cur + right, data[right..], k);
      } else {
        PlanEmpty(pages', cur + right, cur + |data|, data[right..]);
        PutNone(pages');
      }
    }
  }

  lemma PutNone(pages: Pages)
    ensures PutAll(pages, []) == pages
  {
  }

  /** A request inside one page is one block. */
  lemma {:induction false} OneChunk(pages: Pages, offset: nat, data: seq<byte>)
    requires data != [] && offset % BLOCK_SIZE + |data| <= BLOCK_SIZE
    ensures var q, rem := offset / BLOCK_SIZE, offset % BLOCK_SIZE;
            Plan(pages, offset, offset + |data|, data) == [Chunk(q, Lead(pages, q, rem) + data)]
  {
    hide Lead, Plan;
    var rem, end := offset % BLOCK_SIZE, offset + |data|;
    var right := Min(BLOCK_SIZE, rem + end - offset);
    assert right == rem + |data|;
    PlanHead(pages, offset, end, data);
    PlanEmpty(pages, offset + right, end, data[right - rem..]);
    assert data[..right - rem] == data;
  }

  lemma InsidePage(pages: Pages, offset: nat, data: seq<byte>, k: nat)
    requires data != [] && offset % BLOCK_SIZE + |data| <= BLOCK_SIZE && offset / BLOCK_SIZE !in pages
    ensures ByteAt(WritePages(pages, offset, data), k)
            == if offset <= k < offset + |data| then data[k - offset] else ByteAt(pages, k)
  {
    hide ByteAt;
    var q, rem := offset / BLOCK_SIZE, offset % BLOCK_SIZE;
    var plan := Plan(pages, offset, offset + |data|, data);
    var d := Lead(pages, q, rem) + data;
    OneChunk(pages, offset, data);
    assert PutAll(pages, plan) == pages[q := d] by { assert plan[1..] == []; }
    ByteInPage(pages, q, d, k);
    if k / BLOCK_SIZE == q {
      assert k == BLOCK_SIZE * q + k % BLOCK_SIZE && offset == BLOCK_SIZE * q + rem;
    }
  }

  /** On new pages, a well-shaped `bb_write` is a positioned write. */
  lemma WriteIsPositioned(pages: Pages, offset: nat, data: seq<byte>)
    requires Shaped(offset, |data|) && (data != [] ==> Untouched(pages, offset, |data|))
    ensures Positioned(pages, offset, data, WritePages(pages, offset, data))
  {
    hide ByteAt;
    forall k: nat
      ensures ByteAt(WritePages(pages, offset, data), k)
              == if offset <= k < offset + |data| then data[k - offset] else ByteAt(pages, k)
    {
      if offset % BLOCK_SIZE == 0 {
        AlignedWrite(pages, offset, data, k);
      } else if data != [] {
        InsidePage(pages, offset, data, k);
      }
    }
  }

  /** A request that starts inside a page and leaves it starts inside every later
      page too, so every block it makes has a hole in front. */
  lemma {:induction false} UnalignedPlan(pages: Pages, cur: nat, end: nat, data: seq<byte>)
    requires end - cur <= |data| && cur % BLOCK_SIZE > 0
    requires forall q :: cur / BLOCK_SIZE <= q <= (end - 1) / BLOCK_SIZE ==> q !in pages
    ensures forall i :: 0 <= i < |Plan(pages, cur, end, data)| ==> Plan(pages, cur, end, data)[i].data[0] == 0
    decreases end - cur
  {
    hide Plan;
    if cur >= end {
      PlanEmpty(pages, cur, end, data);
    } else {
      var rem := cur % BLOCK_SIZE;
      var right := Min(BLOCK_SIZE, rem + end - cur);
      var lead := Lead(pages, cur / BLOCK_SIZE, rem);
      var first := Chunk(cur / BLOCK_SIZE, lead + data[..right - rem]);
      var rest := Plan(pages, cur + right, end, data[right - rem..]);
      PlanHead(pages, cur, end, data);
      assert first.data[0] == lead[0] == 0;
      if cur + right < end {
        PageAfter(cur);
        UnalignedPlan(pages, cur + right, end, data[right - rem..]);
      } else {
        PlanEmpty(pages, cur + right, end, data[right - rem..]);
      }
      assert forall i :: 0 < i < |[first] + rest| ==> ([first] + rest)[i] == rest[i - 1];
    }
  }

  /** A byte in the range of a request that is badly shaped, or touches a page
      that is in the file, and that the request leaves alone whatever it writes. */
  lemma LostByte(pages: Pages, offset: nat, size: nat) returns (k: nat)
    requires size > 0 && !(Shaped(offset, size) && Untouched(pages, offset, size))
    ensures offset <= k < offset + size
    ensures forall data :: |data| == size ==> ByteAt(WritePages(pages, offset, data), k) == ByteAt(pages, k)
  {
    if q :| offset / BLOCK_SIZE <= q <= (offset + size - 1) / BLOCK_SIZE && q in pages {
      k := Max(offset, BLOCK_SIZE * q);
      assert k / BLOCK_SIZE == q;
      forall data | |data| == size
        ensures ByteAt(WritePages(pages, offset, data), k) == ByteAt(pages, k)
      {
        PutAllFrom(pages, Plan(pages, offset, offset + size, data));
      }
    } else {
      k := BLOCK_SIZE * (offset / BLOCK_SIZE + 1);
      forall data | |data| == size
        ensures ByteAt(WritePages(pages, offset, data), k) == ByteAt(pages, k)
      {
        HoleInFront(pages, offset, data, k);
      }
    }
  }

  lemma HoleInFront(pages: Pages, offset: nat, data: seq<byte>, k: nat)
    requires data != [] && offset % BLOCK_SIZE > 0 && Untouched(pages, offset, |data|)
    requires offset <= k < offset + |data| && k % BLOCK_SIZE == 0
    ensures ByteAt(WritePages(pages, offset, data), k) == ByteAt(pages, k)
  {
    hide Plan, PutAll;
    var plan := Plan(pages, offset, offset + |data|, data);
    var q := k / BLOCK_SIZE;
    assert offset / BLOCK_SIZE <= q <= (offset + |data| - 1) / BLOCK_SIZE;
    PutAllFrom(pages, plan);
    UnalignedPlan(pages, offset, offset + |data|, data);
    if q in PutAll(pages, plan) {
      var i :| 0 <= i < |plan| && plan[i] == Chunk(q, PutAll(pages, plan)[q]);
      assert plan[i].data[0] == 0;
    }
  }

  lemma EmptyWrite(pages: Pages, offset: nat, data: seq<byte>)
    requires data == []
    ensures Positioned(pages, offset, data, WritePages(pages, offset, data))
  {
  }

  /** Exactly when `bb_write` can be relied on as a positioned write: for all
      contents of a request, if and only if it is well shaped and every page it
      touches is new. */
  lemma WriteReliableExactly(pages: Pages, offset: nat, size: nat)
    ensures (forall data :: |data| == size ==> Positioned(pages, offset, data, WritePages(pages, offset, data)))
            <==> size == 0 || (Shaped(offset, size) && Untouched(pages, offset, size))
  {
    hide ByteAt, WritePages;
    if size == 0 || (Shaped(offset, size) && Untouched(pages, offset, size)) {
      forall data | |data| == size
        ensures Positioned(pages, offset, data, WritePages(pages, offset, data))
      {
        if size == 0 {
          EmptyWrite(pages, offset, data);
        } else {
          WriteIsPositioned(pages, offset, data);
        }
      }
    } else {
      var k := LostByte(pages, offset, size);
      var b: byte := if ByteAt(pages, k) == 0 then 1 else 0;
      var data := seq(size, _ => b);
      assert data[k - offset] == b;
      assert !Positioned(pages, offset, data, WritePages(pages, offset, data));
    }
  }

  // ------------------------------------------------------------------- reads

  predicate PagesOk(pages: Pages) {
    forall q :: q in pages ==> 0 <= q && 1 <= |pages[q]| <= BLOCK_SIZE
  }

  /** A page-aligned `bb_read` into a zeroed buffer returns the bytes of the
      array, holes and everything behind the last page included. */
  lemma AlignedRead(pages: Pages, offset: nat, size: nat, i: nat)
    requires offset % BLOCK_SIZE == 0
    ensures ReadByte(pages, offset, size, i, 0) == ByteAt(pages, offset + i)
  {
  }

  /** `bb_read` of `size` bytes at `offset` into a zeroed buffer gives the array. */
  ghost predicate ReadsArray(pages: Pages, offset: nat, size: nat) {
    forall i: nat :: i < size ==> ReadByte(pages, offset, size, i, 0) == ByteAt(pages, offset + i)
  }

  /** Exactly when the bytes of a request can be relied on in a zeroed buffer,
      whatever the file holds: the request is empty or starts at a page boundary. */
  lemma ReadReliableExactly(offset: nat, size: nat)
    ensures (forall pages :: PagesOk(pages) ==> ReadsArray(pages, offset, size))
            <==> size == 0 || offset % BLOCK_SIZE == 0
  {
    if size == 0 || offset % BLOCK_SIZE == 0 {
      forall pages | PagesOk(pages)
        ensures ReadsArray(pages, offset, size)
      {
        forall i: nat | i < size
          ensures ReadByte(pages, offset, size, i, 0) == ByteAt(pages, offset + i)
        {
          AlignedRead(pages, offset, size, i);
        }
      }
    } else {
      var q, rem := offset / BLOCK_SIZE, offset % BLOCK_SIZE;
      var pages: Pages := map[q := Zeros(rem) + [1]];
      assert ByteAt(pages, offset + 0) == 1;
      assert ReadByte(pages, offset, size, 0, 0) == 0;
      assert PagesOk(pages) && !ReadsArray(pages, offset, size);
    }
  }

  /** Exactly when a read leaves the buffer behind the requested bytes alone:
      the last page of the request is absent, or what is copied of it ends where
      the request does. */
  lemma OverrunExactly(pages: Pages, offset: nat, size: nat)
    requires size > 0 && PagesOk(pages)
    ensures var q := (offset + size - 1) / BLOCK_SIZE;
            var inside := q in pages ==> |pages[q]| - LeftIn(offset, q) <= (offset + size - 1) % BLOCK_SIZE + 1;
            && (Roomy(pages, offset, size, size) <==> inside)
            && ((forall i: nat, was: byte :: size <= i < ReadLength(offset, size) ==>
                   ReadByte(pages, offset, size, i, was) == was) <==> inside)
  {
    var q, end := (offset + size - 1) / BLOCK_SIZE, (offset + size - 1) % BLOCK_SIZE + 1;
    forall i: nat | size <= i < ReadLength(offset, size)
      ensures ReadWrites(pages, offset, size, i) <==> q in pages && end + (i - size) < |pages[q]| - LeftIn(offset, q)
    {
      BehindRequest(offset, size, i);
    }
    if q in pages && |pages[q]| - LeftIn(offset, q) > end {
      BehindRequest(offset, size, size);
      assert ReadWrites(pages, offset, size, size);
      var other: byte := if pages[q][end] == 0 then 1 else 0;
      assert ReadByte(pages, offset, size, size, other) != other;
    }
  }

  lemma BehindRequest(offset: nat, size: nat, i: nat)
    requires size > 0
    ensures var q, end := (offset + size - 1) / BLOCK_SIZE, (offset + size - 1) % BLOCK_SIZE + 1;
            && (size <= i < ReadLength(offset, size) ==>
                  (offset + i) / BLOCK_SIZE == q && (offset + i) % BLOCK_SIZE == end + (i - size))
            && (end < BLOCK_SIZE <==> size < ReadLength(offset, size))
  {
  }

  /** Exactly when one requested byte can be relied on, whatever the buffer held:
      its page is absent, or the copied range reaches it. */
  lemma ByteReliableExactly(pages: Pages, offset: nat, size: nat, i: nat)
    requires i < size
    ensures var q, o := (offset + i) / BLOCK_SIZE, (offset + i) % BLOCK_SIZE;
            (forall was: byte :: ReadByte(pages, offset, size, i, was) == ByteAt(pages, offset + i))
            <==> q !in pages || o < |pages[q]| - LeftIn(offset, q)
  {
    if !ReadWrites(pages, offset, size, i) {
      var other: byte := if ByteAt(pages, offset + i) == 0 then 1 else 0;
      assert ReadByte(pages, offset, size, i, other) == other;
    }
  }

  /** For a page-aligned read: the page is absent or longer than the position. */
  lemma AlignedByteReliableExactly(pages: Pages, offset: nat, size: nat, i: nat)
    requires offset % BLOCK_SIZE == 0 && i < size
    ensures (forall was: byte :: ReadByte(pages, offset, size, i, was) == ByteAt(pages, offset + i))
            <==> ((offset + i) / BLOCK_SIZE in pages ==> (offset + i) % BLOCK_SIZE < |pages[(offset + i) / BLOCK_SIZE]|)
  {
    hide ReadByte, ByteAt;
    ByteReliableExactly(pages, offset, size, i);
  }

  /** A read does what its documentation asks for, whatever the buffer held: it
      returns the size of the request and writes the bytes of the array, no more. */
  ghost predicate MeetsRequest(pages: Pages, offset: nat, size: nat) {
    && ReadLength(offset, size) == size
    && forall i: nat, was: byte :: i < size ==> ReadByte(pages, offset, size, i, was) == ByteAt(pages, offset + i)
  }

  /** Exactly when it does: the request is empty, or it ends at a page boundary
      and every page of it that is in the file is full and begins inside it. */
  lemma ReadMeetsRequestExactly(pages: Pages, offset: nat, size: nat)
    requires PagesOk(pages)
    ensures MeetsRequest(pages, offset, size)
            <==> size == 0
                 || ((offset + size) % BLOCK_SIZE == 0
                     && forall q :: offset / BLOCK_SIZE <= q <= (offset + size - 1) / BLOCK_SIZE && q in pages ==>
                          |pages[q]| == BLOCK_SIZE && LeftIn(offset, q) == 0)
  {
    hide ReadByte, ByteAt, LeftIn;
    if size > 0 && (offset + size) % BLOCK_SIZE == 0 {
      assert ReadLength(offset, size) == size;
      if MeetsRequest(pages, offset, size) {
        forall q | offset / BLOCK_SIZE <= q <= (offset + size - 1) / BLOCK_SIZE && q in pages
          ensures |pages[q]| == BLOCK_SIZE && LeftIn(offset, q) == 0
        {
          var i := LastOfPage(offset, size, q);
          ByteReliableExactly(pages, offset, size, i);
        }
      } else {
        var i: nat, was: byte :| i < size && ReadByte(pages, offset, size, i, was) != ByteAt(pages, offset + i);
        ByteReliableExactly(pages, offset, size, i);
        PageInRequest(offset, size, i);
      }
    }
  }

  lemma LastOfPage(offset: nat, size: nat, q: int) returns (i: nat)
    requires size > 0 && (offset + size) % BLOCK_SIZE == 0
    requires offset / BLOCK_SIZE <= q <= (offset + size - 1) / BLOCK_SIZE
    ensures i < size && (offset + i) / BLOCK_SIZE == q && (offset + i) % BLOCK_SIZE == BLOCK_SIZE - 1
  {
    i := BLOCK_SIZE * q + (BLOCK_SIZE - 1) - offset;
  }

  lemma PageInRequest(offset: nat, size: nat, i: nat)
    requires i < size
    ensures offset / BLOCK_SIZE <= (offset + i) / BLOCK_SIZE <= (offset + size - 1) / BLOCK_SIZE
  {
  }

  /** Ten bytes asked for of a full page: the whole page is copied, and 4096 returned. */
  lemma OverrunInput(page: seq<byte>, i: nat, was: byte)
    requires |page| == 4096 && 10 <= i < 4096
    ensures ReadLength(0, 10) == 4096
    ensures ReadByte(map[0 := page], 0, 10, i, was) == page[i]
  {
  }

  /** A page asked for of a one-byte page: the rest of the buffer is not cleared. */
  lemma OldTailInput(b: byte, i: nat, was: byte)
    requires 1 <= i < 4096
    ensures ReadByte(map[0 := [b]], 0, 4096, i, was) == was && ByteAt(map[0 := [b]], i) == 0
  {
  }

  /** What was written is what a page-aligned read returns. */
  lemma ReadAfterWrite(pages: Pages, offset: nat, data: seq<byte>, from: nat, size: nat, i: nat)
    requires Shaped(offset, |data|) && (data != [] ==> Untouched(pages, offset, |data|))
    requires from % BLOCK_SIZE == 0
    ensures ReadByte(WritePages(pages, offset, data), from, size, i, 0)
            == if offset <= from + i < offset + |data| then data[from + i - offset] else ByteAt(pages, from + i)
  {
    hide ReadByte, ByteAt, WritePages;
    WriteIsPositioned(pages, offset, data);
    AlignedRead(WritePages(pages, offset, data), from, size, i);
  }
}
