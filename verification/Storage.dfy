/** The block store: one file per block, an 8-byte reference counter and then
    the payload (cfs/src/storage.c). */
module Storage {
  import opened Bytes
  import opened Os
  import opened Io
  import opened PairList
  import opened Naming

  const BLOCK_SIZE: nat := 4096
  const REF_SIZE: nat := 8
  const EEXIST: int := 17

  type Files = map<string, seq<byte>>

  function BlockBytes(refs: int, data: seq<byte>): (r: seq<byte>)
    ensures |r| == REF_SIZE + |data|
  {
    OffBytes(refs) + data
  }

  /** The counter of a new block is 1, and its payload comes after it. */
  lemma NewBlock(data: seq<byte>)
    ensures BlockBytes(1, data) == [1, 0, 0, 0, 0, 0, 0, 0] + data
  {
    CounterBytes(1, data);
    forall i: nat | i < 8
      ensures 1 / Radix(i) % 256 == if i == 0 then 1 else 0
    {
      ByteOfOne(i);
    }
    assert BlockBytes(1, data) == BlockBytes(1, data)[..8] + BlockBytes(1, data)[8..];
  }

  lemma ByteOfOne(i: nat)
    ensures 1 / Radix(i) % 256 == if i == 0 then 1 else 0
  {
    if i > 0 {
      RadixNext(i - 1);
      Quotient(1, Radix(i), 0, 1);
    }
  }

  /** The bytes of a block file: the counter, least significant byte first, and
      the payload. */
  lemma CounterBytes(refs: nat, data: seq<byte>)
    ensures forall i: nat :: i < 8 ==> BlockBytes(refs, data)[i] == refs / Radix(i) % 256
    ensures BlockBytes(refs, data)[8..] == data
  {
    hide OffBytes, Radix;
    forall i: nat | i < 8
      ensures BlockBytes(refs, data)[i] == refs / Radix(i) % 256
    {
      OffBytesAt(refs, i);
    }
  }

  datatype StoreOutcome = StoreOutcome(files: Files, ret: int, rest: seq<Reply>)

  /** `store_block` on path `path` under the write replies `rs`. */
  function StoreRun(files: Files, path: string, data: seq<byte>, rs: seq<Reply>): StoreOutcome {
    if path in files then StoreOutcome(files, 0, rs)
    else
      var counter := WriteRun(rs, REF_SIZE);
      if counter.last != REF_SIZE then
        StoreOutcome(files[path := OffBytes(1)[..counter.done]], -1, counter.rest)
      else
        var payload := WriteRun(counter.rest, |data|);
        StoreOutcome(files[path := OffBytes(1) + data[..payload.done]],
                     if payload.last == |data| then |data| else -1, payload.rest)
  }

  /** For every script of replies, failures included: `store_block` reports a
      success for a new block exactly when neither write is short, and what it
      leaves behind is the whole block exactly when the counter is written in one
      piece and no failure comes before the end of the payload. */
  lemma StoreRunExact(files: Files, path: string, data: seq<byte>, rs: seq<Reply>)
    requires path !in files && data != []
    ensures var o := StoreRun(files, path, data, rs);
            var counted, rest := FirstChunkWhole(rs, REF_SIZE), WriteRun(rs, REF_SIZE).rest;
            && (o.ret == |data| <==> counted && FirstChunkWhole(rest, |data|))
            && (o.ret == -1 <==> o.ret != |data|)
            && path in o.files
            && (o.files[path] == BlockBytes(1, data) <==> counted && Supplies(rest, |data|))
  {
    hide WriteRun, FirstChunkWhole, Supplies;
    WriteReportsWhole(rs, REF_SIZE);
    var rest := WriteRun(rs, REF_SIZE).rest;
    WriteReportsWhole(rest, |data|);
    WriteDoneExactly(rest, |data|);
    assert data[..|data|] == data;
    assert |OffBytes(1)[..WriteRun(rs, REF_SIZE).done]| <= REF_SIZE < |BlockBytes(1, data)|;
  }

  /** What is left behind is always the beginning of the block: its counter and
      payload as far as they were written, the payload only after all of the
      counter in one piece. */
  lemma StoreLeavesPrefix(files: Files, path: string, data: seq<byte>, rs: seq<Reply>)
    requires path !in files
    ensures var counter := WriteRun(rs, 8);
            var n := if FirstChunkWhole(rs, 8) then 8 + WriteRun(counter.rest, |data|).done else counter.done;
            && n <= 8 + |data|
            && StoreRun(files, path, data, rs).files
               == files[path := ([1, 0, 0, 0, 0, 0, 0, 0] + data)[..n]]
  {
    hide WriteRun, FirstChunkWhole, OffBytes;
    WriteReportsWhole(rs, REF_SIZE);
    NewBlock(data);
    var counter := WriteRun(rs, REF_SIZE);
    var done := if FirstChunkWhole(rs, REF_SIZE) then WriteRun(counter.rest, |data|).done else 0;
    assert OffBytes(1) + data[..done] == (OffBytes(1) + data)[..8 + done];
    assert OffBytes(1)[..counter.done] == (OffBytes(1) + data)[..counter.done];
  }

  /** What the load after such a store finds: nothing readable when the counter
      was cut up or no payload byte was written, and otherwise the payload as far
      as it was written, as if it were the whole. */
  lemma LoadedAfterStore(files: Files, path: string, data: seq<byte>, rs: seq<Reply>)
    requires path !in files && 1 <= |data| <= BLOCK_SIZE
    ensures var o := StoreRun(files, path, data, rs);
            var done := WriteRun(WriteRun(rs, REF_SIZE).rest, |data|).done;
            Loaded(o.files, path)
            == if FirstChunkWhole(rs, REF_SIZE) && done > 0 then Payload(data[..done]) else LoadFailed(-1)
  {
    hide WriteRun, FirstChunkWhole, Slice;
    WriteReportsWhole(rs, REF_SIZE);
    var o := StoreRun(files, path, data, rs);
    var done := WriteRun(WriteRun(rs, REF_SIZE).rest, |data|).done;
    if FirstChunkWhole(rs, REF_SIZE) && done > 0 {
      assert o.files[path] == BlockBytes(1, data[..done]);
      LoadedBlock(o.files, path, 1, data[..done]);
    }
  }

  /** Whatever a failed or short store leaves behind, every later store of the
      same payload reports success and changes nothing; so the block can never be
      read as it was meant exactly when the first store left less than all of it. */
  lemma DamageStays(files: Files, path: string, data: seq<byte>, rs: seq<Reply>, later: seq<Reply>)
    requires path !in files && 1 <= |data| <= BLOCK_SIZE
    ensures var o := StoreRun(files, path, data, rs);
            && StoreRun(o.files, path, data, later) == StoreOutcome(o.files, 0, later)
            && (Loaded(o.files, path) == Payload(data)
                <==> FirstChunkWhole(rs, REF_SIZE) && Supplies(WriteRun(rs, REF_SIZE).rest, |data|))
  {
    hide WriteRun, FirstChunkWhole, Supplies, Loaded;
    var rest := WriteRun(rs, REF_SIZE).rest;
    StoreRunExact(files, path, data, rs);
    LoadedAfterStore(files, path, data, rs);
    WriteDoneExactly(rest, |data|);
    assert data[..|data|] == data;
  }

  /** A short write of the counter poisons the block: what is left behind has no
      payload, every later store of it reports success and changes nothing, and
      every load of it fails. */
  lemma ShortCounterPoisons(files: Files, path: string, data: seq<byte>, rs: seq<Reply>, later: seq<Reply>)
    requires path !in files && data != [] && NoFailure(rs) && !FirstChunkWhole(rs, REF_SIZE)
    ensures var o := StoreRun(files, path, data, rs);
            && o.ret == -1
            && o.files[path] == BlockBytes(1, [])
            && StoreRun(o.files, path, data, later) == StoreOutcome(o.files, 0, later)
            && Loaded(o.files, path) == LoadFailed(-1)
  {
    hide FirstChunkWhole, BlockBytes, WriteRun;
    WriteReportsWhole(rs, REF_SIZE);
    WriteIgnoresChunking(rs, REF_SIZE);
    assert OffBytes(1)[..REF_SIZE] == OffBytes(1) == BlockBytes(1, []) by { NoPayload(); }
  }

  lemma NoPayload()
    ensures BlockBytes(1, []) == OffBytes(1)
  {
  }

  /** A failure in the middle of the payload truncates the block for good. */
  lemma TruncatedPayloadInput(files: Files, path: string, a: byte, b: byte)
    requires path !in files
    ensures var rs := [Upto(8), Upto(1), Failed];
            var o := StoreRun(files, path, [a, b], rs);
            && o.ret == -1
            && StoreRun(o.files, path, [a, b], []) == StoreOutcome(o.files, 0, [])
            && Loaded(o.files, path) == Payload([a])
  {
    var rs := [Upto(8), Upto(1), Failed];
    assert rs[1..] == [Upto(1), Failed] && rs[1..][1..] == [Failed];
    assert WriteRun([Failed], 1) == Outcome(false, 0, -1, []);
    assert WriteRun([Upto(1), Failed], 2) == Outcome(false, 1, -1, []);
    assert WriteRun(rs, 8) == Outcome(true, 8, 8, rs[1..]);
    LoadedAfterStore(files, path, [a, b], rs);
    assert [a, b][..1] == [a];
  }

  /** Without failures: an existing block is left alone, a new one is stored
      whole or, when its counter is cut up, without its payload. */
  lemma StoreRunSteady(files: Files, path: string, data: seq<byte>, rs: seq<Reply>)
    requires NoFailure(rs) && data != []
    ensures var o := StoreRun(files, path, data, rs);
            && NoFailure(o.rest)
            && (path in files ==> o.files == files && o.ret == 0)
            && (path !in files && FirstChunkWhole(rs, REF_SIZE) ==> o.files == files[path := BlockBytes(1, data)])
            && (path !in files && !FirstChunkWhole(rs, REF_SIZE) ==>
                  o.files == files[path := BlockBytes(1, [])] && o.ret == -1)
  {
    hide WriteRun, FirstChunkWhole;
    WriteIgnoresChunking(rs, REF_SIZE);
    WriteReportsWhole(rs, REF_SIZE);
    WriteIgnoresChunking(WriteRun(rs, REF_SIZE).rest, |data|);
    assert OffBytes(1)[..REF_SIZE] == OffBytes(1);
    assert data[..|data|] == data;
    NoPayload();
  }

  /** Interruptions alone do not harm a store. */
  lemma StoreRunCalm(files: Files, path: string, data: seq<byte>, rs: seq<Reply>)
    requires OnlyInterrupts(rs) && data != []
    ensures var o := StoreRun(files, path, data, rs);
            && OnlyInterrupts(o.rest)
            && FirstChunkWhole(rs, REF_SIZE)
            && o.ret == (if path in files then 0 else |data|)
            && o.files == if path in files then files else files[path := BlockBytes(1, data)]
  {
    hide WriteRun, FirstChunkWhole;
    OnlyInterruptsWhole(rs, REF_SIZE);
    WriteReportsWhole(rs, REF_SIZE);
    OnlyInterruptsWhole(WriteRun(rs, REF_SIZE).rest, |data|);
    assert data[..|data|] == data;
  }

  datatype LoadResult = LoadFailed(ret: int) | Payload(data: seq<byte>)

  /** What `load_block` finds at `path` when no read fails. */
  function Loaded(files: Files, path: string): LoadResult {
    if path !in files then LoadFailed(-EEXIST)
    else if |files[path]| <= REF_SIZE then LoadFailed(-1)
    else Payload(Slice(files[path], REF_SIZE, Min(BLOCK_SIZE, |files[path]| - REF_SIZE)))
  }

  /** At most 4096 payload bytes are loaded, and none is an error. */
  lemma LoadedBlock(files: Files, path: string, refs: int, data: seq<byte>)
    requires path in files && files[path] == BlockBytes(refs, data)
    ensures data != [] ==> Loaded(files, path) == Payload(data[..Min(4096, |data|)])
    ensures 0 < |data| <= BLOCK_SIZE ==> Loaded(files, path) == Payload(data)
    ensures data == [] ==> Loaded(files, path) == LoadFailed(-1)
  {
    hide OffBytes;
    var n := Min(BLOCK_SIZE, |data|);
    assert n > 0 ==> files[path][REF_SIZE..REF_SIZE + n] == data[..n];
    assert |data| <= BLOCK_SIZE ==> data[..n] == data;
  }

  /** `store_block`. */
  method StoreBlock(k: Kernel, st: BlkStore, data: seq<byte>, hash: Digest) returns (ret: int)
    requires Sized(st)
    modifies k`files, k`open, k`writeReplies
    ensures StoreOutcome(k.files, ret, k.writeReplies)
            == StoreRun(old(k.files), BlockPath(st, Name(hash)), data, old(k.writeReplies))
    ensures k.open == old(k.open)
  {
    hide WriteRun, BlockPath, Combined, Name, WriteAt, Moved;
    var path := BlockFile(st, hash);
    var present := FileExists(k, path);
    if !present {
      var fd := k.OpenCreate(path);
      ret := SWrite(k, fd, OffBytes(1));
      ghost var n := WriteRun(old(k.writeReplies), REF_SIZE).done;
      assert k.files == old(k.files)[path := OffBytes(1)[..n]] by { FreshWrite(OffBytes(1)[..n]); }
      if ret != REF_SIZE {
        var _ := k.Close(fd);
        return -1;
      }
      assert OffBytes(1)[..n] == OffBytes(1) by { WholeChunk(old(k.writeReplies)); }
      ghost var m := WriteRun(k.writeReplies, |data|).done;
      ret := SWrite(k, fd, data);
      assert k.files == old(k.files)[path := OffBytes(1) + data[..m]] by { WriteAtEnd(OffBytes(1), data[..m]); }
      var _ := k.Close(fd);
      if ret != |data| {
        return -1;
      }
      return ret;
    }
    return 0;
  }

  lemma FreshWrite(data: seq<byte>)
    ensures WriteAt([], 0, data) == data
  {
  }

  lemma WholeChunk(rs: seq<Reply>)
    requires WriteRun(rs, REF_SIZE).last == REF_SIZE
    ensures WriteRun(rs, REF_SIZE).ok && WriteRun(rs, REF_SIZE).done == REF_SIZE
  {
    WriteReportsWhole(rs, REF_SIZE);
  }

  /** `load_block`: `data` is what it puts in the payload buffer; `refs` is an
      output its only caller has no variable for. */
  method LoadBlock(k: Kernel, st: BlkStore, hash: Digest) returns (ret: int, data: seq<byte>, refs: int)
    requires Sized(st) && NoFailure(k.readReplies)
    modifies k`open, k`readReplies
    ensures k.open == old(k.open) && NoFailure(k.readReplies)
    ensures match Loaded(k.files, BlockPath(st, Name(hash)))
            case LoadFailed(e) => ret == e && data == []
            case Payload(d) => ret == 0 && data == d
    ensures ret == 0 ==> refs == FromLe(k.files[BlockPath(st, Name(hash))][..REF_SIZE])
  {
    hide ReadRun, BlockPath, Combined, Name, Moved, NoFailure;
    var path := BlockFile(st, hash);
    refs := 0;
    var present := FileExists(k, path);
    if present {
      var fd := k.Open(path);
      var _ := k.Seek(fd, 0, FromStart);
      var r, counter := SRead(k, fd, REF_SIZE);
      if r <= 0 {
        var _ := k.Close(fd);
        return -1, [], 0;
      }
      var _ := k.Seek(fd, REF_SIZE, FromStart);
      r, data := SRead(k, fd, BLOCK_SIZE);
      var _ := k.Close(fd);
      if r <= 0 {
        return -1, [], 0;
      }
      assert r == Min(BLOCK_SIZE, |k.files[path]| - REF_SIZE);
      refs := FromLe(counter);
      ret := 0;
    } else {
      return -EEXIST, [], 0;
    }
  }

  /** `block_get_size`: the length of the block file, counter included. */
  method BlockGetSize(k: Kernel, st: BlkStore, hash: Digest) returns (ret: int)
    requires Sized(st)
    modifies k`open
    ensures k.open == old(k.open)
    ensures ret == FileSize(k.files, BlockPath(st, Name(hash)))
    ensures BlockPath(st, Name(hash)) !in k.files ==> ret == -1
    ensures BlockPath(st, Name(hash)) in k.files ==> ret == |k.files[BlockPath(st, Name(hash))]|
  {
    hide BlockPath, Combined, Name;
    var path := BlockFile(st, hash);
    var fd := k.Open(path);
    if fd == -1 {
      return -1;
    }
    var _ := k.Seek(fd, REF_SIZE, FromStart);
    ret := k.Seek(fd, 0, FromEnd);
    var _ := k.Close(fd);
  }

  function FileSize(files: Files, path: string): int {
    if path in files then |files[path]| else -1
  }

  /** The `int` that a `size_t` is returned as. */
  function Int32(v: int): (r: int)
    ensures -0x8000_0000 <= r < 0x8000_0000 && (v - r) % 0x1_0000_0000 == 0
  {
    var u := v % 0x1_0000_0000;
    if u < 0x8000_0000 then u else u - 0x1_0000_0000
  }

  /** The files with the counter of one block changed, and the value returned:
      `block_inc_ref` and `block_dec_ref` with `delta` 1 and -1.  Only a decrement
      looks for zero.  `whole` says that the counter is written in one piece;
      when it is not, an error is reported although the counter has changed. */
  function Recounted(files: Files, path: string, delta: int, whole: bool): (Files, int) {
    if path !in files || |files[path]| < REF_SIZE then (files, -1)
    else
      var refs := (FromLe(files[path][..REF_SIZE]) + delta) % TWO64;
      if delta == -1 && refs == 0 then (files - {path}, 0)
      else (files[path := BlockBytes(refs, files[path][REF_SIZE..])], if whole then Int32(refs) else -1)
  }

  lemma CounterRead(refs: int, data: seq<byte>)
    requires 0 <= refs < TWO64
    ensures FromLe(BlockBytes(refs, data)[..REF_SIZE]) == refs && BlockBytes(refs, data)[REF_SIZE..] == data
  {
    hide Le, FromLe, Radix;
    Radix8();
    FromLeLe(refs, 8);
    assert BlockBytes(refs, data)[..REF_SIZE] == OffBytes(refs);
  }

  /** Counting up or down a block with `refs` references: only a decrement to zero
      removes the file, payload and other files stay.  What it returns is their new
      number, as far as an `int` holds it; zero when a decrement removes the
      block; and -1 when the new counter is cut up. */
  lemma RecountReturns(files: Files, path: string, data: seq<byte>, refs: int, delta: int, whole: bool)
    requires path in files && files[path] == BlockBytes(refs, data)
    requires 0 <= refs < TWO64 && (delta == 1 || delta == -1)
    ensures Recounted(files, path, delta, whole).0
            == if refs == 1 && delta == -1 then files - {path}
               else files[path := BlockBytes((refs + delta) % TWO64, data)]
    ensures var ret := Recounted(files, path, delta, whole).1;
            && (whole && 0 < refs < 0x7FFF_FFFF ==> ret == refs + delta)
            && (whole ==> -0x8000_0000 <= ret < 0x8000_0000 && (ret - (refs + delta)) % 0x1_0000_0000 == 0)
            && (refs == 1 && delta == -1 ==> ret == 0)
            && (!whole && (refs != 1 || delta != -1) ==> ret == -1)
  {
    hide BlockBytes, Int32;
    CounterRead(refs, data);
    assert |BlockBytes(refs, data)| >= REF_SIZE;
    var refs' := (refs + delta) % TWO64;
    Int32Known(refs', refs + delta);
  }

  lemma Int32Known(v: int, w: int)
    requires v == w % TWO64
    ensures -0x8000_0000 <= Int32(v) < 0x8000_0000 && (Int32(v) - w) % 0x1_0000_0000 == 0
    ensures 0 <= w < 0x8000_0000 ==> Int32(v) == w
  {
    hide Int32;
    var j, k := (v - Int32(v)) / 0x1_0000_0000, w / TWO64;
    assert Int32(v) - w == 0x1_0000_0000 * (-j - 0x1_0000_0000 * k);
    Multiple(-j - 0x1_0000_0000 * k);
    if 0 <= w < 0x8000_0000 {
      Int32Small(w);
    }
  }

  lemma Multiple(m: int)
    ensures 0x1_0000_0000 * m % 0x1_0000_0000 == 0
  {
  }

  lemma Int32Small(v: int)
    requires 0 <= v < 0x8000_0000
    ensures Int32(v) == v == v % TWO64
  {
  }

  /** A file that cannot hold a counter, or none at all: -1 and no change. */
  lemma RecountFails(files: Files, path: string, delta: int, whole: bool)
    requires path in files ==> |files[path]| < 8
    ensures Recounted(files, path, delta, whole) == (files, -1)
  {
  }

  /** Writing a new counter over the old one. */
  method WriteCounter(k: Kernel, fd: int, refs: int) returns (r: int)
    requires NoFailure(k.writeReplies) && k.Usable(fd) && |k.files[k.open[fd].path]| >= REF_SIZE
    modifies k`open, k`files, k`writeReplies
    ensures NoFailure(k.writeReplies)
    ensures k.open - {fd} == old(k.open) - {fd}
    ensures r == REF_SIZE <==> FirstChunkWhole(old(k.writeReplies), REF_SIZE)
    ensures var path := old(k.open)[fd].path;
            k.files == old(k.files)[path := BlockBytes(refs, old(k.files)[path][REF_SIZE..])]
  {
    hide WriteRun, FirstChunkWhole, NoFailure, OnlyInterrupts, WriteAt, BlockBytes;
    var _ := k.Seek(fd, 0, FromStart);
    WriteIgnoresChunking(k.writeReplies, REF_SIZE);
    WriteReportsWhole(k.writeReplies, REF_SIZE);
    CounterWrite(k.files[k.open[fd].path], refs);
    assert OffBytes(refs)[..REF_SIZE] == OffBytes(refs);
    r := SWrite(k, fd, OffBytes(refs));
  }

  /** `block_inc_ref`. */
  method BlockIncRef(k: Kernel, st: BlkStore, hash: Digest) returns (ret: int)
    requires Sized(st) && NoFailure(k.readReplies) && NoFailure(k.writeReplies)
    modifies k
    ensures k.open == old(k.open)
    ensures (k.files, ret) == Recounted(old(k.files), BlockPath(st, Name(hash)), 1,
                                        FirstChunkWhole(old(k.writeReplies), REF_SIZE))
  {
    hide ReadRun, FirstChunkWhole, BlockPath, Combined, Name, Moved, NoFailure, BlockBytes;
    var path := BlockFile(st, hash);
    var fd := k.Open(path);
    if fd == -1 {
      return -1;
    }
    var _ := k.Seek(fd, 0, FromStart);
    var r, counter := SRead(k, fd, REF_SIZE);
    if r != REF_SIZE {
      var _ := k.Close(fd);
      return -1;
    }
    var refs := (FromLe(counter) + 1) % TWO64;
    r := WriteCounter(k, fd, refs);
    var _ := k.Close(fd);
    if r != REF_SIZE {
      return -1;
    }
    return Int32(refs);
  }

  /** `block_dec_ref`. */
  method BlockDecRef(k: Kernel, st: BlkStore, hash: Digest) returns (ret: int)
    requires Sized(st) && NoFailure(k.readReplies) && NoFailure(k.writeReplies)
    modifies k
    ensures k.open == old(k.open)
    ensures (k.files, ret) == Recounted(old(k.files), BlockPath(st, Name(hash)), -1,
                                        FirstChunkWhole(old(k.writeReplies), REF_SIZE))
  {
    hide ReadRun, FirstChunkWhole, BlockPath, Combined, Name, Moved, NoFailure, BlockBytes;
    var path := BlockFile(st, hash);
    var fd := k.Open(path);
    if fd == -1 {
      return -1;
    }
    var _ := k.Seek(fd, 0, FromStart);
    var r, counter := SRead(k, fd, REF_SIZE);
    if r != REF_SIZE {
      var _ := k.Close(fd);
      return -1;
    }
    var refs := (FromLe(counter) - 1) % TWO64;
    if refs == 0 {
      k.Unlink(path);
    } else {
      r := WriteCounter(k, fd, refs);
      if r != REF_SIZE {
        var _ := k.Close(fd);
        return -1;
      }
    }
    var _ := k.Close(fd);
    return Int32(refs);
  }

  lemma CounterWrite(bytes: seq<byte>, refs: int)
    requires |bytes| >= REF_SIZE
    ensures WriteAt(bytes, 0, OffBytes(refs)) == BlockBytes(refs, bytes[REF_SIZE..])
  {
  }
}
