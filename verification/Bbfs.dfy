/** The page loops and the callbacks around them (cfs/src/bbfs.c). */
module Bbfs {
  import opened Bytes
  import opened Os
  import opened PairList
  import opened Storage
  import opened Contents
  import opened Disk
  import opened Table
  import opened Cfs

  /** Offsets up to here stay in the range of `off_t` when a loop steps past them. */
  const OFFSET_LIMIT: int := 0x7FFF_FFFF_FFFF_F000

  method MemSet(a: array<byte>)
    modifies a
    ensures a[..] == Zeros(a.Length)
  {
    forall i | 0 <= i < a.Length {
      a[i] := 0;
    }
  }

  method MemCpy(a: array<byte>, at: nat, data: seq<byte>)
    requires data == [] || at + |data| <= a.Length
    modifies a
    ensures a[..] == if data == [] then old(a[..]) else Splice(old(a[..]), at, data)
  {
    forall i | 0 <= i < |data| {
      a[at + i] := data[i];
    }
  }

  /** The block that `bb_write` assembles for one page. */
  lemma Assembled(pages: Pages, q: int, rem: nat, oldPage: seq<byte>, data: seq<byte>)
    requires rem + |data| <= BLOCK_SIZE && |oldPage| <= BLOCK_SIZE
    requires rem > 0 ==> oldPage == if q in pages then pages[q] else []
    ensures var base := if rem > 0 then Splice(Zeros(BLOCK_SIZE), 0, oldPage) else Zeros(BLOCK_SIZE);
            Splice(base, rem, data)[..rem + |data|] == Lead(pages, q, rem) + data
  {
    var base := if rem > 0 then Splice(Zeros(BLOCK_SIZE), 0, oldPage) else Zeros(BLOCK_SIZE);
    var blk, want := Splice(base, rem, data)[..rem + |data|], Lead(pages, q, rem) + data;
    forall i | 0 <= i < rem + |data|
      ensures blk[i] == want[i]
    {
      if i < rem {
        assert blk[i] == base[i];
        assert want[i] == Lead(pages, q, rem)[i];
      }
    }
  }

  /** One turn of the loop of `bb_write` does the first chunk of the plan and
      leaves the plan for the rest. */
  lemma WriteStep(fs: Fs, h: Hash, path: string, cur: nat, end: nat, data: seq<byte>)
    requires Inv(fs, h) && path in fs.metas && cur < end <= OFFSET_LIMIT && end - cur <= |data|
    ensures var rem := cur % BLOCK_SIZE;
            var right := Min(BLOCK_SIZE, rem + end - cur);
            var payload := Lead(PagesOf(fs, path), cur / BLOCK_SIZE, rem) + data[..right - rem];
            var fs' := Register(fs, h, path, cur / BLOCK_SIZE, payload);
            && Inv(fs', h) && path in fs'.metas
            && RegisterAll(fs, h, path, Plan(PagesOf(fs, path), cur, end, data))
               == RegisterAll(fs', h, path, Plan(PagesOf(fs', path), cur + right, end, data[right - rem..]))
  {
    hide Inv, PagesOf, Register, Lead, Plan, RegisterAll;
    var rem := cur % BLOCK_SIZE;
    var right := Min(BLOCK_SIZE, rem + end - cur);
    var pages := PagesOf(fs, path);
    var payload := Lead(pages, cur / BLOCK_SIZE, rem) + data[..right - rem];
    PlanHead(pages, cur, end, data);
    PlanBehind(pages, cur, end, data, Held(fs.blocks, h, payload));
    RegisterPages(fs, h, path, cur / BLOCK_SIZE, payload);
    RegisterAllHead(fs, h, path, Plan(pages, cur, end, data));
  }

  /** `slot` holds the record of `fh`, which is in step with its file. */
  ghost predicate Writable(s: CfsState, slot: nat, fh: int)
    reads s, s.kernel, s.table, s.table.fds, s.table.files
  {
    && s.Valid() && fh != -1
    && slot < s.table.fds.Length && s.table.fds[slot] == fh
    && slot < s.table.files.Length && fh in s.table.records && s.table.records[fh] == s.table.files[slot]
    && Synced(s.table.files[slot], s.fs)
  }

  /** Building the block for page `q`: the old page where the write starts inside
      it, then the new bytes. */
  method FillBlock(s: CfsState, slot: nat, fh: int, blk: array<byte>, q: nat, rem: nat, data: seq<byte>)
    requires Writable(s, slot, fh) && blk.Length == BLOCK_SIZE && rem + |data| <= BLOCK_SIZE
    modifies s.kernel, blk
    ensures Writable(s, slot, fh) && s.kernel.files == old(s.kernel.files)
    ensures s.kernel.writeReplies == old(s.kernel.writeReplies)
    ensures s.kernel.open.Keys == old(s.kernel.open).Keys
    ensures blk[..rem + |data|] == Lead(PagesOf(s.fs, s.table.files[slot].path), q, rem) + data
  {
    hide Inv, OnDisk, PagesOf, Lead, HandlesOk, Splice, Zeros, FdTable.Valid;
    ghost var pages := PagesOf(s.fs, s.table.files[slot].path);
    NoPages(s.fs, s.table.files[slot].path);
    PageSize(s.fs, s.hash, s.table.files[slot].path, q);
    MemSet(blk);
    var oldPage := [];
    if rem != 0 {
      var _, was := s.ReadBlock(slot, q);
      oldPage := was;
      MemCpy(blk, 0, oldPage);
    }
    MemCpy(blk, rem, data);
    Assembled(pages, q, rem, oldPage, data);
  }

  lemma NoPages(fs: Fs, path: string)
    requires path in fs.metas
    ensures |fs.metas[path].pairs| == 0 ==> PagesOf(fs, path) == map[]
  {
    if |fs.metas[path].pairs| == 0 {
      assert Indices(fs.metas[path].pairs) == {};
    }
  }

  lemma PageSize(fs: Fs, h: Hash, path: string, q: int)
    requires Inv(fs, h)
    ensures q in PagesOf(fs, path) ==> 1 <= |PagesOf(fs, path)[q]| <= BLOCK_SIZE
  {
  }

  /** `bb_write`.  It ignores the results of its registrations, so it does what it
      is asked for only while none fails; for that no write may be short. */
  method BbWrite(s: CfsState, buf: seq<byte>, offset: nat, fh: int) returns (ret: int)
    requires s.Valid() && s.kernel.Whole() && fh != -1 && offset + |buf| <= OFFSET_LIMIT
    requires fh in s.table.records ==> Synced(s.table.records[fh], s.fs)
    modifies s`fs, s.kernel, s.table`records, s.table.files
    ensures s.Valid() && s.kernel.Whole() && s.kernel.open.Keys == old(s.kernel.open).Keys
    ensures SameNames(old(s.kernel.files), s.kernel.files, s.storage)
    ensures fh !in old(s.table.records) ==>
              && ret == -1 && s.fs == old(s.fs)
              && s.kernel.files == old(s.kernel.files) && s.table.records == old(s.table.records)
    ensures fh in old(s.table.records) ==>
              && ret == |buf|
              && s.fs == WriteFile(old(s.fs), s.hash, old(s.table.records)[fh].path, offset, buf)
              && fh in s.table.records && Synced(s.table.records[fh], s.fs)
              && s.table.records[fh].path == old(s.table.records)[fh].path
              && s.table.records == old(s.table.records)[fh := s.table.records[fh]]
  {
    hide Inv, OnDisk, PagesOf, Plan, RegisterAll, Register, Lead, HandlesOk, FdTable.Valid, StoreRun,
         OnlyInterrupts, NoFailure, WithBlock, SameNames;
    SameNamesTwice(s.kernel.files, s.kernel.files, s.kernel.files, s.storage);
    var slot := s.table.GetFile(fh);
    if slot == -1 {
      return -1;
    }
    SlotRecord(s.table, slot);
    ghost var path := s.table.files[slot].path;
    var size := |buf|;
    var end := offset + size;
    var currentOffset, bufferIndex := offset, 0;
    var blk := new byte[BLOCK_SIZE];
    assert buf[0..] == buf;
    ghost var goal := WriteFile(s.fs, s.hash, path, offset, buf);
    while currentOffset < end
      invariant offset <= currentOffset && 0 <= bufferIndex <= currentOffset - offset && bufferIndex <= size
      invariant Writable(s, slot, fh) && s.kernel.Whole() && s.table.files[slot].path == path
      invariant s.kernel.open.Keys == old(s.kernel.open).Keys
      invariant SameNames(old(s.kernel.files), s.kernel.files, s.storage)
      invariant s.table.records == old(s.table.records)[fh := s.table.files[slot]]
      invariant goal
                == RegisterAll(s.fs, s.hash, path, Plan(PagesOf(s.fs, path), currentOffset, end, buf[bufferIndex..]))
      decreases end - currentOffset
    {
      ghost var before := s.kernel.files;
      var rem := currentOffset % BLOCK_SIZE;
      var left, right := rem, Min(BLOCK_SIZE, rem + offset + size - currentOffset);
      var data := buf[bufferIndex..][..right - left];
      FillBlock(s, slot, fh, blk, currentOffset / BLOCK_SIZE, rem, data);
      WriteStep(s.fs, s.hash, path, currentOffset, end, buf[bufferIndex..]);
      var _ := s.RegisterBlock(slot, currentOffset / BLOCK_SIZE, blk[..right]);
      SameNamesTwice(old(s.kernel.files), before, s.kernel.files, s.storage);
      assert buf[bufferIndex..][right - left..] == buf[bufferIndex + (right - left)..];
      currentOffset := currentOffset + right;
      bufferIndex := bufferIndex + (right - left);
    }
    PlanEmpty(PagesOf(s.fs, path), currentOffset, end, buf[bufferIndex..]);
    RegisterAllNone(s.fs, s.hash, path);
    return size;
  }

  // -------------------------------------------------------------------- read

  /** The pages a handle sees: none as long as its record says there are no blocks. */
  function SeenPages(file: CfsFile, fs: Fs): Pages {
    if file.totalBlocks == 0 then map[] else PagesOf(fs, file.path)
  }

  /** A handle whose record has fallen behind its file still sees every page,
      unless it was registered while the file was empty: then it sees none. */
  lemma StaleHandle(file: CfsFile, fs: Fs, h: Hash)
    requires Inv(fs, h) && file.path in fs.metas
    ensures SeenPages(file, fs) == PagesOf(fs, file.path)
            <==> file.totalBlocks != 0 || fs.metas[file.path].pairs == []
    ensures file.totalBlocks == 0 ==> SeenPages(file, fs) == map[]
  {
    var m := fs.metas[file.path];
    if m.pairs == [] {
      NoPages(fs, file.path);
    } else {
      PagesKeys(m, fs.blocks, m.pairs[0].index);
      assert Find(m.pairs, m.pairs[0].index) == 0;
    }
  }

  /** What `bb_read` returns: `size` rounded up to end at a page boundary. */
  function ReadLength(offset: nat, size: nat): (r: nat)
    ensures size == 0 ==> r == 0
    ensures size > 0 ==> size <= r < size + BLOCK_SIZE && (offset + r) % BLOCK_SIZE == 0
  {
    if size == 0 then 0 else (offset + size + (BLOCK_SIZE - 1)) / BLOCK_SIZE * BLOCK_SIZE - offset
  }

  /** Where in the page `q` a read at `offset` begins. */
  function LeftIn(offset: nat, q: int): nat {
    if q == offset / BLOCK_SIZE then offset % BLOCK_SIZE else 0
  }

  /** Whether a read at `offset` of `size` bytes writes index `i` of its buffer.
      Of a page that is there everything is copied, whether asked for or not, but
      in the page the read starts in the end of the copied range is moved back by
      the starting position a second time. */
  predicate ReadWrites(pages: Pages, offset: nat, size: nat, i: nat) {
    var q, o := (offset + i) / BLOCK_SIZE, (offset + i) % BLOCK_SIZE;
    if q in pages then o < |pages[q]| - LeftIn(offset, q) else i < size
  }

  /** The byte that such a read leaves at index `i` of a buffer that held `was` there. */
  function ReadByte(pages: Pages, offset: nat, size: nat, i: nat, was: byte): byte {
    var q, o := (offset + i) / BLOCK_SIZE, (offset + i) % BLOCK_SIZE;
    if !ReadWrites(pages, offset, size, i) then was
    else if q in pages then pages[q][o]
    else 0
  }

  /** Every byte up to the end of the last page that the loop turns to, inside the
      request or behind it: where the copied range of a page reaches, the byte of
      the page; where a page is absent, zero, but only inside the request; and
      what was there before everywhere else. */
  lemma ReadLeaves(pages: Pages, offset: nat, size: nat, i: nat, was: byte)
    ensures var q, o := (offset + i) / 4096, (offset + i) % 4096;
            var left := if q == offset / 4096 then offset % 4096 else 0;
            && (q in pages && o < |pages[q]| - left ==> ReadByte(pages, offset, size, i, was) == pages[q][o])
            && (q in pages && o >= |pages[q]| - left ==> ReadByte(pages, offset, size, i, was) == was)
            && (q !in pages ==> ReadByte(pages, offset, size, i, was) == if i < size then 0 else was)
  {
  }

  /** The buffer has room for every byte that the read writes. */
  predicate Roomy(pages: Pages, offset: nat, size: nat, length: nat) {
    forall i :: length <= i < ReadLength(offset, size) ==> !ReadWrites(pages, offset, size, i)
  }

  /** The bytes of one page that `bb_read` copies into its buffer. */
  function PagePart(pages: Pages, q: int, left: nat, room: nat): (r: seq<byte>)
    requires left + room <= BLOCK_SIZE
    requires q in pages ==> |pages[q]| <= BLOCK_SIZE
    ensures q in pages ==> |r| == Max(|pages[q]| - left - left, 0)
    ensures q !in pages ==> |r| == room
    ensures |r| <= BLOCK_SIZE - left
  {
    if q in pages then
      var right := |pages[q]| - left;
      if right - left > 0 then pages[q][left..right] else []
    else Zeros(room)
  }

  /** One turn of the loop of `bb_read` puts the right bytes at the right indices. */
  lemma ReadStep(pages: Pages, offset: nat, size: nat, cur: nat, i: nat, was: byte)
    requires offset <= cur < offset + size && (cur == offset || cur % BLOCK_SIZE == 0)
    requires cur - offset <= i < cur - offset + BLOCK_SIZE - cur % BLOCK_SIZE
    requires cur / BLOCK_SIZE in pages ==> |pages[cur / BLOCK_SIZE]| <= BLOCK_SIZE
    ensures var rem := cur % BLOCK_SIZE;
            var part := PagePart(pages, cur / BLOCK_SIZE, rem, Min(BLOCK_SIZE - rem, offset + size - cur));
            && (ReadWrites(pages, offset, size, i) <==> i - (cur - offset) < |part|)
            && ReadByte(pages, offset, size, i, was)
               == if i - (cur - offset) < |part| then part[i - (cur - offset)] else was
  {
    var q := cur / BLOCK_SIZE;
    assert offset + i == BLOCK_SIZE * q + (cur % BLOCK_SIZE + (i - (cur - offset)));
  }

  /** The part of a page that is copied fits a buffer that has room for the read. */
  lemma PartFits(pages: Pages, offset: nat, size: nat, cur: nat, length: nat)
    requires offset <= cur < offset + size && (cur == offset || cur % BLOCK_SIZE == 0)
    requires cur / BLOCK_SIZE in pages ==> |pages[cur / BLOCK_SIZE]| <= BLOCK_SIZE
    requires Roomy(pages, offset, size, length)
    ensures var rem := cur % BLOCK_SIZE;
            var part := PagePart(pages, cur / BLOCK_SIZE, rem, Min(BLOCK_SIZE - rem, offset + size - cur));
            part == [] || cur - offset + |part| <= length
  {
    hide ReadWrites, ReadByte, PagePart;
    var rem := cur % BLOCK_SIZE;
    var part := PagePart(pages, cur / BLOCK_SIZE, rem, Min(BLOCK_SIZE - rem, offset + size - cur));
    if part != [] {
      var last := cur - offset + |part| - 1;
      NextPage(offset, size, cur);
      ReadStep(pages, offset, size, cur, last, 0);
    }
  }

  /** Copying one page into the caller's buffer. */
  method CopyPage(s: CfsState, slot: nat, fh: int, buf: array<byte>, at: nat, q: nat, left: nat, room: nat,
                  ghost pages: Pages)
    requires s.Valid() && slot < s.table.fds.Length && s.table.fds[slot] == fh != -1
    requires slot < s.table.files.Length && pages == SeenPages(s.table.files[slot], s.fs)
    requires left + room <= BLOCK_SIZE && (q in pages ==> |pages[q]| <= BLOCK_SIZE)
    requires PagePart(pages, q, left, room) == [] || at + |PagePart(pages, q, left, room)| <= buf.Length
    modifies s.kernel, buf
    ensures s.Valid() && s.kernel.files == old(s.kernel.files) && s.kernel.open.Keys == old(s.kernel.open).Keys
    ensures s.kernel.writeReplies == old(s.kernel.writeReplies)
    ensures buf[..] == if PagePart(pages, q, left, room) == [] then old(buf[..])
                       else Splice(old(buf[..]), at, PagePart(pages, q, left, room))
  {
    hide Inv, OnDisk, PagesOf, HandlesOk, Splice, FdTable.Valid;
    var found, data := s.ReadBlock(slot, q);
    if found != 0 {
      var right := |data| - left;
      MemCpy(buf, at, if right - left > 0 then data[left..right] else []);
    } else {
      MemCpy(buf, at, Zeros(room));
    }
  }

  lemma SeenPageSize(file: CfsFile, fs: Fs, h: Hash, q: int)
    requires Inv(fs, h)
    ensures q in SeenPages(file, fs) ==> 1 <= |SeenPages(file, fs)[q]| <= BLOCK_SIZE
  {
    hide PagesOf;
    PageSize(fs, h, file.path, q);
  }

  /** `bb_read` of `size` bytes at `offset` into `buf`, which need only have room
      for the bytes that are written. */
  method BbRead(s: CfsState, buf: array<byte>, size: nat, offset: nat, fh: int) returns (ret: int)
    requires s.Valid() && fh != -1 && offset + size <= OFFSET_LIMIT
    requires fh in s.table.records ==> Roomy(SeenPages(s.table.records[fh], s.fs), offset, size, buf.Length)
    modifies s.kernel, buf
    ensures s.Valid() && s.kernel.files == old(s.kernel.files) && s.kernel.open.Keys == old(s.kernel.open).Keys
    ensures s.kernel.writeReplies == old(s.kernel.writeReplies)
    ensures fh !in s.table.records ==> ret == -1 && buf[..] == old(buf[..])
    ensures fh in s.table.records ==>
              && ret == ReadLength(offset, size)
              && (forall i :: 0 <= i < buf.Length && i < ret ==>
                    buf[i] == ReadByte(SeenPages(s.table.records[fh], s.fs), offset, size, i, old(buf[i])))
              && (forall i :: ret <= i < buf.Length ==> buf[i] == old(buf[i]))
  {
    hide Inv, OnDisk, PagesOf, HandlesOk, FdTable.Valid, ReadByte, PagePart, SeenPages, Roomy, ReadWrites;
    var slot := s.table.GetFile(fh);
    if slot == -1 {
      return -1;
    }
    SlotRecord(s.table, slot);
    ghost var pages := SeenPages(s.table.files[slot], s.fs);
    var currentOffset, bufferIndex := offset, 0;
    while currentOffset < offset + size
      invariant bufferIndex == currentOffset - offset
      invariant 0 <= bufferIndex <= ReadLength(offset, size)
      invariant currentOffset == offset || currentOffset % BLOCK_SIZE == 0
      invariant currentOffset >= offset + size ==> bufferIndex == ReadLength(offset, size)
      invariant s.Valid() && s.kernel.files == old(s.kernel.files) && s.kernel.open.Keys == old(s.kernel.open).Keys
      invariant s.kernel.writeReplies == old(s.kernel.writeReplies)
      invariant forall i :: 0 <= i < buf.Length ==>
                  buf[i] == if i < bufferIndex then ReadByte(pages, offset, size, i, old(buf[i])) else old(buf[i])
      decreases offset + size - currentOffset
    {
      var rem := currentOffset % BLOCK_SIZE;
      NextPage(offset, size, currentOffset);
      SeenPageSize(s.table.files[slot], s.fs, s.hash, currentOffset / BLOCK_SIZE);
      PartFits(pages, offset, size, currentOffset, buf.Length);
      ghost var before := buf[..];
      var room := Min(BLOCK_SIZE - rem, offset + size - currentOffset);
      CopyPage(s, slot, fh, buf, bufferIndex, currentOffset / BLOCK_SIZE, rem, room, pages);
      forall i | 0 <= i < buf.Length
        ensures buf[i] == if i < bufferIndex + (BLOCK_SIZE - rem) then ReadByte(pages, offset, size, i, old(buf[i]))
                          else old(buf[i])
      {
        assert buf[i] == buf[..][i];
        if bufferIndex <= i < bufferIndex + (BLOCK_SIZE - rem) {
          ReadStep(pages, offset, size, currentOffset, i, old(buf[i]));
        }
      }
      currentOffset := currentOffset + (BLOCK_SIZE - rem);
      bufferIndex := bufferIndex + (BLOCK_SIZE - rem);
    }
    return currentOffset - offset;
  }

  lemma NextPage(offset: nat, size: nat, cur: nat)
    requires offset <= cur < offset + size
    ensures var next := cur + (BLOCK_SIZE - cur % BLOCK_SIZE);
            && next % BLOCK_SIZE == 0
            && next - offset <= ReadLength(offset, size)
            && (next >= offset + size ==> next - offset == ReadLength(offset, size))
  {
  }

  // ------------------------------------------------- create, open and release

  const ENOENT: int := 2
  const EBADF: int := 9

  /** `bb_mknod` of a regular file: made, given its header, and closed. */
  method BbMknod(s: CfsState, path: string) returns (retstat: int)
    requires s.Valid() && Apart(path, s.storage)
    modifies s`fs, s.kernel
    ensures s.Valid() && s.table.records == old(s.table.records)
    ensures old(s.kernel.Whole()) ==> s.kernel.Whole()
    ensures path in old(s.kernel.files) ==>
              retstat == -EEXIST && s.fs == old(s.fs) && s.kernel.files == old(s.kernel.files)
    ensures path !in old(s.kernel.files) ==>
              && retstat == 0
              && path !in old(s.fs).metas
              && s.kernel.files == old(s.kernel.files)[path := Encode(Meta(0, []))]
              && s.kernel.files[path] == [67, 70, 83, 48, 46, 49, 0] + Zeros(16)
              && s.fs == old(s.fs).(metas := old(s.fs).metas[path := Meta(0, [])])
    ensures s.kernel.open == old(s.kernel.open)
  {
    hide Inv, OnDisk, FdTable.Valid, HandlesOk, Encode;
    EmptyFile();
    retstat := s.CreateFile(path);
    if retstat >= 0 {
      retstat := s.kernel.Close(retstat);
      HandlesShrink(s.table.records, old(s.kernel.open), old(s.fs), s.fs);
    }
  }

  lemma HandlesShrink(records: Records, open: map<int, Desc>, fs: Fs, fs': Fs)
    requires HandlesOk(records, open, fs) && fs.metas.Keys <= fs'.metas.Keys
    ensures HandlesOk(records, open, fs')
  {
  }

  /** `bb_open`: result and handle are the negative error number when there is no such file. */
  method BbOpen(s: CfsState, path: string) returns (retstat: int, fh: int)
    requires s.Valid() && (path in s.kernel.files ==> path in s.fs.metas)
    modifies s.kernel, s.table, s.table.fds, s.table.files
    ensures s.Valid() && s.kernel.files == old(s.kernel.files) && s.kernel.writeReplies == old(s.kernel.writeReplies)
    ensures path !in s.kernel.files ==> retstat == fh == -ENOENT && s.table.records == old(s.table.records)
    ensures path in s.kernel.files ==>
              && retstat == 0 && fh >= 0 && fh !in old(s.table.records)
              && fh in s.table.records && s.table.records == old(s.table.records)[fh := s.table.records[fh]]
              && s.table.records[fh].path == path && Synced(s.table.records[fh], s.fs)
    ensures s.table.fds == old(s.table.fds) || fresh(s.table.fds)
    ensures s.table.files == old(s.table.files) || fresh(s.table.files)
  {
    hide Inv, OnDisk, FdTable.Valid, HandlesOk;
    fh := s.kernel.Open(path);
    if fh < 0 {
      return -ENOENT, -ENOENT;
    }
    HandlesGrow(s.table.records, old(s.kernel.open), s.kernel.open, s.fs, s.fs, fh);
    RecordsOpen(s.table.records, old(s.kernel.open), s.fs);
    var _ := s.RegisterFile(path, fh);
    return 0, fh;
  }

  lemma RecordsOpen(records: Records, open: map<int, Desc>, fs: Fs)
    requires HandlesOk(records, open, fs)
    ensures forall fd :: fd in records ==> fd in open
  {
  }

  /** `bb_release`: the results of the two calls, combined bit by bit. */
  method BbRelease(s: CfsState, fh: int) returns (ret: int)
    requires s.Valid()
    modifies s.kernel, s.table, s.table.fds
    ensures s.Valid() <==> fh != -1
    ensures s.kernel.files == old(s.kernel.files) && s.kernel.open == old(s.kernel.open) - {fh}
    ensures s.kernel.writeReplies == old(s.kernel.writeReplies)
    ensures ret == if fh in old(s.table.records) then 0
                   else if fh != -1 then -1
                   else if fh in old(s.kernel.open) then 0 else -EBADF
    ensures s.table.records == old(s.table.records) - {fh}
    ensures s.table.fds == old(s.table.fds) && s.table.files == old(s.table.files)
  {
    hide Inv, OnDisk, FdTable.Valid, HandlesOk;
    RecordsOpen(s.table.records, s.kernel.open, s.fs);
    ret := s.ReleaseFile(fh);
    var closed := s.kernel.Close(fh);
    if closed < 0 {
      ret := if ret == 0 then -EBADF else -1;  // ret | -EBADF
    }
    HandlesClosed(old(s.table.records), old(s.kernel.open), s.fs, fh);
  }

  lemma HandlesClosed(records: Records, open: map<int, Desc>, fs: Fs, fd: int)
    requires HandlesOk(records, open, fs)
    ensures HandlesOk(records - {fd}, open - {fd}, fs)
  {
  }

  /** Reopening loses nothing: after a handle is released, a new one on the same
      file has the size and the number of blocks of the old one, and reads
      through it return the bytes that reads through the old one would have. */
  method Reopen(s: CfsState, fh: int, path: string) returns (fh': int)
    requires s.Valid() && fh in s.table.records && fh != -1 && Synced(s.table.records[fh], s.fs)
    requires path == s.table.records[fh].path
    modifies s.kernel, s.table, s.table.fds, s.table.files
    ensures s.Valid() && s.fs == old(s.fs) && s.kernel.files == old(s.kernel.files)
    ensures s.kernel.writeReplies == old(s.kernel.writeReplies)
    ensures fh' in s.table.records
    ensures s.table.records[fh'].path == old(s.table.records)[fh].path
    ensures s.table.records[fh'].size == old(s.table.records)[fh].size
    ensures s.table.records[fh'].totalBlocks == old(s.table.records)[fh].totalBlocks
    ensures SeenPages(s.table.records[fh'], s.fs) == SeenPages(old(s.table.records)[fh], old(s.fs))
  {
    hide Inv, FdTable.Valid, PagesOf;
    FileHeader(s.kernel.files, s.fs, s.storage, s.hash, path);
    var _ := BbRelease(s, fh);
    var _, reopened := BbOpen(s, path);
    fh' := reopened;
  }
}
