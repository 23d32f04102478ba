/** The steps on an open pair-list file that the functions of cfs/src/cfs.c are
    made of.  `m` is what the file holds when the step begins. */
module PairFile {
  import opened Bytes
  import opened Os
  import opened Io
  import opened PairList

  /** `fd` is open on a file that encodes `m`. */
  ghost predicate Holds(k: Kernel, fd: int, m: Meta)
    reads k
  {
    k.Steady() && k.Usable(fd) && k.files[k.open[fd].path] == Encode(m) && Fits(m)
  }

  lemma OffAt(m: Meta, i: nat)
    requires Fits(m) && i < |m.pairs|
    ensures var at := BLOCK_START + BLOCK_PAIR * i;
            && Available(Encode(m), at) >= BLOCK_PAIR
            && Off(Slice(Encode(m), at, 8)) == m.pairs[i].index
            && Available(Encode(m), at + 8) >= HASH_LENGTH
            && Slice(Encode(m), at + 8, HASH_LENGTH) == m.pairs[i].digest
  {
    hide Encode, Off, OffBytes;
    PairAt(m, i);
    OffOfBytes(m.pairs[i].index);
  }

  /** `cfs_file_find_index`: 1 with the cursor between the number and the digest
      of the first pair for `index`, or 0 when there is none. */
  method FindIndex(k: Kernel, fd: int, totalBlocks: int, index: int, ghost m: Meta) returns (ret: int)
    requires Holds(k, fd, m)
    modifies k`open, k`readReplies
    ensures Holds(k, fd, m)
    ensures ret == if totalBlocks != 0 && Find(m.pairs, index) < |m.pairs| then 1 else 0
    ensures k.open - {fd} == old(k.open) - {fd} && k.open.Keys == old(k.open).Keys
    ensures k.open[fd].path == old(k.open)[fd].path
    ensures ret == 1 ==> k.open[fd].pos == BLOCK_START + BLOCK_PAIR * Find(m.pairs, index) + 8
  {
    hide Encode, ReadRun, Off, Slice, NoFailure, OnlyInterrupts, Find, Fits;
    if totalBlocks == 0 {
      return 0;
    }
    var _ := k.Seek(fd, BLOCK_START, FromStart);
    ghost var i := 0;
    while true
      invariant 0 <= i <= |m.pairs| && forall j :: 0 <= j < i ==> m.pairs[j].index != index
      invariant Holds(k, fd, m)
      invariant k.open - {fd} == old(k.open) - {fd} && k.open.Keys == old(k.open).Keys
      invariant k.open[fd] == Desc(old(k.open)[fd].path, BLOCK_START + BLOCK_PAIR * i)
      decreases |m.pairs| - i
    {
      var bytesRead, indexBuff := SRead(k, fd, 8);
      if i < |m.pairs| {
        OffAt(m, i);
      }
      if bytesRead == 0 {
        FindIs(m.pairs, index, |m.pairs|);
        return 0;
      } else if Off(indexBuff) == index {
        FindIs(m.pairs, index, i);
        return 1;
      } else {
        var _ := k.Seek(fd, HASH_LENGTH, FromHere);
        i := i + 1;
      }
    }
  }

  /** Reading the digest of pair `i`. */
  method ReadHash(k: Kernel, fd: int, ghost m: Meta, ghost i: nat) returns (hash: Digest)
    requires Holds(k, fd, m) && i < |m.pairs|
    requires k.open[fd].pos == BLOCK_START + BLOCK_PAIR * i + 8
    modifies k`open, k`readReplies
    ensures Holds(k, fd, m) && hash == m.pairs[i].digest
    ensures k.open == Moved(old(k.open), fd, HASH_LENGTH)
  {
    hide Encode, ReadRun, NoFailure, OnlyInterrupts, Slice, Fits, Moved;
    OffAt(m, i);
    var _, data := SRead(k, fd, HASH_LENGTH);
    hash := data;
  }

  /** Writing the digest just read back to where it was. */
  method WriteHashBack(k: Kernel, fd: int, hash: Digest, ghost m: Meta, ghost i: nat)
    requires Holds(k, fd, m) && i < |m.pairs| && hash == m.pairs[i].digest
    requires k.open[fd].pos == BLOCK_START + BLOCK_PAIR * i + 28
    modifies k`open, k`writeReplies, k`files
    ensures Holds(k, fd, m) && k.files == old(k.files)
    ensures old(k.Whole()) ==> k.Whole()
    ensures k.open - {fd} == old(k.open) - {fd} && k.open.Keys == old(k.open).Keys
    ensures k.open[fd].path == old(k.open)[fd].path
  {
    hide Encode, WriteRun, NoFailure, OnlyInterrupts, WriteAt, Fits;
    WriteBack(m, i);
    var _ := k.Seek(fd, -20, FromHere);
    var _ := SWrite(k, fd, hash);
  }

  /** Appending a pair at the end of the file. */
  method AppendPair(k: Kernel, fd: int, index: int, hash: Digest)
    requires k.Steady() && k.Usable(fd)
    modifies k`open, k`writeReplies, k`files
    ensures k.Steady()
    ensures old(k.Whole()) ==> k.Whole()
    ensures k.open - {fd} == old(k.open) - {fd} && k.open.Keys == old(k.open).Keys
    ensures k.open[fd].path == old(k.open)[fd].path
    ensures var path := old(k.open)[fd].path;
            var bytes := old(k.files)[path];
            k.files == old(k.files)[path := WriteAt(WriteAt(bytes, |bytes|, OffBytes(index)), |bytes| + 8, hash)]
  {
    hide WriteRun, NoFailure, OnlyInterrupts, WriteAt;
    var _ := k.Seek(fd, 0, FromEnd);
    var _ := SWrite(k, fd, OffBytes(index));
    var _ := SWrite(k, fd, hash);
  }

  /** Writing the size and the number of blocks over the old ones. */
  method WriteHeader(k: Kernel, fd: int, size: int, totalBlocks: int)
    requires k.Steady() && k.Usable(fd)
    modifies k`open, k`writeReplies, k`files
    ensures k.Steady()
    ensures old(k.Whole()) ==> k.Whole()
    ensures k.open - {fd} == old(k.open) - {fd} && k.open.Keys == old(k.open).Keys
    ensures k.open[fd].path == old(k.open)[fd].path
    ensures var path := old(k.open)[fd].path;
            k.files == old(k.files)[path := Rewritten(old(k.files)[path], size, totalBlocks)]
  {
    hide WriteRun, NoFailure, OnlyInterrupts, WriteAt;
    var _ := k.Seek(fd, SIZE_START, FromStart);
    var _ := SWrite(k, fd, OffBytes(size));
    var _ := SWrite(k, fd, OffBytes(totalBlocks));
  }

  /** Reading the size and the number of blocks, as `cfs_register_file` does into
      fields that hold `size` and `totalBlocks` so far: a file that ends early
      leaves the bytes it does not have. */
  method ReadHeader(k: Kernel, fd: int, size: int, totalBlocks: int)
      returns (failed: bool, newSize: int, newBlocks: int)
    requires k.Steady() && k.Usable(fd)
    modifies k`open, k`readReplies
    ensures k.Steady()
    ensures k.open - {fd} == old(k.open) - {fd} && k.open.Keys == old(k.open).Keys
    ensures k.open[fd].path == old(k.open)[fd].path
    ensures !failed
    ensures |k.files[k.open[fd].path]| >= BLOCK_START ==>
              && newSize == Off(k.files[k.open[fd].path][7..15])
              && newBlocks == Off(k.files[k.open[fd].path][15..23])
  {
    hide ReadRun, NoFailure, OnlyInterrupts, Off;
    var r0 := k.Seek(fd, SIZE_START, FromStart);
    var r1, sizeBuff := SRead(k, fd, 8);
    var r2, blocks := SRead(k, fd, 8);
    newSize := Off(sizeBuff + OffBytes(size)[|sizeBuff|..]);
    newBlocks := Off(blocks + OffBytes(totalBlocks)[|blocks|..]);
    failed := r0 < 0 || r1 < 0 || r2 < 0;
    var bytes := k.files[k.open[fd].path];
    if |bytes| >= BLOCK_START {
      assert sizeBuff + OffBytes(size)[|sizeBuff|..] == bytes[7..15];
      assert blocks + OffBytes(totalBlocks)[|blocks|..] == bytes[15..23];
    }
  }

  /** The three writes of `cfs_create_file` to a file that is empty. */
  method WriteEmpty(k: Kernel, fd: int)
    requires k.Steady() && k.Usable(fd) && k.open[fd].pos == 0 && k.files[k.open[fd].path] == []
    modifies k`open, k`writeReplies, k`files
    ensures k.Steady()
    ensures old(k.Whole()) ==> k.Whole()
    ensures k.open - {fd} == old(k.open) - {fd} && k.open.Keys == old(k.open).Keys
    ensures k.open[fd].path == old(k.open)[fd].path
    ensures k.files == old(k.files)[old(k.open)[fd].path := Encode(Meta(0, []))]
    ensures k.files[k.open[fd].path] == [67, 70, 83, 48, 46, 49, 0, 0, 0, 0, 0, 0, 0, 0, 0, 0, 0, 0, 0, 0, 0, 0, 0]
  {
    hide WriteRun, NoFailure, OnlyInterrupts, WriteAt, OffBytes, Encode;
    EmptyWrites();
    EmptyFile();
    var _ := SWrite(k, fd, MAGIC);
    var _ := SWrite(k, fd, OffBytes(0));
    var _ := SWrite(k, fd, OffBytes(0));
  }

  lemma EmptyWrites()
    ensures WriteAt(WriteAt(WriteAt([], 0, MAGIC), 7, OffBytes(0)), 15, OffBytes(0)) == Encode(Meta(0, []))
  {
    assert WriteAt([], 0, MAGIC) == MAGIC;
    assert WriteAt(MAGIC, 7, OffBytes(0)) == MAGIC + OffBytes(0);
    assert WriteAt(MAGIC + OffBytes(0), 15, OffBytes(0)) == MAGIC + OffBytes(0) + OffBytes(0);
  }
}
