/** `s_read`, `s_write` and `s_lseek`: system calls repeated over interruptions
    and short transfers (cfs/src/io.c). */
module Io {
  import opened Bytes
  import opened Os

  /** What a retry loop comes to: whether no call failed, the bytes moved, and
      the replies not used.  `last` is what the last system call returned. */
  datatype Outcome = Outcome(ok: bool, done: nat, last: int, rest: seq<Reply>)
  {
    function After(n: nat): Outcome { this.(done := done + n) }
  }

  /** The effect of the loop in `s_read` when `left` bytes are wanted and
      `avail` lie after the cursor. */
  function ReadRun(rs: seq<Reply>, avail: nat, left: nat): (o: Outcome)
    decreases |rs|, left
    ensures o.done <= Min(left, avail)
  {
    if rs != [] && rs[0].Interrupted? then
      if left > 0 then ReadRun(rs[1..], avail, left) else Outcome(true, 0, -1, rs[1..])
    else if rs != [] && rs[0].Failed? then Outcome(false, 0, -1, rs[1..])
    else
      var k := Granted(rs, Min(left, avail));
      if left - k > 0 && k != 0 then ReadRun(Next(rs), avail - k, left - k).After(k)
      else Outcome(true, k, k, Next(rs))
  }

  /** The effect of the loop in `s_write` when `left` bytes are to be written. */
  function WriteRun(rs: seq<Reply>, left: nat): (o: Outcome)
    decreases |rs|, left
    ensures o.done <= left
    ensures o.last <= o.done
    ensures !o.ok ==> o.last == -1
  {
    if rs != [] && rs[0].Interrupted? then
      if left > 0 then WriteRun(rs[1..], left) else Outcome(true, 0, -1, rs[1..])
    else if rs != [] && rs[0].Failed? then Outcome(false, 0, -1, rs[1..])
    else
      var k := Granted(rs, left);
      if left - k > 0 then WriteRun(Next(rs), left - k).After(k)
      else Outcome(true, k, k, Next(rs))
  }

  lemma ReadRunStep(rs: seq<Reply>, avail: nat, left: nat)
    ensures ReadRun(rs, avail, left)
            == if Refused(rs) then
                 if rs[0].Failed? then Outcome(false, 0, -1, Next(rs))
                 else if left > 0 then ReadRun(Next(rs), avail, left)
                 else Outcome(true, 0, -1, Next(rs))
               else
                 var k := Granted(rs, Min(left, avail));
                 if left - k > 0 && k != 0 then ReadRun(Next(rs), avail - k, left - k).After(k)
                 else Outcome(true, k, k, Next(rs))
  {
  }

  lemma WriteRunStep(rs: seq<Reply>, left: nat)
    ensures WriteRun(rs, left)
            == if Refused(rs) then
                 if rs[0].Failed? then Outcome(false, 0, -1, Next(rs))
                 else if left > 0 then WriteRun(Next(rs), left)
                 else Outcome(true, 0, -1, Next(rs))
               else
                 var k := Granted(rs, left);
                 if left - k > 0 then WriteRun(Next(rs), left - k).After(k)
                 else Outcome(true, k, k, Next(rs))
  {
  }

  /** However the kernel cuts the transfer up, `s_read` gets all there is. */
  lemma {:induction false} ReadIgnoresChunking(rs: seq<Reply>, avail: nat, left: nat)
    requires NoFailure(rs)
    ensures var o := ReadRun(rs, avail, left); o.ok && o.done == Min(left, avail) && NoFailure(o.rest)
    decreases |rs|, left
  {
    if rs != [] && rs[0].Interrupted? {
      if left > 0 {
        ReadIgnoresChunking(rs[1..], avail, left);
      }
    } else {
      var k := Granted(rs, Min(left, avail));
      if left - k > 0 && k != 0 {
        ReadIgnoresChunking(Next(rs), avail - k, left - k);
      }
    }
  }

  /** However the kernel cuts the transfer up, `s_write` writes everything; what
      it returns is the length of the last chunk. */
  lemma {:induction false} WriteIgnoresChunking(rs: seq<Reply>, left: nat)
    requires NoFailure(rs)
    ensures var o := WriteRun(rs, left);
            o.ok && o.done == left && NoFailure(o.rest) && (left > 0 ==> 1 <= o.last <= left)
    decreases |rs|, left
  {
    if rs != [] && rs[0].Interrupted? {
      if left > 0 {
        WriteIgnoresChunking(rs[1..], left);
      }
    } else {
      var k := Granted(rs, left);
      if left - k > 0 {
        WriteIgnoresChunking(Next(rs), left - k);
      }
    }
  }

  /** The first reply that is not an interruption moves all of `n` bytes. */
  predicate FirstChunkWhole(rs: seq<Reply>, n: nat) {
    if rs == [] then true
    else match rs[0]
      case Interrupted => FirstChunkWhole(rs[1..], n)
      case Failed => false
      case Upto(m) => n <= m || n <= 1
  }

  /** The replies before the first failure move `n` bytes in all. */
  predicate Supplies(rs: seq<Reply>, n: nat) {
    if n == 0 || rs == [] then true
    else match rs[0]
      case Interrupted => Supplies(rs[1..], n)
      case Failed => false
      case Upto(m) => n <= Max(m, 1) || Supplies(rs[1..], n - Max(m, 1))
  }

  /** When `s_write` places everything, failures included. */
  lemma {:induction false} WriteDoneExactly(rs: seq<Reply>, n: nat)
    ensures WriteRun(rs, n).done == n <==> Supplies(rs, n)
    decreases |rs|
  {
    if rs != [] && n > 0 {
      match rs[0] {
        case Interrupted => WriteDoneExactly(rs[1..], n);
        case Failed =>
        case Upto(m) =>
          if Max(m, 1) < n {
            WriteDoneExactly(rs[1..], n - Max(m, 1));
          }
      }
    }
  }

  /** When a caller that compares the result of `s_write` with the length it
      asked for (as `store_block` does) takes the write for a success. */
  lemma {:induction false} WriteReportsWhole(rs: seq<Reply>, n: nat)
    requires n > 0
    ensures WriteRun(rs, n).last == n <==> FirstChunkWhole(rs, n)
    ensures WriteRun(rs, n).last == n ==> WriteRun(rs, n).done == n
    decreases |rs|
  {
    if rs != [] && rs[0].Interrupted? {
      WriteReportsWhole(rs[1..], n);
    } else if rs != [] && rs[0].Upto? {
      var k := Granted(rs, n);
      if n - k > 0 {
        LastBelow(Next(rs), n - k);
      }
    }
  }

  lemma {:induction false} LastBelow(rs: seq<Reply>, left: nat)
    ensures WriteRun(rs, left).last <= left
    decreases |rs|, left
  {
  }

  lemma {:induction false} OnlyInterruptsWhole(rs: seq<Reply>, n: nat)
    requires OnlyInterrupts(rs) && n > 0
    ensures WriteRun(rs, n).last == n && WriteRun(rs, n).done == n && OnlyInterrupts(WriteRun(rs, n).rest)
    decreases |rs|
  {
    if rs != [] {
      OnlyInterruptsWhole(rs[1..], n);
    }
  }

  /** `file_exists`. */
  method FileExists(k: Kernel, path: string) returns (r: bool)
    ensures r == (path in k.files)
  {
    r := path in k.files;
  }

  /** `s_read`: up to `count` bytes; `data` is what it puts in the buffer. */
  method SRead(k: Kernel, fd: int, count: nat) returns (r: int, data: seq<byte>)
    requires k.Usable(fd)
    modifies k`open, k`readReplies
    ensures var d := old(k.open)[fd];
            var o := ReadRun(old(k.readReplies), Available(k.files[d.path], d.pos), count);
            && k.readReplies == o.rest
            && r == (if o.ok then o.done else -1)
            && data == Slice(k.files[d.path], d.pos, o.done)
            && k.open == Moved(old(k.open), fd, o.done)
    ensures NoFailure(old(k.readReplies)) ==> NoFailure(k.readReplies)
    ensures NoFailure(old(k.readReplies)) ==>
              r == |data| == Min(count, Available(k.files[old(k.open)[fd].path], old(k.open)[fd].pos))
  {
    hide Slice, Moved, Granted, Available, NoFailure, ReadRun;
    ghost var d := k.open[fd];
    ghost var bytes := k.files[d.path];
    ghost var run := ReadRun(k.readReplies, Available(bytes, d.pos), count);
    if NoFailure(k.readReplies) {
      ReadIgnoresChunking(k.readReplies, Available(bytes, d.pos), count);
    }
    var bytesRead, bytesLeft := 0, count;
    data := [];
    MovedTwice(k.open, fd, 0, 0);
    var more := true;
    while more
      invariant 0 <= bytesLeft && bytesLeft + |data| == count && |data| <= Available(bytes, d.pos)
      invariant k.open == Moved(old(k.open), fd, |data|)
      invariant data == Slice(bytes, d.pos, |data|)
      invariant if more then run == ReadRun(k.readReplies, Available(bytes, d.pos) - |data|, bytesLeft).After(|data|)
                else run == Outcome(true, |data|, bytesRead, k.readReplies)
      decreases |k.readReplies|, bytesLeft, more
    {
      SliceTwice(bytes, d.pos, |data|, 0);
      ReadRunStep(k.readReplies, Available(bytes, d.pos) - |data|, bytesLeft);
      var eintr, chunk;
      bytesRead, eintr, chunk := k.Read(fd, bytesLeft);
      if bytesRead == -1 {
        if !eintr {
          return -1, data;
        }
      } else {
        SliceTwice(bytes, d.pos, |data|, bytesRead);
        MovedTwice(old(k.open), fd, |data|, bytesRead);
        bytesLeft := bytesLeft - bytesRead;
        data := data + chunk;
      }
      more := bytesLeft > 0 && bytesRead != 0;
    }
    return count - bytesLeft, data;
  }

  lemma NextChunk(data: seq<byte>, from: nat, n: nat)
    requires from + n <= |data|
    ensures data[..from] + data[from..][..n] == data[..from + n]
  {
  }

  /** `s_write`: all of `data` at the cursor. */
  method SWrite(k: Kernel, fd: int, data: seq<byte>) returns (r: int)
    requires k.Usable(fd)
    modifies k`open, k`writeReplies, k`files
    ensures var o := WriteRun(old(k.writeReplies), |data|);
            && k.writeReplies == o.rest
            && r == (if o.ok then o.last else -1)
            && k.open == Moved(old(k.open), fd, o.done)
            && k.files == Stored(old(k.files), old(k.open)[fd], data[..o.done])
    ensures NoFailure(old(k.writeReplies)) ==>
              && NoFailure(k.writeReplies)
              && k.open == Moved(old(k.open), fd, |data|)
              && k.files == Stored(old(k.files), old(k.open)[fd], data)
    ensures OnlyInterrupts(old(k.writeReplies)) && data != [] ==> OnlyInterrupts(k.writeReplies) && r == |data|
  {
    hide Stored, Moved, Granted, OnlyInterrupts, NoFailure, WriteRun;
    ghost var d := k.open[fd];
    ghost var run := WriteRun(k.writeReplies, |data|);
    if NoFailure(k.writeReplies) {
      WriteIgnoresChunking(k.writeReplies, |data|);
      assert data[..|data|] == data;
    }
    if OnlyInterrupts(k.writeReplies) && data != [] {
      OnlyInterruptsWhole(k.writeReplies, |data|);
    }
    var bytesWritten, bytesLeft, buffer := 0, |data|, 0;
    MovedTwice(k.open, fd, 0, 0);
    StoredTwice(k.files, d, [], []);
    var more := true;
    while more
      invariant 0 <= bytesLeft && 0 <= buffer && buffer + bytesLeft == |data|
      invariant k.open == Moved(old(k.open), fd, buffer)
      invariant k.files == Stored(old(k.files), d, data[..buffer])
      invariant if more then run == WriteRun(k.writeReplies, bytesLeft).After(buffer)
                else run == Outcome(true, buffer, bytesWritten, k.writeReplies)
      decreases |k.writeReplies|, bytesLeft, more
    {
      WriteRunStep(k.writeReplies, bytesLeft);
      var eintr;
      bytesWritten, eintr := k.Write(fd, data[buffer..]);
      if bytesWritten == -1 {
        if !eintr {
          return -1;
        }
      } else {
        NextChunk(data, buffer, bytesWritten);
        StoredTwice(old(k.files), d, data[..buffer], data[buffer..][..bytesWritten]);
        MovedTwice(old(k.open), fd, buffer, bytesWritten);
        bytesLeft := bytesLeft - bytesWritten;
        buffer := buffer + bytesWritten;
      }
      more := bytesLeft > 0;
    }
    return bytesWritten;
  }
}
