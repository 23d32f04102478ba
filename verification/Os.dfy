/** The part of the operating system that CFS stands on: named files, open
    descriptors with a cursor, and `read`, `write` and `lseek`.  How much a
    `read` or `write` moves, and when it is interrupted, is decided by two
    scripts of replies; a script that has run out means whole transfers. */
module Os {
  import opened Bytes

  datatype Reply =
    | Interrupted    // -1, errno == EINTR
    | Failed         // -1, any other errno
    | Upto(n: nat)   // a short transfer: at most n bytes, but some if any can be moved

  datatype Desc = Desc(path: string, pos: nat)

  datatype Whence = FromStart | FromHere | FromEnd

  function Next(rs: seq<Reply>): seq<Reply> { if rs == [] then [] else rs[1..] }

  /** How many of the `most` bytes that could be moved the next call moves. */
  function Granted(rs: seq<Reply>, most: nat): (n: nat)
    ensures n <= most
    ensures most > 0 && !Refused(rs) ==> n > 0
  {
    if rs == [] then most
    else match rs[0]
      case Upto(m) => if m == 0 then Min(most, 1) else Min(most, m)
      case _ => 0
  }

  /** The next call returns -1. */
  predicate Refused(rs: seq<Reply>) { rs != [] && !rs[0].Upto? }

  predicate NoFailure(rs: seq<Reply>) { forall i :: 0 <= i < |rs| ==> !rs[i].Failed? }

  predicate OnlyInterrupts(rs: seq<Reply>) { forall i :: 0 <= i < |rs| ==> rs[i].Interrupted? }

  function Available(bytes: seq<byte>, pos: nat): nat {
    if pos < |bytes| then |bytes| - pos else 0
  }

  /** `data` written over `bytes` at `pos`; a gap before `pos` is filled with zeros. */
  function WriteAt(bytes: seq<byte>, pos: nat, data: seq<byte>): (r: seq<byte>)
    ensures data == [] ==> r == bytes
    ensures data != [] ==> |r| == Max(|bytes|, pos + |data|) && r[pos..pos + |data|] == data
  {
    if data == [] then bytes
    else
      var padded := if pos <= |bytes| then bytes else bytes + Zeros(pos - |bytes|);
      padded[..pos] + data + if pos + |data| <= |padded| then padded[pos + |data|..] else []
  }

  lemma WriteAtTwice(bytes: seq<byte>, pos: nat, a: seq<byte>, b: seq<byte>)
    ensures WriteAt(WriteAt(bytes, pos, a), pos + |a|, b) == WriteAt(bytes, pos, a + b)
  {
    if a == [] {
      assert a + b == b;
    } else if b == [] {
      assert a + b == a;
    }
  }

  lemma WriteAtEnd(bytes: seq<byte>, data: seq<byte>)
    ensures WriteAt(bytes, |bytes|, data) == bytes + data
  {
  }

  /** `n` bytes of a file from position `pos` on. */
  function Slice(bytes: seq<byte>, pos: nat, n: nat): (r: seq<byte>)
    requires n <= Available(bytes, pos)
    ensures |r| == n
  {
    if n == 0 then [] else bytes[pos..pos + n]
  }

  lemma SliceTwice(bytes: seq<byte>, pos: nat, m: nat, n: nat)
    requires m + n <= Available(bytes, pos)
    ensures Available(bytes, pos + m) == Available(bytes, pos) - m
    ensures Slice(bytes, pos, m) + Slice(bytes, pos + m, n) == Slice(bytes, pos, m + n)
  {
  }

  /** The open descriptors after the cursor of `fd` moves `n` bytes forward. */
  function Moved(open: map<int, Desc>, fd: int, n: nat): (r: map<int, Desc>)
    requires fd in open
    ensures r.Keys == open.Keys
    ensures r[fd] == Desc(open[fd].path, open[fd].pos + n)
    ensures r - {fd} == open - {fd}
  {
    open[fd := Desc(open[fd].path, open[fd].pos + n)]
  }

  lemma MovedTwice(open: map<int, Desc>, fd: int, m: nat, n: nat)
    requires fd in open
    ensures Moved(open, fd, 0) == open
    ensures Moved(Moved(open, fd, m), fd, n) == Moved(open, fd, m + n)
  {
  }

  /** The files after `data` is written at the cursor of `fd`. */
  function Stored(files: map<string, seq<byte>>, d: Desc, data: seq<byte>): (r: map<string, seq<byte>>)
    requires d.path in files
    ensures r.Keys == files.Keys
  {
    files[d.path := WriteAt(files[d.path], d.pos, data)]
  }

  lemma StoredTwice(files: map<string, seq<byte>>, d: Desc, a: seq<byte>, b: seq<byte>)
    requires d.path in files
    ensures Stored(files, d, []) == files
    ensures Stored(Stored(files, d, a), d.(pos := d.pos + |a|), b) == Stored(files, d, a + b)
  {
    WriteAtTwice(files[d.path], d.pos, a, b);
  }

  /** The numbers 0 to n - 1. */
  function Below(n: nat): (r: set<int>)
    ensures |r| == n
    ensures forall i :: i in r <==> 0 <= i < n
  {
    if n == 0 then {} else Below(n - 1) + {n - 1}
  }

  lemma {:induction false} SubsetSize<T>(a: set<T>, b: set<T>)
    requires a <= b
    ensures |a| <= |b|
  {
    if x :| x in a {
      SubsetSize(a - {x}, b - {x});
    }
  }

  /** Descriptors 0 to n - 1 can all be taken only if n are open. */
  lemma TakenBelow(open: map<int, Desc>, n: nat)
    requires forall i :: 0 <= i < n ==> i in open
    ensures n <= |open|
  {
    assert Below(n) <= open.Keys;
    SubsetSize(Below(n), open.Keys);
  }

  class Kernel {
    var files: map<string, seq<byte>>
    var open: map<int, Desc>
    var readReplies: seq<Reply>
    var writeReplies: seq<Reply>

    constructor ()
      ensures files == map[] && open == map[] && readReplies == [] && writeReplies == []
    {
      files, open, readReplies, writeReplies := map[], map[], [], [];
    }

    /** Descriptor `fd` is open on a file that has a name. */
    predicate Usable(fd: int)
      reads this
    {
      fd in open && open[fd].path in files
    }

    /** No `read` or `write` fails; transfers may be short or interrupted. */
    predicate Steady()
      reads this
    {
      NoFailure(readReplies) && NoFailure(writeReplies)
    }

    /** No `write` is short. */
    predicate Whole()
      reads this
    {
      OnlyInterrupts(writeReplies)
    }

    /** `open` on an existing name (`access(path, F_OK)` has the same test); the
        lowest free descriptor is handed out, as POSIX requires. */
    method Open(path: string) returns (fd: int)
      modifies this`open
      ensures path !in files ==> fd == -1 && open == old(open)
      ensures path in files ==> open - {fd} == old(open)
      ensures path in files ==> fd >= 0 && fd !in old(open) && open == old(open)[fd := Desc(path, 0)]
    {
      if path !in files {
        return -1;
      }
      fd := LowestFree();
      open := open[fd := Desc(path, 0)];
    }

    /** `open` with `O_CREAT`: an empty file is made when there is none. */
    method OpenCreate(path: string) returns (fd: int)
      modifies this`open, this`files
      ensures fd >= 0 && fd !in old(open) && open == old(open)[fd := Desc(path, 0)]
      ensures open - {fd} == old(open)
      ensures files == if path in old(files) then old(files) else old(files)[path := []]
    {
      if path !in files {
        files := files[path := []];
      }
      fd := LowestFree();
      open := open[fd := Desc(path, 0)];
    }

    /** `open` with `O_CREAT | O_EXCL`. */
    method OpenExclusive(path: string) returns (fd: int)
      modifies this`open, this`files
      ensures path in old(files) ==> fd == -1 && open == old(open) && files == old(files)
      ensures path !in old(files) ==>
                && fd >= 0 && fd !in old(open) && open == old(open)[fd := Desc(path, 0)]
                && open - {fd} == old(open)
                && files == old(files)[path := []]
    {
      if path in files {
        return -1;
      }
      fd := OpenCreate(path);
    }

    method LowestFree() returns (fd: int)
      ensures fd >= 0 && fd !in open && forall i :: 0 <= i < fd ==> i in open
    {
      fd := 0;
      while fd in open
        invariant fd >= 0 && forall i :: 0 <= i < fd ==> i in open
        decreases |open| - fd
      {
        TakenBelow(open, fd + 1);
        fd := fd + 1;
      }
    }

    /** `close`; it fails on a descriptor that is not open. */
    method Close(fd: int) returns (r: int)
      modifies this`open
      ensures open == old(open) - {fd}
      ensures r == if fd in old(open) then 0 else -1
    {
      r := if fd in open then 0 else -1;
      open := open - {fd};
    }

    method Unlink(path: string)
      modifies this`files
      ensures files == old(files) - {path}
    {
      files := files - {path};
    }

    /** `lseek`; seeking before the start fails and leaves the cursor. */
    method Seek(fd: int, offset: int, whence: Whence) returns (r: int)
      requires Usable(fd)
      modifies this`open
      ensures var d := old(open)[fd];
              var target := offset
                            + match whence case FromStart => 0 case FromHere => d.pos case FromEnd => |files[d.path]|;
              if target < 0 then r == -1 && open == old(open)
              else r == target && open == old(open)[fd := d.(pos := target)]
      ensures open - {fd} == old(open) - {fd} && open.Keys == old(open).Keys
    {
      var d := open[fd];
      match whence {
        case FromStart => r := offset;
        case FromHere => r := d.pos + offset;
        case FromEnd => r := |files[d.path]| + offset;
      }
      if r < 0 {
        r := -1;
      } else {
        open := open[fd := d.(pos := r)];
      }
    }

    /** One `read` of at most `n` bytes; `data` is what it puts in the buffer. */
    method Read(fd: int, n: nat) returns (r: int, eintr: bool, data: seq<byte>)
      requires Usable(fd)
      modifies this`open, this`readReplies
      ensures readReplies == Next(old(readReplies))
      ensures if Refused(old(readReplies)) then
                r == -1 && eintr == old(readReplies)[0].Interrupted? && open == old(open) && data == []
              else
                var d := old(open)[fd];
                && r == Granted(old(readReplies), Min(n, Available(files[d.path], d.pos)))
                && open == Moved(old(open), fd, r)
                && data == Slice(files[d.path], d.pos, r)
    {
      var rs := readReplies;
      readReplies := Next(readReplies);
      if Refused(rs) {
        return -1, rs[0].Interrupted?, [];
      }
      var d := open[fd];
      r, eintr := Granted(rs, Min(n, Available(files[d.path], d.pos))), false;
      data := Slice(files[d.path], d.pos, r);
      open := Moved(open, fd, r);
    }

    /** One `write` of at most all of `data`. */
    method Write(fd: int, data: seq<byte>) returns (r: int, eintr: bool)
      requires Usable(fd)
      modifies this`open, this`writeReplies, this`files
      ensures writeReplies == Next(old(writeReplies))
      ensures if Refused(old(writeReplies)) then
                r == -1 && eintr == old(writeReplies)[0].Interrupted? && open == old(open) && files == old(files)
              else
                && r == Granted(old(writeReplies), |data|)
                && open == Moved(old(open), fd, r)
                && files == Stored(old(files), old(open)[fd], data[..r])
    {
      var rs := writeReplies;
      writeReplies := Next(writeReplies);
      if Refused(rs) {
        return -1, rs[0].Interrupted?;
      }
      r, eintr := Granted(rs, |data|), false;
      files := Stored(files, open[fd], data[..r]);
      open := Moved(open, fd, r);
    }
  }
}
