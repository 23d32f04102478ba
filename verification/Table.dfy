/** The descriptor table: two parallel arrays searched from the front, doubled
    when half full (cfs/src/cfs.c, `cfs_init`, `cfs_register_file`,
    `cfs_release_file`, `cfs_get_file`). */
module Table {
  import opened Bytes
  import opened Os

  const FDS_STORE_INITIAL: nat := 20

  /** `cfs_file_t`. */
  datatype CfsFile = CfsFile(path: string, offset: int, size: int, totalBlocks: int, fd: int)

  type Records = map<int, CfsFile>

  /** 20 times a power of two. */
  predicate IsCapacity(c: nat) {
    c == FDS_STORE_INITIAL || (c > FDS_STORE_INITIAL && c % 2 == 0 && IsCapacity(c / 2))
  }

  lemma {:induction false} CapacityEven(c: nat)
    requires IsCapacity(c)
    ensures c >= 20 && c % 2 == 0
    decreases c
  {
    if c != FDS_STORE_INITIAL {
      CapacityEven(c / 2);
    }
  }

  /** Every occupied slot lies in the lower half and holds the record of its own
      descriptor; no descriptor has two slots. */
  predicate SlotsOk(fds: seq<int>, files: seq<CfsFile>, records: Records) {
    && |fds| == |files|
    && (forall i :: 0 <= i < |fds| && fds[i] != -1 ==>
          2 * i < |fds| && fds[i] in records && records[fds[i]] == files[i])
    && (forall i, j :: 0 <= i < j < |fds| && fds[i] == fds[j] ==> fds[i] == -1)
  }

  /** Every record has a slot. */
  predicate AllPlaced(fds: seq<int>, records: Records) {
    forall fd :: fd in records ==> fd != -1 && fd in fds
  }

  /** The number of slots filled before a free one is at most the number of records. */
  lemma {:induction false} FilledPrefix(fds: seq<int>, files: seq<CfsFile>, records: Records, n: nat)
    requires SlotsOk(fds, files, records) && n <= |fds|
    requires forall i :: 0 <= i < n ==> fds[i] != -1
    ensures n <= |records|
  {
    var used := Used(fds, n);
    assert used <= records.Keys;
    SubsetSize(used, records.Keys);
  }

  function Used(fds: seq<int>, n: nat): (r: set<int>)
    requires n <= |fds|
    requires forall i, j :: 0 <= i < j < n ==> fds[i] != fds[j]
    ensures |r| == n
    ensures forall x :: x in r <==> x in fds[..n]
  {
    if n == 0 then {}
    else
      assert fds[..n] == fds[..n - 1] + [fds[n - 1]];
      Used(fds, n - 1) + {fds[n - 1]}
  }

  /** First fit puts the next record into the lower half of a table less than half full. */
  lemma SlotsInsert(fds: seq<int>, files: seq<CfsFile>, records: Records, i: nat, r: CfsFile)
    requires SlotsOk(fds, files, records) && AllPlaced(fds, records)
    requires 2 * |records| < |fds|
    requires i < |fds| && fds[i] == -1 && forall j :: 0 <= j < i ==> fds[j] != -1
    requires r.fd != -1 && r.fd !in records
    ensures 2 * i < |fds|
    ensures SlotsOk(fds[i := r.fd], files[i := r], records[r.fd := r])
    ensures AllPlaced(fds[i := r.fd], records[r.fd := r])
  {
    FilledPrefix(fds, files, records, i);
    var fds' := fds[i := r.fd];
    assert fds'[i] == r.fd;
    forall fd | fd in records
      ensures fd in fds'
    {
      var j :| 0 <= j < |fds| && fds[j] == fd;
      assert fds'[j] == fd;
    }
  }

  lemma SlotsRemove(fds: seq<int>, files: seq<CfsFile>, records: Records, i: nat)
    requires SlotsOk(fds, files, records) && AllPlaced(fds, records)
    requires i < |fds| && fds[i] != -1
    ensures SlotsOk(fds[i := -1], files, records - {fds[i]})
    ensures AllPlaced(fds[i := -1], records - {fds[i]})
  {
    forall fd | fd in records && fd != fds[i]
      ensures fd in fds[i := -1]
    {
      var j :| 0 <= j < |fds| && fds[j] == fd;
      assert fds[i := -1][j] == fd;
    }
  }

  lemma SlotsUpdate(fds: seq<int>, files: seq<CfsFile>, records: Records, i: nat, r: CfsFile)
    requires SlotsOk(fds, files, records) && AllPlaced(fds, records)
    requires i < |fds| && fds[i] != -1
    ensures SlotsOk(fds, files[i := r], records[fds[i] := r])
    ensures AllPlaced(fds, records[fds[i] := r])
  {
  }

  /** Growing clears the slots from the last old one on, and no record is lost
      because that slot is always free. */
  lemma SlotsGrow(fds: seq<int>, files: seq<CfsFile>, records: Records, fds': seq<int>, files': seq<CfsFile>)
    requires SlotsOk(fds, files, records) && AllPlaced(fds, records) && |fds| >= 2
    requires |fds'| == |files'| == 2 * |fds|
    requires fds'[..|fds| - 1] == fds[..|fds| - 1] && files'[..|fds|] == files
    requires forall i :: |fds| - 1 <= i < |fds'| ==> fds'[i] == -1
    ensures fds[|fds| - 1] == -1
    ensures SlotsOk(fds', files', records)
    ensures AllPlaced(fds', records)
  {
    forall i | 0 <= i < |fds'| && fds'[i] != -1
      ensures i < |fds| - 1 && fds'[i] == fds[i] && files'[i] == files[i]
    {
      assert fds'[i] == fds'[..|fds| - 1][i];
      assert files'[i] == files'[..|fds|][i];
    }
    forall fd | fd in records
      ensures fd in fds'
    {
      var j :| 0 <= j < |fds| && fds[j] == fd;
      assert fds'[j] == fds'[..|fds| - 1][j] == fd;
    }
  }

  class FdTable {
    var fds: array<int>
    var files: array<CfsFile>
    var nFds: nat
    var fdsCap: nat
    /** The map the arrays stand for, and the most records there have been. */
    ghost var records: Records
    ghost var peak: nat

    ghost predicate Valid()
      reads this, fds, files
    {
      && fds.Length == fdsCap
      && nFds == |records| <= peak
      && 2 * nFds <= fdsCap
      && IsCapacity(fdsCap)
      && fdsCap <= Max(FDS_STORE_INITIAL, 4 * peak)
      && SlotsOk(fds[..], files[..], records)
      && AllPlaced(fds[..], records)
    }

    /** The table made by `cfs_init`. */
    constructor ()
      ensures Valid() && records == map[] && peak == 0 && fdsCap == 20
      ensures fresh(fds) && fresh(files)
    {
      var a := new int[FDS_STORE_INITIAL];
      for i := 0 to FDS_STORE_INITIAL
        invariant forall j :: 0 <= j < i ==> a[j] == -1
      {
        a[i] := -1;
      }
      fds := a;
      files := new CfsFile[FDS_STORE_INITIAL](_ => CfsFile("", 0, 0, 0, 0));
      nFds, fdsCap := 0, FDS_STORE_INITIAL;
      records, peak := map[], 0;
    }

    /** Doubling both arrays; the loop starts at the last old slot. */
    method Grow()
      requires Valid() && 2 * nFds >= fdsCap
      modifies this
      ensures Valid() && records == old(records) && peak == old(peak) && nFds == old(nFds)
      ensures fdsCap == 2 * old(fdsCap)
      ensures fresh(fds) && fresh(files)
    {
      hide IsCapacity, SlotsOk, AllPlaced;
      ghost var fds0, files0 := fds[..], files[..];
      assert |files0| == |fds0| by { SlotsLength(fds0, files0, records); }
      CapacityEven(fdsCap);
      var i := fdsCap - 1;
      fdsCap := fdsCap * 2;
      files := Realloc(files, fdsCap, CfsFile("", 0, 0, 0, 0));
      fds := Realloc(fds, fdsCap, 0);
      while i < fdsCap
        invariant |fds0| - 1 <= i <= fdsCap == fds.Length == 2 * |fds0|
        invariant fds[..|fds0| - 1] == fds0[..|fds0| - 1]
        invariant forall j :: |fds0| - 1 <= j < i ==> fds[j] == -1
        invariant fresh(fds) && fresh(files) && files.Length == fdsCap && files[..|fds0|] == files0
        modifies fds
      {
        fds[i] := -1;
        i := i + 1;
      }
      SlotsGrow(fds0, files0, records, fds[..], files[..]);
      CapacityDouble(|fds0|);
    }

    /** `cfs_get_file`: the slot that a pointer into `files` stands for.  For -1
        that is a free slot, of which there always is one. */
    method GetFile(fd: int) returns (slot: int)
      requires Valid()
      ensures if fd in records || fd == -1 then 0 <= slot < fds.Length && fds[slot] == fd else slot == -1
      ensures fd in records ==> records[fd] == files[slot]
    {
      CapacityEven(fdsCap);
      for i := 0 to fdsCap
        invariant forall j :: 0 <= j < i ==> fds[j] != fd
      {
        if fds[i] == fd {
          assert fds[..][i] == fd && files[..][i] == files[i];
          return i;
        }
      }
      assert fd !in fds[..];
      assert fds[..][fdsCap - 1] == -1;
      return -1;
    }

    /** Growth and search of `cfs_register_file`: a slot is always found, so its
        final `return -1` is never reached.  The size fields keep what they held. */
    method Insert(path: string, fd: int) returns (slot: nat)
      requires Valid() && fd != -1 && fd !in records
      modifies this, fds, files
      ensures Valid() && slot < fds.Length == files.Length && fds[slot] == fd
      ensures forall i :: 0 <= i < slot ==> fds[i] != -1
      ensures fdsCap == if 2 * old(nFds) >= old(fdsCap) then 2 * old(fdsCap) else old(fdsCap)
      ensures files[slot].path == path && files[slot].fd == fd && files[slot].offset == 0
      ensures records == old(records)[fd := files[slot]]
      ensures peak == Max(old(peak), |records|)
      ensures (fds == old(fds) || fresh(fds)) && (files == old(files) || fresh(files))
    {
      hide IsCapacity, SlotsOk, AllPlaced;
      CapacityEven(fdsCap);
      if nFds >= fdsCap / 2 {
        Grow();
        CapacityEven(fdsCap);
      }
      SlotsLength(fds[..], files[..], records);
      for i := 0 to fdsCap
        invariant forall j :: 0 <= j < i ==> fds[j] != -1
      {
        if fds[i] == -1 {
          var r := files[i].(offset := 0, fd := fd, path := path);
          SlotsInsert(fds[..], files[..], records, i, r);
          fds[i] := fd;
          files[i] := r;
          nFds := nFds + 1;
          records := records[fd := r];
          peak := Max(peak, nFds);
          return i;
        }
      }
      FilledPrefix(fds[..], files[..], records, fdsCap);
      assert false;
    }

    /** `cfs_release_file`.  Releasing -1 finds a free slot and reports success,
        but counts one slot less (as a `size_t`), and the table is no longer valid. */
    method Release(fd: int) returns (ret: int)
      requires Valid()
      modifies this, fds
      ensures Valid() <==> fd != -1
      ensures peak == old(peak) && fds == old(fds) && files == old(files) && fdsCap == old(fdsCap)
      ensures ret == if fd in old(records) || fd == -1 then 0 else -1
      ensures records == old(records) - {fd}
      ensures fd == -1 ==> fds[..] == old(fds[..]) && nFds == if old(nFds) == 0 then TWO64 - 1 else old(nFds) - 1
    {
      hide IsCapacity, SlotsOk, AllPlaced;
      NoRecordOfNone(fds[..], records);
      var i := GetFile(fd);
      if i == -1 {
        return -1;
      }
      if fd != -1 {
        SlotsRemove(fds[..], files[..], records, i);
      }
      fds[i] := -1;
      nFds := if nFds == 0 then TWO64 - 1 else nFds - 1;
      records := records - {fd};
      return 0;
    }

    /** Writing through the pointer that `cfs_get_file` returned. */
    method Update(slot: nat, r: CfsFile)
      requires Valid() && slot < fds.Length && fds[slot] != -1
      modifies this`records, files
      ensures Valid() && records == old(records)[fds[slot] := r] && files[slot] == r
    {
      hide IsCapacity, SlotsOk, AllPlaced;
      SlotsLength(fds[..], files[..], records);
      SlotsUpdate(fds[..], files[..], records, slot, r);
      files[slot] := r;
      records := records[fds[slot] := r];
    }
  }

  lemma NoRecordOfNone(fds: seq<int>, records: Records)
    requires AllPlaced(fds, records)
    ensures -1 !in records
  {
  }

  lemma SlotsLength(fds: seq<int>, files: seq<CfsFile>, records: Records)
    requires SlotsOk(fds, files, records)
    ensures |fds| == |files|
    ensures forall i :: 0 <= i < |fds| && fds[i] != -1 ==> fds[i] in records
  {
  }

  lemma CapacityDouble(c: nat)
    requires IsCapacity(c)
    ensures IsCapacity(2 * c)
  {
    CapacityEven(c);
  }

  /** `realloc` to a larger array; what the new part holds is not specified. */
  method Realloc<T>(a: array<T>, n: nat, any: T) returns (b: array<T>)
    requires a.Length <= n
    ensures fresh(b) && b.Length == n && b[..a.Length] == a[..]
  {
    b := new T[n](i requires 0 <= i reads a => if i < a.Length then a[i] else any);
  }
}
