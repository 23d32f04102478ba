/** Names of block files: lowercase hexadecimal of a digest, under the blocks
    directory (cfs/src/util.c, `init_storage` of cfs/src/storage.c). */
module Naming {
  import opened Bytes
  import opened PairList

  const DIGITS: string := "0123456789abcdef"
  const BLOCKS_DIRECTORY: string := ".BLOCKS"

  /** A C string: the characters before the first terminator. */
  function CString(a: seq<char>): string {
    if a == [] || a[0] == '\0' then "" else [a[0]] + CString(a[1..])
  }

  predicate NulFree(s: string) { forall i :: 0 <= i < |s| ==> s[i] != '\0' }

  lemma {:induction false} CStringOf(a: seq<char>, s: string)
    requires NulFree(s) && |s| < |a| && a[..|s| + 1] == s + ['\0']
    ensures CString(a) == s
  {
    assert a[0] == (s + ['\0'])[0];
    if s != "" {
      assert a[1..][..|s[1..]| + 1] == a[..|s| + 1][1..] == s[1..] + ['\0'];
      CStringOf(a[1..], s[1..]);
    }
  }

  predicate IsDigit(c: char) { '0' <= c <= '9' || 'a' <= c <= 'f' }

  function Digit(v: nat): (c: char)
    requires v < 16
    ensures IsDigit(c)
  {
    if v < 10 then (48 + v) as char else (87 + v) as char
  }

  /** The sixteen digits in their order. */
  lemma DigitIs(v: nat)
    requires v < 16
    ensures "0123456789abcdef"[v] == DIGITS[v] == Digit(v)
  {
  }

  function DigitValue(c: char): (v: nat)
    requires IsDigit(c)
    ensures v < 16
  {
    if c <= '9' then c as int - 48 else c as int - 87
  }

  lemma DigitValueOf(v: nat)
    requires v < 16
    ensures DigitValue(Digit(v)) == v
  {
  }

  /** The half-byte that character `j` of the hexadecimal form of `s` shows. */
  function Nibble(s: seq<byte>, j: nat): (v: nat)
    requires j < 2 * |s|
    ensures v < 16
  {
    if j % 2 == 0 then s[j / 2] / 16 else s[j / 2] % 16
  }

  function Hex(s: seq<byte>): (r: string)
    ensures |r| == 2 * |s|
    ensures forall i :: 0 <= i < |r| ==> IsDigit(r[i]) && r[i] == Digit(Nibble(s, i))
  {
    seq(2 * |s|, j requires 0 <= j < 2 * |s| => Digit(Nibble(s, j)))
  }

  /** Base 16 as in section 8 of RFC 4648, with lowercase digits. */
  function Unhex(r: string): (s: seq<byte>)
    requires |r| % 2 == 0 && forall i :: 0 <= i < |r| ==> IsDigit(r[i])
    ensures |s| == |r| / 2
    ensures forall i :: 0 <= i < |s| ==> s[i] == 16 * DigitValue(r[2 * i]) + DigitValue(r[2 * i + 1])
  {
    seq(|r| / 2, i requires 0 <= i < |r| / 2 => 16 * DigitValue(r[2 * i]) + DigitValue(r[2 * i + 1]))
  }

  lemma ByteShows(s: seq<byte>, i: nat)
    requires i < |s|
    ensures Digit(Nibble(s, 2 * i)) == "0123456789abcdef"[s[i] / 16]
    ensures Digit(Nibble(s, 2 * i + 1)) == "0123456789abcdef"[s[i] % 16]
  {
    hide Digit;
    DigitIs(s[i] / 16);
    DigitIs(s[i] % 16);
    assert Nibble(s, 2 * i) == s[i] / 16 && Nibble(s, 2 * i + 1) == s[i] % 16;
  }

  /** The characters of a hexadecimal form: for each byte its high half and then
      its low half. */
  lemma HexShows(s: seq<byte>, i: nat)
    requires i < |s|
    ensures Hex(s)[2 * i] == "0123456789abcdef"[s[i] / 16]
    ensures Hex(s)[2 * i + 1] == "0123456789abcdef"[s[i] % 16]
  {
    hide Digit, Hex;
    ByteShows(s, i);
  }

  lemma HexInput()
    ensures Hex([0x01, 0x23, 0x45, 0x67, 0x89, 0xab, 0xcd, 0xef]) == "0123456789abcdef"
  {
  }

  lemma UnhexOfHex(s: seq<byte>)
    ensures Unhex(Hex(s)) == s
  {
    hide Digit, DigitValue, IsDigit, Hex, Unhex;
    var r := Hex(s);
    forall i | 0 <= i < |s|
      ensures Unhex(r)[i] == s[i]
    {
      assert Nibble(s, 2 * i) == s[i] / 16 && Nibble(s, 2 * i + 1) == s[i] % 16;
      DigitValueOf(s[i] / 16);
      DigitValueOf(s[i] % 16);
    }
  }

  /** `hexify`: as many whole bytes as fit into `outSize` characters with their
      terminator.  An empty input writes nothing, not even the terminator. */
  method Hexify(input: seq<byte>, out: array<char>, outSize: nat) returns (written: nat)
    requires outSize <= out.Length
    modifies out
    ensures var n := if outSize == 0 then 0 else Min(|input|, (outSize - 1) / 2);
            && written == 2 * n
            && out[..] == if input == [] || outSize == 0 then old(out[..])
                          else Splice(old(out[..]), 0, Hex(input[..n]) + ['\0'])
    ensures forall i :: 0 <= i < written / 2 ==>
              && out[2 * i] == "0123456789abcdef"[input[i] / 16]
              && out[2 * i + 1] == "0123456789abcdef"[input[i] % 16]
  {
    hide Digit, IsDigit, Hex, Nibble;
    if |input| == 0 || outSize == 0 {
      return 0;
    }
    written := 0;
    var i := 0;
    while i < |input| && i * 2 + 3 <= outSize
      invariant 0 <= i <= |input| && 2 * i + 1 <= outSize && written == 2 * i
      invariant forall j :: 0 <= j < 2 * i ==> out[j] == Digit(Nibble(input, j))
      invariant forall j :: 2 * i <= j < out.Length ==> out[j] == old(out[j])
    {
      var high, low := input[i] / 16, input[i] % 16;
      ByteShows(input, i);
      out[2 * i] := DIGITS[high];
      out[2 * i + 1] := DIGITS[low];
      i := i + 1;
      written := written + 2;
    }
    out[2 * i] := '\0';
    HexPrefix(input, i);
    AllShown(out[..], input, i);
  }

  lemma AllShown(shown: seq<char>, s: seq<byte>, n: nat)
    requires n <= |s| && 2 * n <= |shown|
    requires forall j :: 0 <= j < 2 * n ==> shown[j] == Digit(Nibble(s, j))
    ensures forall i :: 0 <= i < n ==>
              && shown[2 * i] == "0123456789abcdef"[s[i] / 16]
              && shown[2 * i + 1] == "0123456789abcdef"[s[i] % 16]
  {
    hide Digit, Nibble;
    forall i | 0 <= i < n
      ensures shown[2 * i] == "0123456789abcdef"[s[i] / 16]
      ensures shown[2 * i + 1] == "0123456789abcdef"[s[i] % 16]
    {
      ByteShows(s, i);
    }
  }

  lemma HexPrefix(s: seq<byte>, n: nat)
    requires n <= |s|
    ensures forall j :: 0 <= j < 2 * n ==> Hex(s[..n])[j] == Digit(Nibble(s, j))
  {
    forall j | 0 <= j < 2 * n
      ensures Nibble(s[..n], j) == Nibble(s, j)
    {
    }
  }

  /** `strcpy` to `destination + at`. */
  method StrCpy(destination: array<char>, at: nat, s: string)
    requires at + |s| + 1 <= destination.Length
    modifies destination
    ensures destination[..at + |s| + 1] == old(destination[..at]) + s + ['\0']
  {
    forall i | 0 <= i < |s| {
      destination[at + i] := s[i];
    }
    destination[at + |s|] := '\0';
  }

  /** The path `combine` makes. */
  function Combined(path1: string, path2: string): string {
    if path1 == "" then path2
    else if path2 == "" then path1
    else if path1[|path1| - 1] == '/' then path1 + if path2[0] == '/' then path2[1..] else path2
    else if path2[0] == '/' then path1 + path2
    else path1 + "/" + path2
  }

  /** The joined path of two parts that are not empty: it starts with the first
      and ends with the second, up to one '/' that the second begins with, and
      between the two there is one '/', or there was one already. */
  lemma CombinedIs(path1: string, path2: string)
    requires path1 != "" && path2 != ""
    ensures var c := Combined(path1, path2);
            var tail := if path2[0] == '/' then path2[1..] else path2;
            var head := if path1[|path1| - 1] == '/' then path1 else path1 + "/";
            && path1 <= c && c == head + tail && |c| >= |tail| && c[|c| - |tail|..] == tail
            && c[|head| - 1] == '/'
            && (path1[|path1| - 1] != '/' && (tail == "" || tail[0] != '/') ==>
                  (|head| >= 2 ==> c[|head| - 2] != '/') && (|head| < |c| ==> c[|head|] != '/'))
  {
    if path2[0] == '/' {
      assert path2 == "/" + path2[1..];
    }
  }

  lemma CombinedEmpty(path: string)
    ensures Combined("", path) == Combined(path, "") == path
  {
  }

  /** The blocks of a file system are in the directory `.BLOCKS` under its root. */
  lemma BlockPathIs(root: string, d: Digest)
    ensures var directory := if root == "" || root[|root| - 1] == '/' then root else root + "/";
            && StoreAt(root).blocksPath == directory + ".BLOCKS"
            && BlockPath(StoreAt(root), Name(d)) == directory + ".BLOCKS/" + Name(d)
  {
    hide Combined, Name;
    if root == "" {
      CombinedEmpty(BLOCKS_DIRECTORY);
    } else {
      CombinedIs(root, BLOCKS_DIRECTORY);
    }
    var blocksPath := StoreAt(root).blocksPath;
    CombinedIs(blocksPath, Name(d));
    assert blocksPath + "/" + Name(d) == blocksPath[..|blocksPath| - 7] + ".BLOCKS/" + Name(d);
  }

  /** A block name shows the first 19 bytes of the digest. */
  lemma NameShows(d: Digest, i: nat)
    requires i < 19
    ensures Name(d)[2 * i] == "0123456789abcdef"[d[i] / 16]
    ensures Name(d)[2 * i + 1] == "0123456789abcdef"[d[i] % 16]
  {
    HexShows(d[..19], i);
  }

  lemma CombinedNulFree(path1: string, path2: string)
    requires NulFree(path1) && NulFree(path2)
    ensures NulFree(Combined(path1, path2)) && |Combined(path1, path2)| <= |path1| + 1 + |path2|
  {
  }

  /** `combine`: it stays inside a destination that has room for the result. */
  method Combine(destination: array<char>, path1: string, path2: string)
    requires |Combined(path1, path2)| < destination.Length
    modifies destination
    ensures destination[..|Combined(path1, path2)| + 1] == Combined(path1, path2) + ['\0']
  {
    if path1 != "" {
      var len := |path1|;
      StrCpy(destination, 0, path1);
      assert destination[..len] == path1 by { assert destination[..len] == destination[..len + 1][..len]; }
      if destination[len - 1] == '/' {
        if path2 != "" {
          StrCpy(destination, len, if path2[0] == '/' then path2[1..] else path2);
        }
      } else if path2 != "" {
        if path2[0] == '/' {
          StrCpy(destination, len, path2);
        } else {
          destination[len] := '/';
          assert destination[..len + 1] == path1 + "/";
          StrCpy(destination, len + 1, path2);
        }
      }
    } else if path2 != "" {
      StrCpy(destination, 0, path2);
    } else {
      destination[0] := '\0';
    }
  }

  /** `cfs_blk_store_t`. */
  datatype BlkStore = BlkStore(rootPath: string, blocksPath: string, blockFnameSize: nat)

  /** The buffers sized by `block_fname_size` have room for every block path. */
  predicate Sized(st: BlkStore) {
    NulFree(st.blocksPath) && |st.blocksPath| + 40 <= st.blockFnameSize
  }

  /** What `init_storage` computes from the root directory. */
  function StoreAt(root: string): BlkStore {
    BlkStore(root, Combined(root, BLOCKS_DIRECTORY), |root| + 1 + 8 + 1 + HASH_LENGTH * 2 + 2)
  }

  /** `init_storage`; making the directory itself is not modelled. */
  method InitStorage(root: string) returns (st: BlkStore)
    requires NulFree(root)
    ensures st == StoreAt(root) && Sized(st)
    ensures st.rootPath == root && st.blockFnameSize == |root| + 52
  {
    hide CString, Combined;
    var rootLen := |root|;
    var blockFnameSize := rootLen + 1 + 8 + 1 + HASH_LENGTH * 2 + 2;
    var blocksPath := new char[rootLen + 8 + 1];
    CombinedNulFree(root, BLOCKS_DIRECTORY);
    Combine(blocksPath, root, BLOCKS_DIRECTORY);
    CStringOf(blocksPath[..], Combined(root, BLOCKS_DIRECTORY));
    st := BlkStore(root, CString(blocksPath[..]), blockFnameSize);
  }

  /** The first 19 bytes of a digest, in hexadecimal: all that a 40-character
      output takes. */
  function Name(d: Digest): (r: string)
    ensures |r| == 38 && r[0] != '/' && NulFree(r)
  {
    Hex(d[..19])
  }

  lemma NameInjective(a: Digest, b: Digest)
    ensures Name(a) == Name(b) <==> a[..19] == b[..19]
  {
    UnhexOfHex(a[..19]);
    UnhexOfHex(b[..19]);
  }

  /** The file of the block named `name`. */
  function BlockPath(st: BlkStore, name: string): string { Combined(st.blocksPath, name) }

  lemma BlockPathInjective(st: BlkStore, a: string, b: string)
    requires a != "" && b != "" && a[0] != '/' && b[0] != '/'
    ensures BlockPath(st, a) == BlockPath(st, b) <==> a == b
  {
    if st.blocksPath != "" {
      var prefix := if st.blocksPath[|st.blocksPath| - 1] == '/' then st.blocksPath else st.blocksPath + "/";
      assert BlockPath(st, a) == prefix + a && BlockPath(st, b) == prefix + b;
      assert (prefix + a)[|prefix|..] == a && (prefix + b)[|prefix|..] == b;
    }
  }

  /** `char buff[HASH_LENGTH * 2 + 1]; hexify(hash, HASH_LENGTH, buff, HASH_LENGTH * 2);` */
  method HexName(hash: Digest) returns (name: string)
    ensures name == Name(hash)
  {
    hide Hex, NulFree;
    var buff := new char[HASH_LENGTH * 2 + 1];
    var _ := Hexify(hash, buff, HASH_LENGTH * 2);
    assert buff[..39] == Name(hash) + ['\0'];
    CStringOf(buff[..], Name(hash));
    name := CString(buff[..]);
  }

  /** How every storage function turns a digest into the path it opens. */
  method BlockFile(st: BlkStore, hash: Digest) returns (path: string)
    requires Sized(st)
    ensures path == BlockPath(st, Name(hash))
  {
    hide Hex, Combined, CString, NulFree;
    var name := HexName(hash);
    var dest := new char[st.blockFnameSize];
    CombinedNulFree(st.blocksPath, name);
    Combine(dest, st.blocksPath, name);
    CStringOf(dest[..], BlockPath(st, name));
    path := CString(dest[..]);
  }
}
