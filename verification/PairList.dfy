/** The pair-list file: magic, size, number of blocks, then one (page index,
    digest) pair per block (cfs/src/cfs.h, cfs/src/cfs.c). */
module PairList {
  import opened Bytes
  import opened Os

  const HASH_LENGTH: nat := 20
  /** "CFS0.1" with its terminator. */
  const MAGIC: seq<byte> := [67, 70, 83, 48, 46, 49, 0]
  const SIZE_START: nat := 7
  const BLOCK_START: nat := 23
  const BLOCK_PAIR: nat := 28

  type Digest = d: seq<byte> | |d| == 20 witness [0, 0, 0, 0, 0, 0, 0, 0, 0, 0, 0, 0, 0, 0, 0, 0, 0, 0, 0, 0]

  datatype Pair = Pair(index: int, digest: Digest)

  /** What the bytes of a pair-list file say. */
  datatype Meta = Meta(size: int, pairs: seq<Pair>)

  /** The values fit the fields that hold them. */
  predicate Fits(m: Meta) {
    && FitsOff(m.size)
    && |m.pairs| < TWO63
    && forall i :: 0 <= i < |m.pairs| ==> FitsOff(m.pairs[i].index)
  }

  function PairBytes(p: Pair): (r: seq<byte>)
    ensures |r| == BLOCK_PAIR
  {
    OffBytes(p.index) + p.digest
  }

  function PairsBytes(ps: seq<Pair>): (r: seq<byte>)
    ensures |r| == BLOCK_PAIR * |ps|
  {
    if ps == [] then [] else PairBytes(ps[0]) + PairsBytes(ps[1..])
  }

  function Header(size: int, blocks: int): (r: seq<byte>)
    ensures |r| == BLOCK_START
  {
    MAGIC + OffBytes(size) + OffBytes(blocks)
  }

  function Encode(m: Meta): (r: seq<byte>)
    ensures |r| == BLOCK_START + BLOCK_PAIR * |m.pairs|
  {
    Header(m.size, |m.pairs|) + PairsBytes(m.pairs)
  }

  /** Reading the pairs back. */
  function ParsePairs(s: seq<byte>): (r: seq<Pair>)
    requires |s| % BLOCK_PAIR == 0
    ensures BLOCK_PAIR * |r| == |s|
  {
    if s == [] then [] else [Pair(Off(s[..8]), s[8..28])] + ParsePairs(s[28..])
  }

  /** A file is a pair list when its length is whole, it starts with the magic
      and its count is the number of pairs. */
  predicate WellFormed(s: seq<byte>) {
    && |s| >= BLOCK_START
    && (|s| - BLOCK_START) % BLOCK_PAIR == 0
    && s[..SIZE_START] == MAGIC
    && Off(s[15..23]) == (|s| - BLOCK_START) / BLOCK_PAIR
  }

  function Parse(s: seq<byte>): Meta
    requires WellFormed(s)
  {
    Meta(Off(s[7..15]), ParsePairs(s[BLOCK_START..]))
  }

  lemma {:induction false} ParsePairsOfBytes(ps: seq<Pair>)
    requires forall i :: 0 <= i < |ps| ==> FitsOff(ps[i].index)
    ensures ParsePairs(PairsBytes(ps)) == ps
  {
    if ps != [] {
      var s := PairsBytes(ps);
      ParsePairsOfBytes(ps[1..]);
      OffOfBytes(ps[0].index);
      assert s[..8] == OffBytes(ps[0].index);
      assert s[8..28] == ps[0].digest;
      assert s[28..] == PairsBytes(ps[1..]);
    }
  }

  lemma {:induction false} BytesOfParsedPairs(s: seq<byte>)
    requires |s| % BLOCK_PAIR == 0
    ensures PairsBytes(ParsePairs(s)) == s
  {
    if s != [] {
      BytesOfParsedPairs(s[28..]);
      BytesOfOff(s[..8]);
      var ps := ParsePairs(s);
      assert ps[1..] == ParsePairs(s[28..]);
      assert s == s[..8] + s[8..28] + s[28..];
    }
  }

  /** The header fields sit where `cfs_register_file` reads them. */
  lemma HeaderFields(m: Meta)
    requires Fits(m)
    ensures var s := Encode(m);
            s[..SIZE_START] == MAGIC && Off(s[7..15]) == m.size && Off(s[15..23]) == |m.pairs|
  {
    var s := Encode(m);
    assert s[7..15] == OffBytes(m.size);
    assert s[15..23] == OffBytes(|m.pairs|);
    OffOfBytes(m.size);
    OffOfBytes(|m.pairs|);
  }

  /** Nothing is lost in the file. */
  lemma ParseOfEncode(m: Meta)
    requires Fits(m)
    ensures WellFormed(Encode(m)) && Parse(Encode(m)) == m
  {
    hide ParsePairs, PairsBytes, Off, OffBytes;
    HeaderFields(m);
    ParsePairsOfBytes(m.pairs);
    assert Encode(m)[BLOCK_START..] == PairsBytes(m.pairs);
  }

  /** Nothing but the meaning is in the file. */
  lemma EncodeOfParse(s: seq<byte>)
    requires WellFormed(s)
    ensures Encode(Parse(s)) == s
  {
    hide ParsePairs, PairsBytes, Off, OffBytes;
    BytesOfParsedPairs(s[BLOCK_START..]);
    BytesOfOff(s[7..15]);
    BytesOfOff(s[15..23]);
    assert s == s[..7] + s[7..15] + s[15..23] + s[BLOCK_START..];
  }

  lemma PairsBytesCons(p: Pair, ps: seq<Pair>)
    ensures PairsBytes([p] + ps) == PairBytes(p) + PairsBytes(ps)
  {
    assert ([p] + ps)[1..] == ps;
  }

  lemma {:induction false} PairsBytesConcat(a: seq<Pair>, b: seq<Pair>)
    ensures PairsBytes(a + b) == PairsBytes(a) + PairsBytes(b)
  {
    hide PairBytes, PairsBytes;
    if a == [] {
      assert a + b == b;
      PairsBytesNone();
    } else {
      var p, rest := a[0], a[1..];
      assert a == [p] + rest && a + b == [p] + (rest + b);
      PairsBytesCons(p, rest);
      PairsBytesCons(p, rest + b);
      PairsBytesConcat(rest, b);
    }
  }

  lemma PairsBytesNone()
    ensures PairsBytes([]) == []
  {
  }

  /** Where pair `i` sits in the file. */
  lemma PairAt(m: Meta, i: nat)
    requires i < |m.pairs|
    ensures var at := BLOCK_START + BLOCK_PAIR * i;
            && at + BLOCK_PAIR <= |Encode(m)|
            && Encode(m)[at..at + 8] == OffBytes(m.pairs[i].index)
            && Encode(m)[at + 8..at + BLOCK_PAIR] == m.pairs[i].digest
  {
    hide PairsBytes, OffBytes, Header;
    var before, p, after := m.pairs[..i], m.pairs[i], m.pairs[i + 1..];
    assert m.pairs == before + ([p] + after);
    PairsBytesConcat(before, [p] + after);
    PairsBytesCons(p, after);
    var head := Header(m.size, |m.pairs|) + PairsBytes(before);
    assert Encode(m) == head + (PairBytes(p) + PairsBytes(after));
    Middle(head, PairBytes(p), PairsBytes(after), 0, 8);
    Middle(head, PairBytes(p), PairsBytes(after), 8, BLOCK_PAIR);
    assert PairBytes(p)[0..8] == OffBytes(p.index);
    assert PairBytes(p)[8..BLOCK_PAIR] == p.digest;
  }

  lemma Middle(head: seq<byte>, mid: seq<byte>, tail: seq<byte>, lo: nat, hi: nat)
    requires lo <= hi <= |mid|
    ensures (head + (mid + tail))[|head| + lo..|head| + hi] == mid[lo..hi]
  {
  }

  /** The file that has just been made: the magic and sixteen zero bytes. */
  lemma EmptyFile()
    ensures Encode(Meta(0, [])) == [67, 70, 83, 48, 46, 49, 0, 0, 0, 0, 0, 0, 0, 0, 0, 0, 0, 0, 0, 0, 0, 0, 0]
  {
    hide OffBytes, Radix;
    var e := Encode(Meta(0, []));
    assert e == MAGIC + OffBytes(0) + OffBytes(0);
    forall i: nat | i < 8
      ensures OffBytes(0)[i] == 0
    {
      OffBytesAt(0, i);
    }
  }

  /** Every byte of a pair-list file: "CFS0.1" and a terminator, size and number
      of pairs, then for each pair the page number and the digest.  Numbers are in
      two's complement, least significant byte first. */
  lemma FileBytes(m: Meta, k: nat, i: nat)
    ensures |Encode(m)| == 23 + 28 * |m.pairs| && Encode(m)[..7] == [67, 70, 83, 48, 46, 49, 0]
    ensures i < 8 ==> Encode(m)[7 + i] == m.size / Radix(i) % 256 && Encode(m)[15 + i] == |m.pairs| / Radix(i) % 256
    ensures i < 8 && k < |m.pairs| ==> Encode(m)[23 + 28 * k + i] == m.pairs[k].index / Radix(i) % 256
    ensures i < 20 && k < |m.pairs| ==> Encode(m)[31 + 28 * k + i] == m.pairs[k].digest[i]
  {
    hide OffBytes, Radix, PairsBytes;
    var e := Encode(m);
    if i < 8 {
      OffBytesAt(m.size, i);
      OffBytesAt(|m.pairs|, i);
      assert e[7 + i] == OffBytes(m.size)[i] && e[15 + i] == OffBytes(|m.pairs|)[i];
    }
    if k < |m.pairs| {
      PairAt(m, k);
      var at := 23 + 28 * k;
      if i < 8 {
        OffBytesAt(m.pairs[k].index, i);
        assert e[at + i] == e[at..at + 8][i];
      }
      if i < 20 {
        assert e[at + 8 + i] == e[at + 8..at + 28][i];
      }
    }
  }

  /** Appending a pair to the file and rewriting the header encodes the longer list. */
  lemma EncodeAppend(m: Meta, p: Pair, size: int)
    ensures var longer := WriteAt(WriteAt(Encode(m), |Encode(m)|, OffBytes(p.index)), |Encode(m)| + 8, p.digest);
            && longer == Encode(m) + PairBytes(p)
            && Rewritten(longer, size, |m.pairs| + 1) == Encode(Meta(size, m.pairs + [p]))
  {
    hide PairsBytes, OffBytes, Header, WriteAt, Rewritten;
    var e := Encode(m);
    WriteAtEnd(e, OffBytes(p.index));
    WriteAtEnd(e + OffBytes(p.index), p.digest);
    var longer := e + OffBytes(p.index) + p.digest;
    assert longer == e + PairBytes(p);
    PairsBytesConcat(m.pairs, [p]);
    PairsBytesCons(p, []);
    PairsBytesNone();
    assert [p] + [] == [p];
    assert PairsBytes([p]) == PairBytes(p);
    assert longer == Header(m.size, |m.pairs|) + PairsBytes(m.pairs + [p]);
    RewrittenHeader(m.size, |m.pairs|, size, |m.pairs| + 1, PairsBytes(m.pairs + [p]));
  }

  /** The file after the size and count fields are written anew. */
  function Rewritten(s: seq<byte>, size: int, blocks: int): seq<byte> {
    WriteAt(WriteAt(s, SIZE_START, OffBytes(size)), SIZE_START + 8, OffBytes(blocks))
  }

  lemma RewrittenHeader(size: int, blocks: int, size': int, blocks': int, rest: seq<byte>)
    ensures Rewritten(Header(size, blocks) + rest, size', blocks') == Header(size', blocks') + rest
  {
    var s := Header(size, blocks) + rest;
    var s1 := WriteAt(s, SIZE_START, OffBytes(size'));
    assert s1 == MAGIC + OffBytes(size') + OffBytes(blocks) + rest;
    var s2 := WriteAt(s1, SIZE_START + 8, OffBytes(blocks'));
    assert s2 == MAGIC + OffBytes(size') + OffBytes(blocks') + rest;
  }

  /** Writing the digest of pair `i` over itself changes no byte. */
  lemma WriteBack(m: Meta, i: nat)
    requires i < |m.pairs|
    ensures WriteAt(Encode(m), BLOCK_START + BLOCK_PAIR * i + 8, m.pairs[i].digest) == Encode(m)
  {
    PairAt(m, i);
    var at := BLOCK_START + BLOCK_PAIR * i + 8;
    var e := Encode(m);
    assert e == e[..at] + e[at..at + 20] + e[at + 20..];
  }

  /** The position of the first pair for page `index`, or the number of pairs. */
  function Find(ps: seq<Pair>, index: int): (k: nat)
    ensures k <= |ps|
    ensures k < |ps| ==> ps[k].index == index
    ensures forall j :: 0 <= j < k ==> ps[j].index != index
  {
    if ps == [] then 0 else if ps[0].index == index then 0 else 1 + Find(ps[1..], index)
  }

  predicate Distinct(ps: seq<Pair>) {
    forall i, j :: 0 <= i < j < |ps| ==> ps[i].index != ps[j].index
  }

  lemma FindIs(ps: seq<Pair>, index: int, k: nat)
    requires k <= |ps|
    requires k < |ps| ==> ps[k].index == index
    requires forall j :: 0 <= j < k ==> ps[j].index != index
    ensures Find(ps, index) == k
  {
  }

  lemma FindAppend(ps: seq<Pair>, p: Pair, index: int)
    ensures Find(ps + [p], index) == if Find(ps, index) < |ps| then Find(ps, index)
                                     else if p.index == index then |ps|
                                     else |ps| + 1
  {
    var k := if Find(ps, index) < |ps| then Find(ps, index) else if p.index == index then |ps| else |ps| + 1;
    FindIs(ps + [p], index, k);
  }

  /** Pairs with distinct page numbers below `n` are at most `n`. */
  lemma {:induction false} DistinctBounded(ps: seq<Pair>, n: nat)
    requires Distinct(ps)
    requires forall i :: 0 <= i < |ps| ==> 0 <= ps[i].index < n
    ensures |ps| <= n
  {
    DistinctIndices(ps);
    assert Indices(ps) <= Below(n);
    SubsetSize(Indices(ps), Below(n));
  }

  function Indices(ps: seq<Pair>): set<int> {
    set p | p in ps :: p.index
  }

  lemma {:induction false} DistinctIndices(ps: seq<Pair>)
    requires Distinct(ps)
    ensures |Indices(ps)| == |ps|
  {
    if ps == [] {
      assert Indices(ps) == {};
    } else {
      var front, last := ps[..|ps| - 1], ps[|ps| - 1];
      DistinctIndices(front);
      assert ps == front + [last];
      assert Indices(ps) == Indices(front) + {last.index};
      assert last.index !in Indices(front);
    }
  }
}
