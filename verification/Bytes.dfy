/** Bytes, and the little-endian encoding of the 8-byte integers that the
    on-disk formats are made of. */
module Bytes {

  type byte = x: int | 0 <= x < 256

  const TWO63: int := 0x8000_0000_0000_0000
  const TWO64: int := 0x1_0000_0000_0000_0000

  function Min(a: int, b: int): int { if a < b then a else b }
  function Max(a: int, b: int): int { if a < b then b else a }

  /** `n` copies of the zero byte. */
  function Zeros(n: nat): (r: seq<byte>)
    ensures |r| == n && forall i :: 0 <= i < n ==> r[i] == 0
  {
    seq(n, _ => 0)
  }

  /** `s` with the bytes from `at` on replaced by `data`. */
  function Splice<T>(s: seq<T>, at: nat, data: seq<T>): (r: seq<T>)
    requires at + |data| <= |s|
    ensures |r| == |s|
    ensures forall i :: 0 <= i < |s| ==> r[i] == if at <= i < at + |data| then data[i - at] else s[i]
  {
    s[..at] + data + s[at + |data|..]
  }

  /** 256^n. */
  function Radix(n: nat): (r: nat)
    ensures r > 0
  {
    if n == 0 then 1 else 256 * Radix(n - 1)
  }

  /** The `n` low-order bytes of `v`, least significant first. */
  function Le(v: nat, n: nat): (r: seq<byte>)
    ensures |r| == n
  {
    if n == 0 then [] else [v % 256] + Le(v / 256, n - 1)
  }

  /** Byte `i` counts the multiples of 256^i. */
  lemma {:induction false} LeAt(v: nat, n: nat, i: nat)
    requires i < n
    ensures Le(v, n)[i] == v / Radix(i) % 256
  {
    if i == 0 {
      assert Le(v, n)[0] == v % 256;
    } else {
      LeAt(v / 256, n - 1, i - 1);
      assert Le(v, n)[i] == Le(v / 256, n - 1)[i - 1];
      DivTwice(v, 256, Radix(i - 1));
    }
  }

  lemma DivTwice(v: nat, a: nat, b: nat)
    requires a > 0 && b > 0
    ensures a * b > 0 && v / a / b == v / (a * b)
  {
    var q, low := v / a / b, a * (v / a % b) + v % a;
    assert v == a * (b * q + v / a % b) + v % a == (a * b) * q + low;
    assert a * (v / a % b) <= a * (b - 1);
    Quotient(v, a * b, q, low);
  }

  lemma Quotient(v: int, d: int, q: int, m: int)
    requires v == d * q + m && 0 <= m < d
    ensures v / d == q
  {
    var k := v / d - q;
    assert d * k == m - v % d;
    if k > 0 {
      MulAtLeast(d, k);
    } else if k < 0 {
      MulAtLeast(d, -k);
    }
  }

  lemma MulAtLeast(d: nat, k: nat)
    requires k > 0
    ensures d * k >= d
  {
  }

  function FromLe(s: seq<byte>): nat {
    if s == [] then 0 else s[0] + 256 * FromLe(s[1..])
  }

  lemma {:induction false} FromLeLe(v: nat, n: nat)
    requires v < Radix(n)
    ensures FromLe(Le(v, n)) == v
  {
    if n > 0 {
      FromLeLe(v / 256, n - 1);
      assert Le(v, n)[1..] == Le(v / 256, n - 1);
    }
  }

  lemma DivMod(low: byte, high: nat)
    ensures (low + 256 * high) % 256 == low && (low + 256 * high) / 256 == high
  {
  }

  lemma {:induction false} LeFromLe(s: seq<byte>)
    ensures FromLe(s) < Radix(|s|)
    ensures Le(FromLe(s), |s|) == s
  {
    if s != [] {
      LeFromLe(s[1..]);
      DivMod(s[0], FromLe(s[1..]));
      assert Radix(|s|) == 256 * Radix(|s[1..]|);
      assert Le(FromLe(s), |s|) == [s[0]] + Le(FromLe(s[1..]), |s[1..]|);
    }
  }

  lemma Radix8()
    ensures Radix(8) == TWO64
  {
    assert Radix(0) == 1;
    assert Radix(1) == 0x100;
    assert Radix(2) == 0x1_0000;
    assert Radix(3) == 0x100_0000;
    assert Radix(4) == 0x1_0000_0000;
    assert Radix(5) == 0x100_0000_0000;
    assert Radix(6) == 0x1_0000_0000_0000;
    assert Radix(7) == 0x100_0000_0000_0000;
  }

  /** The value an `off_t` holds after being assigned the integer `v`
      (64-bit two's complement). */
  function Wrap(v: int): (r: int)
    ensures -TWO63 <= r < TWO63
    ensures (v - r) % TWO64 == 0
    ensures -TWO63 <= v < TWO63 ==> r == v
  {
    var u := v % TWO64;
    if u < TWO63 then u else u - TWO64
  }

  predicate FitsOff(v: int) { -TWO63 <= v < TWO63 }

  /** The in-memory bytes of an `off_t` (or of a `size_t`). */
  function OffBytes(v: int): (r: seq<byte>)
    ensures |r| == 8
  {
    Le(v % TWO64, 8)
  }

  /** Two's complement, least significant byte first. */
  lemma OffBytesAt(v: int, i: nat)
    requires i < 8
    ensures OffBytes(v)[i] == v / Radix(i) % 256
  {
    hide Radix;
    LeAt(v % TWO64, 8, i);
    LowBytes(v, i);
  }

  lemma LowBytes(v: int, i: nat)
    requires i < 8
    ensures v % TWO64 / Radix(i) % 256 == v / Radix(i) % 256
  {
    hide Radix;
    Radix8();
    RadixSum(i, 8 - i);
    RadixNext(7 - i);
    LowByte(v % TWO64, v / TWO64, Radix(i), Radix(7 - i));
  }

  lemma LowByte(u: nat, t: int, r: nat, s: nat)
    requires r > 0
    ensures (u + r * (256 * s) * t) / r % 256 == u / r % 256
  {
    var k := s * t;
    calc {
      r * (256 * s) * t;
      r * (256 * k);
    }
    assert r * (u / r + 256 * k) + u % r == u + r * (256 * k);
    Quotient(u + r * (256 * k), r, u / r + 256 * k, u % r);
  }

  lemma RadixNext(n: nat)
    ensures Radix(n + 1) == 256 * Radix(n)
  {
  }

  lemma {:induction false} RadixSum(m: nat, n: nat)
    ensures Radix(m) * Radix(n) == Radix(m + n)
  {
    if m > 0 {
      RadixSum(m - 1, n);
      assert Radix(m) * Radix(n) == 256 * (Radix(m - 1) * Radix(n));
    }
  }

  /** The `off_t` that eight bytes stand for. */
  function Off(s: seq<byte>): (r: int)
    requires |s| == 8
    ensures FitsOff(r)
  {
    Wrap(FromLe(s))
  }

  lemma OffOfBytes(v: int)
    ensures Off(OffBytes(v)) == Wrap(v)
  {
    hide Le, FromLe, Radix;
    Radix8();
    FromLeLe(v % TWO64, 8);
  }

  lemma BytesOfOff(s: seq<byte>)
    requires |s| == 8
    ensures OffBytes(Off(s)) == s
  {
    hide Le, FromLe, Radix;
    Radix8();
    LeFromLe(s);
    assert Off(s) % TWO64 == FromLe(s);
  }
}
