/** Bit streams over byte strings, as section 3.1.1 of RFC 1951 numbers them:
    bit i of the stream is bit (i mod 8) of byte (i div 8), least significant first.
    Past the last byte the stream continues with zero bits. */
module Bits {
  import opened Bytes

  function Pow2(n: nat): (r: nat)
    ensures r >= 1
  {
    if n == 0 then 1 else 2 * Pow2(n - 1)
  }

  lemma {:induction false} Pow2Add(m: nat, n: nat)
    ensures Pow2(m + n) == Pow2(m) * Pow2(n)
  {
    if m > 0 {
      Pow2Add(m - 1, n);
      assert Pow2(m + n) == 2 * Pow2(m - 1 + n);
    }
  }

  lemma {:induction false} Pow2Mono(m: nat, n: nat)
    requires m <= n
    ensures Pow2(m) <= Pow2(n)
  {
    if m < n { Pow2Mono(m, n - 1); }
  }

  lemma Pow2Values()
    ensures Pow2(0) == 1 && Pow2(1) == 2 && Pow2(2) == 4 && Pow2(3) == 8
    ensures Pow2(4) == 16 && Pow2(5) == 32 && Pow2(6) == 64 && Pow2(7) == 128
    ensures Pow2(8) == 256 && Pow2(9) == 512 && Pow2(15) == 0x8000 && Pow2(16) == 0x10000
  {
    assert Pow2(4) == 16;
    assert Pow2(8) == 256;
    assert Pow2(12) == 4096;
  }

  lemma MulBound(k: int, d: int)
    requires d > 0
    ensures k >= 1 ==> k * d >= d
    ensures k <= -1 ==> k * d <= -d
  {
  }

  lemma MulSub(p: int, q: int, d: int)
    ensures (p - q) * d == p * d - q * d
  {
  }

  lemma MulAdd(p: int, q: int, d: int)
    ensures (p + q) * d == p * d + q * d
  {
  }

  lemma Double(x: int, y: int)
    ensures 2 * (x * y) == x * (2 * y) == (2 * x) * y
  {
  }

  lemma MulMono(x: int, y: int, d: int)
    requires x <= y && d >= 0
    ensures x * d <= y * d
  {
  }

  /** The unique quotient and remainder. */
  lemma DivMod(a: int, d: int, q: int, r: int)
    requires d > 0 && 0 <= r < d && a == q * d + r
    ensures a / d == q && a % d == r
  {
    var p, t := a / d, a % d;
    assert a == p * d + t;
    MulSub(q, p, d);
    MulBound(q - p, d);
  }

  function ByteAt(s: seq<byte>, k: nat): byte {
    if k < |s| then s[k] else 0
  }

  function Bit(s: seq<byte>, i: nat): (b: nat)
    ensures b < 2
  {
    ByteAt(s, i / 8) / Pow2(i % 8) % 2
  }

  /** The first byte that starts at or after bit p. */
  ghost function NextByte(p: nat): nat {
    (p + 7) / 8
  }

  /** The n bits from position p read as a number, first bit least significant. */
  function Lsb(s: seq<byte>, p: nat, n: nat): nat
    decreases n, s
  {
    if n == 0 then 0 else Bit(s, p) + 2 * Lsb(s, p + 1, n - 1)
  }

  /** The n bits from position p read as a number, first bit most significant. */
  function Msb(s: seq<byte>, p: nat, n: nat): nat {
    if n == 0 then 0 else 2 * Msb(s, p, n - 1) + Bit(s, p + n - 1)
  }

  lemma {:induction false} LsbBound(s: seq<byte>, p: nat, n: nat)
    ensures Lsb(s, p, n) < Pow2(n)
    decreases n
  {
    if n > 0 { LsbBound(s, p + 1, n - 1); }
  }

  lemma {:induction false} MsbBound(s: seq<byte>, p: nat, n: nat)
    ensures Msb(s, p, n) < Pow2(n)
  {
    if n > 0 { MsbBound(s, p, n - 1); }
  }

  lemma {:induction false} LsbSplit(s: seq<byte>, p: nat, m: nat, n: nat)
    ensures Lsb(s, p, m + n) == Lsb(s, p + m, n) * Pow2(m) + Lsb(s, p, m)
    decreases m
  {
    if m > 0 {
      LsbSplit(s, p + 1, m - 1, n);
      assert p + 1 + (m - 1) == p + m;
      Double(Lsb(s, p + m, n), Pow2(m - 1));
    }
  }

  lemma LsbTake(s: seq<byte>, p: nat, m: nat, n: nat)
    requires m <= n
    ensures Lsb(s, p, n) % Pow2(m) == Lsb(s, p, m)
    ensures Lsb(s, p, n) / Pow2(m) == Lsb(s, p + m, n - m)
  {
    LsbSplit(s, p, m, n - m);
    LsbBound(s, p, m);
    DivMod(Lsb(s, p, n), Pow2(m), Lsb(s, p + m, n - m), Lsb(s, p, m));
  }

  lemma {:induction false} MsbSplit(s: seq<byte>, p: nat, m: nat, n: nat)
    ensures Msb(s, p, m + n) == Msb(s, p, m) * Pow2(n) + Msb(s, p + m, n)
  {
    hide Bit;
    if n > 0 {
      MsbSplit(s, p, m, n - 1);
      Double(Msb(s, p, m), Pow2(n - 1));
      assert Msb(s, p, m + n) == 2 * Msb(s, p, m + (n - 1)) + Bit(s, p + m + n - 1);
    }
  }

  lemma MsbTake(s: seq<byte>, p: nat, m: nat, n: nat)
    requires m <= n
    ensures Msb(s, p, n) / Pow2(n - m) == Msb(s, p, m)
  {
    MsbSplit(s, p, m, n - m);
    MsbBound(s, p + m, n - m);
    DivMod(Msb(s, p, n), Pow2(n - m), Msb(s, p, m), Msb(s, p + m, n - m));
  }

  /** Eight bits from a byte boundary are that byte. */
  lemma LsbByte(s: seq<byte>, k: nat)
    ensures Lsb(s, 8 * k, 8) == ByteAt(s, k)
  {
    LsbInByte(s, k, 0);
    assert ByteAt(s, k) / Pow2(0) == ByteAt(s, k);
  }

  lemma {:induction false} LsbInByte(s: seq<byte>, k: nat, i: nat)
    requires i <= 8
    ensures Lsb(s, 8 * k + i, 8 - i) == ByteAt(s, k) / Pow2(i)
    decreases 8 - i
  {
    if i == 8 {
      Pow2Values();
    } else {
      LsbInByte(s, k, i + 1);
      assert (8 * k + i) / 8 == k && (8 * k + i) % 8 == i;
      HalveQuotient(ByteAt(s, k), Pow2(i));
    }
  }

  lemma HalveQuotient(x: nat, d: nat)
    requires d > 0
    ensures x / d / 2 == x / (2 * d)
  {
    var q, r := x / d, x % d;
    assert x == q * d + r;
    MulAdd(2 * (q / 2), q % 2, d);
    Double(q / 2, d);
    MulMono(q % 2, 1, d);
    MulMono(0, q % 2, d);
    DivMod(x, 2 * d, q / 2, q % 2 * d + r);
  }

  /** The low n bits of v in the opposite order. */
  function Rev(v: nat, n: nat): nat {
    if n == 0 then 0 else v % 2 * Pow2(n - 1) + Rev(v / 2, n - 1)
  }

  lemma {:induction false} RevBound(v: nat, n: nat)
    ensures Rev(v, n) < Pow2(n)
  {
    if n > 0 {
      RevBound(v / 2, n - 1);
      MulMono(v % 2, 1, Pow2(n - 1));
    }
  }

  /** Reversing turns the two readings of a bit string into each other. */
  lemma {:induction false} RevLsb(s: seq<byte>, p: nat, n: nat)
    ensures Rev(Lsb(s, p, n), n) == Msb(s, p, n)
    decreases n
  {
    if n > 0 {
      RevLsb(s, p + 1, n - 1);
      MsbSplit(s, p, 1, n - 1);
      assert Msb(s, p, 1) == Bit(s, p) by { assert Msb(s, p, 0) == 0; }
      assert Lsb(s, p, n) % 2 == Bit(s, p) && Lsb(s, p, n) / 2 == Lsb(s, p + 1, n - 1);
    }
  }

  /** Appending a bit at the top of v puts it at the bottom of the reversal. */
  lemma {:induction false} RevTop(v: nat, b: nat, n: nat)
    requires v < Pow2(n) && b < 2
    ensures Rev(v + b * Pow2(n), n + 1) == 2 * Rev(v, n) + b
  {
    if n == 0 {
      assert Rev(v + b, 1) == b % 2 * Pow2(0) + Rev(b / 2, 0);
    } else {
      Double(b, Pow2(n - 1));
      var w, h := v + b * Pow2(n), b * Pow2(n - 1);
      assert w == v + 2 * h;
      assert w % 2 == v % 2 && w / 2 == v / 2 + h;
      RevTop(v / 2, b, n - 1);
      Double(v % 2, Pow2(n - 1));
    }
  }

  lemma {:induction false} RevRev(v: nat, n: nat)
    requires v < Pow2(n)
    ensures Rev(Rev(v, n), n) == v
  {
    hide Rev;
    if n == 0 {
      NoBits(v);
    } else {
      var h, b := v / 2, v % 2;
      HalfFits(v, n);
      RevRev(h, n - 1);
      RevBound(h, n - 1);
      RevTop(Rev(h, n - 1), b, n - 1);
      RevStep(v, n);
    }
  }

  lemma NoBits(v: nat)
    ensures Rev(v, 0) == 0 && Pow2(0) == 1
  {
  }

  lemma RevStep(v: nat, n: nat)
    requires n > 0
    ensures Rev(v, n) == v % 2 * Pow2(n - 1) + Rev(v / 2, n - 1)
  {
  }

  lemma HalfFits(v: nat, n: nat)
    requires n > 0 && v < Pow2(n)
    ensures v / 2 < Pow2(n - 1)
  {
  }

  /** Reversing within a wider field shifts the reversal up. */
  lemma {:induction false} RevWiden(v: nat, n: nat, k: nat)
    requires v < Pow2(n)
    ensures Rev(v, n + k) == Rev(v, n) * Pow2(k)
  {
    if k > 0 {
      RevWiden(v, n, k - 1);
      Pow2Mono(n, n + k - 1);
      RevTop(v, 0, n + k - 1);
      Double(Rev(v, n), Pow2(k - 1));
    }
  }
}
