/** stb_image's 16-bit reversal by masks and shifts, and the proof that it
    reverses bits. Words are natural numbers; the operators are bitwise. */
module BitReverse {
  import opened Bits

  function And(a: nat, b: nat): nat {
    if a == 0 then 0 else a % 2 * (b % 2) + 2 * And(a / 2, b / 2)
  }

  function Or(a: nat, b: nat): nat
    decreases a + b
  {
    if a + b == 0 then 0 else (if a % 2 + b % 2 > 0 then 1 else 0) + 2 * Or(a / 2, b / 2)
  }

  function Shl(a: nat, k: nat): nat {
    if k == 0 then a else 2 * Shl(a, k - 1)
  }

  function Shr(a: nat, k: nat): nat {
    if k == 0 then a else Shr(a, k - 1) / 2
  }

  /** Exchanges neighbouring groups of k bits, selected by the two masks. */
  function Swap(n: nat, hi: nat, lo: nat, k: nat): nat {
    Or(Shr(And(n, hi), k), Shl(And(n, lo), k))
  }

  function Reverse16(n: nat): nat {
    Swap(Swap(Swap(Swap(n, 0xAAAA, 0x5555, 1), 0xCCCC, 0x3333, 2), 0xF0F0, 0x0F0F, 4), 0xFF00, 0x00FF, 8)
  }

  function Reverse(v: nat, bits: nat): nat
    requires bits <= 16
  {
    Shr(Reverse16(v), 16 - bits)
  }

  // ----- Bit by bit

  function At(a: nat, i: nat): (b: nat)
    ensures b < 2
  {
    if i == 0 then a % 2 else At(a / 2, i - 1)
  }

  lemma {:induction false} AtZero(i: nat)
    ensures At(0, i) == 0
  {
    if i > 0 { AtZero(i - 1); }
  }

  lemma {:induction false} AtAnd(a: nat, b: nat, i: nat)
    ensures At(And(a, b), i) == At(a, i) * At(b, i)
    decreases i
  {
    if a == 0 {
      AtZero(i);
    } else {
      var low := a % 2 * (b % 2);
      assert low < 2 by { if a % 2 == 0 { assert low == 0; } else { assert low == b % 2; } }
      if i > 0 { AtAnd(a / 2, b / 2, i - 1); }
    }
  }

  lemma {:induction false} AtOr(a: nat, b: nat, i: nat)
    ensures At(Or(a, b), i) == if At(a, i) + At(b, i) > 0 then 1 else 0
    decreases i
  {
    if a + b == 0 {
      AtZero(i);
    } else if i > 0 {
      AtOr(a / 2, b / 2, i - 1);
    }
  }

  lemma {:induction false} AtShl(a: nat, k: nat, i: nat)
    ensures At(Shl(a, k), i) == if i < k then 0 else At(a, i - k)
    decreases k
  {
    if k > 0 && i > 0 { AtShl(a, k - 1, i - 1); }
  }

  lemma {:induction false} AtShr(a: nat, k: nat, i: nat)
    ensures At(Shr(a, k), i) == At(a, i + k)
    decreases k
  {
    if k > 0 { AtShr(a, k - 1, i + 1); }
  }

  lemma {:induction false} AtRev(v: nat, n: nat, i: nat)
    ensures At(Rev(v, n), i) == if i < n then At(v, n - 1 - i) else 0
    decreases n
  {
    if n == 0 {
      AtZero(i);
    } else {
      RevBound(v / 2, n - 1);
      AtSum(Rev(v / 2, n - 1), v % 2, n - 1, i);
      AtRev(v / 2, n - 1, i);
    }
  }

  /** A bit put just above an n-bit number. */
  lemma {:induction false} AtSum(a: nat, b: nat, n: nat, i: nat)
    requires a < Pow2(n) && b < 2
    ensures At(a + b * Pow2(n), i) == if i == n then b else At(a, i)
    decreases n
  {
    if n == 0 {
      if i > 0 { AtZero(i - 1); }
    } else {
      Double(b, Pow2(n - 1));
      var h := b * Pow2(n - 1);
      assert (a + 2 * h) % 2 == a % 2 && (a + 2 * h) / 2 == a / 2 + h;
      if i > 0 { AtSum(a / 2, b, n - 1, i - 1); }
    }
  }

  lemma {:induction false} SameBits(a: nat, b: nat)
    requires forall i: nat :: At(a, i) == At(b, i)
    ensures a == b
    decreases a
  {
    assert At(a, 0) == a % 2 && At(b, 0) == b % 2;
    forall i: nat ensures At(a / 2, i) == At(b / 2, i) {
      assert At(a, i + 1) == At(a / 2, i) && At(b, i + 1) == At(b / 2, i);
    }
    if a == 0 {
      if b > 0 { var i := HighBit(b); AtZero(i); }
    } else {
      SameBits(a / 2, b / 2);
    }
  }

  lemma {:induction false} HighBit(b: nat) returns (i: nat)
    requires b > 0
    ensures At(b, i) == 1
  {
    if b == 1 {
      i := 0;
    } else {
      i := HighBit(b / 2);
      i := i + 1;
    }
  }

  // ----- The four exchanges

  lemma {:induction false} AtHigh(a: nat, n: nat, i: nat)
    requires a < Pow2(n) && i >= n
    ensures At(a, i) == 0
    decreases n
  {
    if n == 0 { AtZero(i); } else { AtHigh(a / 2, n - 1, i - 1); }
  }

  lemma AtSwap(n: nat, hi: nat, lo: nat, k: nat, i: nat)
    ensures At(Swap(n, hi, lo, k), i) ==
            if At(n, i + k) * At(hi, i + k) + (if i < k then 0 else At(n, i - k) * At(lo, i - k)) > 0 then 1 else 0
  {
    AtOr(Shr(And(n, hi), k), Shl(And(n, lo), k), i);
    AtShr(And(n, hi), k, i);
    AtAnd(n, hi, i + k);
    AtShl(And(n, lo), k, i);
    if i >= k { AtAnd(n, lo, i - k); }
  }

  /** Bit i of the upper mask is 1 and of the lower mask 0 where on is true. */
  ghost predicate Upper(hi: nat, lo: nat, i: nat, on: bool) {
    At(hi, i) == (if on then 1 else 0) && At(lo, i) == (if on then 0 else 1)
  }

  lemma {:induction false} AtDiv(a: nat, i: nat)
    ensures At(a, i) == a / Pow2(i) % 2
    decreases i
  {
    if i > 0 {
      AtDiv(a / 2, i - 1);
      HalfFirst(a, Pow2(i - 1));
    }
  }

  lemma HalfFirst(a: nat, d: nat)
    requires d > 0
    ensures a / 2 / d == a / (2 * d)
  {
    var q, r := a / 2 / d, a / 2 % d;
    Double(q, d);
    assert a / 2 == q * d + r;
    DivMod(a, 2 * d, q, 2 * r + a % 2);
  }

  lemma PowersTo16(i: nat)
    requires i < 16
    ensures Pow2(i) == [1, 2, 4, 8, 16, 32, 64, 128, 256, 512, 1024, 2048, 4096, 8192, 16384, 32768][i]
  {
    assert Pow2(4) == 16;
    assert Pow2(8) == 256;
    assert Pow2(12) == 4096;
  }

  lemma Masks1(i: nat)
    requires i < 16
    ensures Upper(0xAAAA, 0x5555, i, i % 2 == 1)
  {
    hide At, Pow2;
    AtDiv(0xAAAA, i);
    AtDiv(0x5555, i);
    PowersTo16(i);
  }

  lemma Masks2(i: nat)
    requires i < 16
    ensures Upper(0xCCCC, 0x3333, i, i / 2 % 2 == 1)
  {
    hide At, Pow2;
    AtDiv(0xCCCC, i);
    AtDiv(0x3333, i);
    PowersTo16(i);
  }

  lemma Masks4(i: nat)
    requires i < 16
    ensures Upper(0xF0F0, 0x0F0F, i, i / 4 % 2 == 1)
  {
    hide At, Pow2;
    AtDiv(0xF0F0, i);
    AtDiv(0x0F0F, i);
    PowersTo16(i);
  }

  lemma Masks8(i: nat)
    requires i < 16
    ensures Upper(0xFF00, 0x00FF, i, i >= 8)
  {
    hide At, Pow2;
    AtDiv(0xFF00, i);
    AtDiv(0x00FF, i);
    PowersTo16(i);
  }

  /** What an exchange of groups of k bits does to bit i of a 16-bit word. */
  lemma Exchange(n: nat, hi: nat, lo: nat, k: nat, i: nat, up: bool)
    requires i < 16 && (up ==> i + k < 16) && (!up ==> i >= k)
    requires Upper(hi, lo, i, !up)
    requires up ==> Upper(hi, lo, i + k, true) && (i >= k ==> Upper(hi, lo, i - k, true))
    requires !up ==> (i + k < 16 ==> Upper(hi, lo, i + k, false)) && Upper(hi, lo, i - k, false)
    requires hi < 0x10000
    ensures At(Swap(n, hi, lo, k), i) == At(n, if up then i + k else i - k)
  {
    AtSwap(n, hi, lo, k, i);
    Pow2Values();
    if i + k >= 16 { AtHigh(hi, 16, i + k); }
  }

  lemma {:induction false} AtReverse16(n: nat, i: nat)
    requires i < 16
    ensures At(Reverse16(n), i) == At(n, 15 - i)
  {
    hide Swap, At;
    var n1 := Swap(n, 0xAAAA, 0x5555, 1);
    var n2 := Swap(n1, 0xCCCC, 0x3333, 2);
    var n4 := Swap(n2, 0xF0F0, 0x0F0F, 4);
    var i8 := Step8(n4, i);
    var i4 := Step4(n2, i8);
    var i2 := Step2(n1, i4);
    var i1 := Step1(n, i2);
    IndexReversed(i, i8, i4, i2, i1);
  }

  lemma IndexReversed(i: nat, i8: nat, i4: nat, i2: nat, i1: nat)
    requires i < 16 && i8 == (if i < 8 then i + 8 else i - 8)
    requires i4 == if i8 / 4 % 2 == 0 then i8 + 4 else i8 - 4
    requires i2 == if i4 / 2 % 2 == 0 then i4 + 2 else i4 - 2
    requires i1 == if i2 % 2 == 0 then i2 + 1 else i2 - 1
    ensures i1 == 15 - i
  {
  }

  lemma Step1(n: nat, i: nat) returns (j: nat)
    requires i < 16
    ensures j == (if i % 2 == 0 then i + 1 else i - 1) && At(Swap(n, 0xAAAA, 0x5555, 1), i) == At(n, j)
  {
    Masks1(i);
    if i > 0 { Masks1(i - 1); }
    if i < 15 { Masks1(i + 1); }
    j := if i % 2 == 0 then i + 1 else i - 1;
    Exchange(n, 0xAAAA, 0x5555, 1, i, i % 2 == 0);
  }

  lemma Step2(n: nat, i: nat) returns (j: nat)
    requires i < 16
    ensures j == (if i / 2 % 2 == 0 then i + 2 else i - 2) && At(Swap(n, 0xCCCC, 0x3333, 2), i) == At(n, j)
  {
    Masks2(i);
    if i > 1 { Masks2(i - 2); }
    if i < 14 { Masks2(i + 2); }
    j := if i / 2 % 2 == 0 then i + 2 else i - 2;
    Exchange(n, 0xCCCC, 0x3333, 2, i, i / 2 % 2 == 0);
  }

  lemma Step4(n: nat, i: nat) returns (j: nat)
    requires i < 16
    ensures j == (if i / 4 % 2 == 0 then i + 4 else i - 4) && At(Swap(n, 0xF0F0, 0x0F0F, 4), i) == At(n, j)
  {
    Masks4(i);
    if i > 3 { Masks4(i - 4); }
    if i < 12 { Masks4(i + 4); }
    j := if i / 4 % 2 == 0 then i + 4 else i - 4;
    Exchange(n, 0xF0F0, 0x0F0F, 4, i, i / 4 % 2 == 0);
  }

  lemma Step8(n: nat, i: nat) returns (j: nat)
    requires i < 16
    ensures j == (if i < 8 then i + 8 else i - 8) && At(Swap(n, 0xFF00, 0x00FF, 8), i) == At(n, j)
  {
    Masks8(i);
    if i > 7 { Masks8(i - 8); } else { Masks8(i + 8); }
    j := if i < 8 then i + 8 else i - 8;
    Exchange(n, 0xFF00, 0x00FF, 8, i, i < 8);
  }

  lemma AtReverse16High(n: nat, i: nat)
    requires i >= 16
    ensures At(Reverse16(n), i) == 0
  {
    hide Swap, At;
    var n4 := Swap(Swap(Swap(n, 0xAAAA, 0x5555, 1), 0xCCCC, 0x3333, 2), 0xF0F0, 0x0F0F, 4);
    AtSwap(n4, 0xFF00, 0x00FF, 8, i);
    Pow2Values();
    AtHigh(0xFF00, 16, i + 8);
    AtHigh(0x00FF, 8, i - 8);
  }

  /** The masks and shifts compute the 16-bit reversal, whatever is above bit 15. */
  lemma Reverse16IsRev(n: nat)
    ensures Reverse16(n) == Rev(n, 16)
  {
    forall i: nat ensures At(Reverse16(n), i) == At(Rev(n, 16), i) {
      AtRev(n, 16, i);
      if i < 16 { AtReverse16(n, i); } else { AtReverse16High(n, i); }
    }
    SameBits(Reverse16(n), Rev(n, 16));
  }

  /** A code shorter than 16 bits is reversed within its own length. */
  lemma ReverseIsRev(v: nat, bits: nat)
    requires bits <= 16 && v < Pow2(bits)
    ensures Reverse(v, bits) == Rev(v, bits)
  {
    Reverse16IsRev(v);
    RevWiden(v, bits, 16 - bits);
    ShrMultiple(Rev(v, bits), 16 - bits);
  }

  lemma {:induction false} ShrMultiple(a: nat, k: nat)
    ensures Shr(a * Pow2(k), k) == a
  {
    ShrOfMultiple(a, k, 0);
  }

  lemma {:induction false} ShrOfMultiple(a: nat, k: nat, m: nat)
    ensures Shr(a * Pow2(k + m), k) == a * Pow2(m)
    decreases k
  {
    if k > 0 {
      ShrOfMultiple(a, k - 1, m + 1);
      Double(a, Pow2(m));
    }
  }
}
