/** stb_image's decoding tables for one Huffman code: a 512-entry fast table for
    codes of at most 9 bits, and limits per code length for the longer ones. */
module HuffmanTable {
  import opened Bits
  import opened Canonical
  import BitReverse

  const FAST_BITS := 9
  const FAST_SIZE := 512

  /** Where a coded symbol stands among all symbols sorted by length, then value. */
  ghost function Slot(lens: seq<nat>, v: nat): nat
    requires v < |lens|
  {
    FirstSymbol(lens, lens[v]) + Rank(lens, v)
  }

  lemma {:induction false} FirstSymbolMono(lens: seq<nat>, s: nat, t: nat)
    requires s <= t
    ensures FirstSymbol(lens, s) <= FirstSymbol(lens, t)
  {
    if s < t { FirstSymbolMono(lens, s, t - 1); }
  }

  lemma SlotRange(lens: seq<nat>, v: nat)
    requires v < |lens| && lens[v] > 0
    ensures FirstSymbol(lens, lens[v]) <= Slot(lens, v) < FirstSymbol(lens, lens[v] + 1)
    ensures lens[v] <= MAX_LENGTH ==> Slot(lens, v) < |lens|
  {
    RankBound(lens, v);
    if lens[v] <= MAX_LENGTH {
      FirstSymbolMono(lens, lens[v] + 1, MAX_LENGTH + 1);
      FirstSymbolBound(lens, MAX_LENGTH + 1);
    }
  }

  lemma SlotDistinct(lens: seq<nat>, u: nat, v: nat)
    requires u < |lens| && v < |lens| && u != v && lens[u] > 0 && lens[v] > 0
    ensures Slot(lens, u) != Slot(lens, v)
  {
    SlotRange(lens, u);
    SlotRange(lens, v);
    if lens[u] < lens[v] {
      FirstSymbolMono(lens, lens[u] + 1, lens[v]);
    } else if lens[v] < lens[u] {
      FirstSymbolMono(lens, lens[v] + 1, lens[u]);
    } else if u < v {
      RankStrict(lens, u, v);
    } else {
      RankStrict(lens, v, u);
    }
  }

  /** The stream bits j start with the code of v, which is short enough for the fast table. */
  ghost predicate Claims(lens: seq<nat>, v: nat, j: nat) {
    v < |lens| && 0 < lens[v] <= FAST_BITS && j % Pow2(lens[v]) == Rev(Code(lens, v), lens[v])
  }

  /** What the fast table may hold at j once the first n symbols are entered. */
  ghost predicate FastEntry(lens: seq<nat>, n: nat, j: nat, e: nat) {
    if e == 0 then forall v: nat :: v < n ==> !Claims(lens, v, j)
    else exists v: nat :: v < n && Claims(lens, v, j) && e == lens[v] * 512 + v
  }

  class ZHuffman {
    const fast: array<nat>
    const firstcode: array<nat>
    const maxcode: array<nat>
    const firstsymbol: array<nat>
    const size: array<nat>
    const value: array<nat>

    ghost predicate Shape() {
      && fast.Length == FAST_SIZE && firstcode.Length == 16 && maxcode.Length == 17
      && firstsymbol.Length == 16 && size.Length == MAX_SYMBOLS && value.Length == MAX_SYMBOLS
      && firstcode != firstsymbol && size != value && maxcode != firstcode && maxcode != firstsymbol
      && fast != size && fast != value && fast != firstcode && fast != maxcode && fast != firstsymbol
      && size != firstcode && size != maxcode && size != firstsymbol
      && value != firstcode && value != maxcode && value != firstsymbol
    }

    constructor ()
      ensures Shape() && fresh(fast) && fresh(firstcode) && fresh(maxcode)
      ensures fresh(firstsymbol) && fresh(size) && fresh(value)
    {
      fast := new nat[FAST_SIZE];
      firstcode := new nat[16];
      maxcode := new nat[17];
      firstsymbol := new nat[16];
      size := new nat[MAX_SYMBOLS];
      value := new nat[MAX_SYMBOLS];
    }

    ghost predicate Limits(lens: seq<nat>, n: nat)
      requires Shape() && n <= 16
      reads firstcode, maxcode, firstsymbol
    {
      forall s {:trigger firstcode[s]} {:trigger maxcode[s]} {:trigger firstsymbol[s]} :: 1 <= s < n ==>
        firstcode[s] == FirstCode(lens, s) && firstsymbol[s] == FirstSymbol(lens, s)
        && maxcode[s] == MaxCode(lens, s)
    }

    ghost predicate Slots(lens: seq<nat>, n: nat)
      requires Shape() && ValidLengths(lens) && n <= |lens|
      reads size, value
    {
      forall v: nat {:trigger Slot(lens, v)} :: v < n && lens[v] > 0 ==>
        Slot(lens, v) < MAX_SYMBOLS && value[Slot(lens, v)] == v && size[Slot(lens, v)] == lens[v]
    }

    ghost predicate Fast(lens: seq<nat>, n: nat)
      requires Shape()
      reads fast
    {
      forall j: nat :: j < FAST_SIZE ==> FastEntry(lens, n, j, fast[j])
    }

    /** The tables are those of the canonical code with these lengths. */
    ghost predicate Represents(lens: seq<nat>)
      reads fast, firstcode, maxcode, firstsymbol, size, value
    {
      && Shape() && ValidLengths(lens) && Fits(lens)
      && Limits(lens, 16) && maxcode[16] == 0x10000
      && Slots(lens, |lens|) && Fast(lens, |lens|)
    }
  }

  /** Counts the code lengths; entry 0 is cleared. */
  method CountSizes(lens: seq<nat>) returns (sizes: seq<nat>)
    requires ValidLengths(lens)
    ensures |sizes| == 17 && forall s :: 0 <= s <= MAX_LENGTH ==> sizes[s] == Coded(lens, s)
  {
    sizes := seq(17, _ => 0);
    var i := 0;
    while i < |lens|
      invariant 0 <= i <= |lens| && |sizes| == 17
      invariant forall s :: 0 <= s < 17 ==> sizes[s] == Count(lens[..i], s)
    {
      forall s | 0 <= s < 17 ensures Count(lens[..i + 1], s) == Count(lens[..i], s) + if lens[i] == s then 1 else 0 {
        CountNext(lens, i, s);
      }
      sizes := sizes[lens[i] := sizes[lens[i]] + 1];
      i := i + 1;
    }
    assert lens[..i] == lens;
    sizes := sizes[0 := 0];
  }

  lemma NoCodesYet(lens: seq<nat>)
    ensures FirstCode(lens, 1) == 0 == FirstSymbol(lens, 1) && Pow2(1) == 2
  {
  }

  lemma NextLength(lens: seq<nat>, s: nat)
    ensures FirstCode(lens, s + 1) == 2 * EndCode(lens, s) && FirstSymbol(lens, s + 1) == FirstSymbol(lens, s) + Coded(lens, s)
    ensures Pow2(s + 1) == 2 * Pow2(s)
  {
  }

  lemma TooManyOfLength(lens: seq<nat>, s: nat)
    requires 1 <= s <= MAX_LENGTH && EndCode(lens, s) > Pow2(s)
    ensures !Fits(lens)
  {
  }

  /** A length with more symbols than codes is rejected at once. */
  method CheckSizes(ghost lens: seq<nat>, sizes: seq<nat>) returns (ok: bool)
    requires |sizes| == 17 && forall s :: 0 <= s <= MAX_LENGTH ==> sizes[s] == Coded(lens, s)
    ensures !ok ==> !Fits(lens)
  {
    var i := 1;
    while i < 16
      invariant 1 <= i <= 16
    {
      if sizes[i] > Pow2(i) {
        TooManyOfLength(lens, i);
        return false;
      }
      i := i + 1;
    }
    ok := true;
  }

  /** The limits of one code length; no value is cut off by its 16-bit field. */
  method SetLimits(z: ZHuffman, ghost lens: seq<nat>, i: nat, code: nat, k: nat, end: nat)
    requires z.Shape() && |lens| <= MAX_SYMBOLS && 1 <= i < 16 && z.Limits(lens, i)
    requires code == FirstCode(lens, i) <= Pow2(i) && k == FirstSymbol(lens, i) && end == EndCode(lens, i)
    modifies z.firstcode, z.maxcode, z.firstsymbol
    ensures z.Limits(lens, i + 1)
  {
    hide FirstCode, FirstSymbol, Coded, Pow2;
    Pow2Mono(i, 15);
    Pow2Values();
    FirstSymbolBound(lens, i);
    z.firstcode[i] := code % 0x10000;
    z.firstsymbol[i] := k % 0x10000;
    z.maxcode[i] := end * Pow2(16 - i);
  }

  /** The per-length limits, or rejection of an over-subscribed length list. */
  method BuildLimits(z: ZHuffman, ghost lens: seq<nat>, sizes: seq<nat>) returns (ok: bool)
    requires z.Shape() && ValidLengths(lens)
    requires |sizes| == 17 && forall s :: 0 <= s <= MAX_LENGTH ==> sizes[s] == Coded(lens, s)
    modifies z.firstcode, z.maxcode, z.firstsymbol
    ensures ok <==> Fits(lens)
    ensures ok ==> z.Limits(lens, 16) && z.maxcode[16] == 0x10000
  {
    hide Count, MaxCode, Coded, Pow2, FirstCode, FirstSymbol;
    NoCodesYet(lens);
    var code, k, i := 0, 0, 1;
    while i < 16
      invariant 1 <= i <= 16
      invariant code == FirstCode(lens, i) && k == FirstSymbol(lens, i)
      invariant code <= Pow2(i)
      invariant forall s :: 1 <= s < i ==> EndCode(lens, s) <= Pow2(s)
      invariant z.Limits(lens, i)
    {
      var end := code + sizes[i];
      if sizes[i] != 0 && end - 1 >= Pow2(i) {
        TooManyOfLength(lens, i);
        return false;
      }
      SetLimits(z, lens, i, code, k, end);
      NextLength(lens, i);
      code := end * 2;
      k := k + sizes[i];
      i := i + 1;
    }
    z.maxcode[16] := 0x10000;
    ok := true;
  }

  lemma NextClaim(j: nat, m: nat, r: nat)
    requires m > 0 && j % m == r
    ensures (j + m) % m == r
    ensures forall t: nat {:trigger t % m} :: j < t < j + m ==> t % m != r
  {
    var q := j / m;
    MulAdd(q, 1, m);
    DivMod(j + m, m, q + 1, r);
    forall t: nat | j < t < j + m ensures t % m != r {
      if t % m == r {
        MulSub(t / m, q, m);
        MulBound(t / m - q, m);
        MulBound(t / m - q - 1, m);
        MulSub(t / m - q, 1, m);
      }
    }
  }

  lemma FirstClaim(r: nat, m: nat)
    requires r < m
    ensures r % m == r && forall t: nat {:trigger t % m} :: t < r ==> t % m != r
  {
    DivMod(r, m, 0, r);
    forall t: nat | t < r ensures t % m != r {
      DivMod(t, m, 0, t);
    }
  }

  /** Enters one short code at every fast index that ends with its reversal. */
  method FillFast(fast: array<nat>, s: nat, r: nat, entry: nat)
    requires fast.Length == FAST_SIZE && r < Pow2(s)
    modifies fast
    ensures forall j :: 0 <= j < FAST_SIZE ==>
              fast[j] == if j % Pow2(s) == r then entry else old(fast[j])
  {
    var j := r;
    FirstClaim(r, Pow2(s));
    while j < FAST_SIZE
      invariant j >= 0 && j % Pow2(s) == r
      invariant forall t: nat {:trigger fast[t]} {:trigger t % Pow2(s)} :: t < FAST_SIZE ==>
        fast[t] == if t < j && t % Pow2(s) == r then entry else old(fast[t])
      invariant forall t: nat {:trigger t % Pow2(s)} :: t < r ==> t % Pow2(s) != r
    {
      fast[j] := entry;
      NextClaim(j, Pow2(s), r);
      j := j + Pow2(s);
    }
  }

  /** Entering symbol i at exactly the indices it claims. */
  lemma FastStep(lens: seq<nat>, i: nat, before: seq<nat>, after: seq<nat>)
    requires i < |lens| && |before| == |after| == FAST_SIZE
    requires forall j: nat :: j < FAST_SIZE ==> FastEntry(lens, i, j, before[j])
    requires forall j: nat :: j < FAST_SIZE ==>
      after[j] == if Claims(lens, i, j) then lens[i] * 512 + i else before[j]
    ensures forall j: nat :: j < FAST_SIZE ==> FastEntry(lens, i + 1, j, after[j])
  {
    forall j: nat | j < FAST_SIZE ensures FastEntry(lens, i + 1, j, after[j]) {
      if Claims(lens, i, j) {
        assert i < i + 1 && Claims(lens, i, j) && after[j] == lens[i] * 512 + i;
      } else if before[j] != 0 {
        var v: nat :| v < i && Claims(lens, v, j) && before[j] == lens[v] * 512 + v;
        assert v < i + 1 && Claims(lens, v, j);
      }
    }
  }

  lemma SlotStep(lens: seq<nat>, i: nat, v: nat)
    requires v < i < |lens| && lens[i] > 0 && lens[v] > 0
    ensures Slot(lens, v) != Slot(lens, i)
  {
    SlotDistinct(lens, v, i);
  }

  /** Puts one symbol at its slot; earlier symbols keep theirs. */
  method EnterSlot(z: ZHuffman, lens: seq<nat>, i: nat, c: nat)
    requires z.Shape() && ValidLengths(lens) && i < |lens| && lens[i] > 0
    requires c == Slot(lens, i) && z.Slots(lens, i)
    modifies z.size, z.value
    ensures z.Slots(lens, i + 1)
  {
    SlotRange(lens, i);
    forall v: nat | v < i && lens[v] > 0 ensures Slot(lens, v) != c {
      SlotStep(lens, i, v);
    }
    z.size[c] := lens[i];
    z.value[c] := i;
  }

  /** Enters one symbol in the fast table if its code is short enough. */
  method EnterFast(z: ZHuffman, lens: seq<nat>, i: nat, code: nat)
    requires z.Shape() && ValidLengths(lens) && Fits(lens) && i < |lens| && lens[i] > 0
    requires code == Code(lens, i) && z.Fast(lens, i)
    modifies z.fast
    ensures z.Fast(lens, i + 1)
  {
    var s := lens[i];
    ghost var before := z.fast[..];
    if s <= FAST_BITS {
      CodeBound(lens, i);
      BitReverse.ReverseIsRev(code, s);
      RevBound(code, s);
      FillFast(z.fast, s, BitReverse.Reverse(code, s), s * 512 + i);
    }
    FastStep(lens, i, before, z.fast[..]);
  }

  lemma UncodedStep(z: ZHuffman, lens: seq<nat>, i: nat)
    requires z.Shape() && ValidLengths(lens) && i < |lens| && lens[i] == 0
    requires z.Slots(lens, i) && z.Fast(lens, i)
    ensures z.Slots(lens, i + 1) && z.Fast(lens, i + 1)
  {
    FastStep(lens, i, z.fast[..], z.fast[..]);
  }

  /** Symbol order: size, value and fast entries of every coded symbol. */
  method FillSymbols(z: ZHuffman, lens: seq<nat>)
    requires z.Shape() && ValidLengths(lens) && Fits(lens) && z.Limits(lens, 16)
    requires z.Fast(lens, 0)
    modifies z.fast, z.size, z.value
    ensures z.Slots(lens, |lens|) && z.Fast(lens, |lens|)
  {
    var nextCode := z.firstcode[..];
    var i := 0;
    while i < |lens|
      invariant 0 <= i <= |lens| && |nextCode| == 16
      invariant forall s :: 1 <= s < 16 ==> nextCode[s] == FirstCode(lens, s) + Count(lens[..i], s)
      invariant z.Slots(lens, i) && z.Fast(lens, i)
    {
      var s := lens[i];
      forall t | 1 <= t < 16 ensures Count(lens[..i + 1], t) == Count(lens[..i], t) + if s == t then 1 else 0 {
        CountNext(lens, i, t);
      }
      if s != 0 {
        EnterSlot(z, lens, i, nextCode[s] - z.firstcode[s] + z.firstsymbol[s]);
        EnterFast(z, lens, i, nextCode[s]);
        nextCode := nextCode[s := nextCode[s] + 1];
      } else {
        UncodedStep(z, lens, i);
      }
      i := i + 1;
    }
  }

  method ClearFast(fast: array<nat>)
    requires fast.Length == FAST_SIZE
    modifies fast
    ensures forall j :: 0 <= j < FAST_SIZE ==> fast[j] == 0
  {
    var j := 0;
    while j < FAST_SIZE
      invariant 0 <= j <= FAST_SIZE && forall t :: 0 <= t < j ==> fast[t] == 0
    {
      fast[j] := 0;
      j := j + 1;
    }
  }

  /** Builds the tables of the canonical code with the given lengths. It succeeds
      exactly when the lengths are not over-subscribed (Kraft's inequality). */
  method Build(z: ZHuffman, lens: seq<nat>) returns (ok: bool)
    requires z.Shape() && ValidLengths(lens)
    modifies z.fast, z.firstcode, z.maxcode, z.firstsymbol, z.size, z.value
    ensures ok <==> KraftSum(lens) <= Pow2(MAX_LENGTH)
    ensures ok ==> z.Represents(lens)
  {
    FitsIffKraft(lens);
    ClearFast(z.fast);
    var sizes := CountSizes(lens);
    ok := CheckSizes(lens, sizes);
    if ok {
      ok := BuildLimits(z, lens, sizes);
      if ok { FillSymbols(z, lens); }
    }
  }
}
