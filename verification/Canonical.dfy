/** Canonical Huffman codes (section 3.2.2 of RFC 1951). A code is given by its
    list of code lengths: symbol v has length lens[v], and length 0 means that v
    is not coded. */
module Canonical {
  import opened Bytes
  import opened Bits

  const MAX_SYMBOLS := 288
  const MAX_LENGTH := 15

  ghost predicate ValidLengths(lens: seq<nat>) {
    |lens| <= MAX_SYMBOLS && forall v :: 0 <= v < |lens| ==> lens[v] <= MAX_LENGTH
  }

  /** How many symbols have length s. */
  ghost function Count(lens: seq<nat>, s: nat): nat {
    if lens == [] then 0
    else Count(lens[..|lens| - 1], s) + if lens[|lens| - 1] == s then 1 else 0
  }

  /** Count, except that uncoded symbols do not count. */
  ghost function Coded(lens: seq<nat>, s: nat): nat {
    if s == 0 then 0 else Count(lens, s)
  }

  /** The code of the first symbol of length s, and one past that of the last. */
  ghost function FirstCode(lens: seq<nat>, s: nat): nat {
    if s == 0 then 0 else 2 * (FirstCode(lens, s - 1) + Coded(lens, s - 1))
  }

  ghost function EndCode(lens: seq<nat>, s: nat): nat {
    FirstCode(lens, s) + Coded(lens, s)
  }

  /** How many coded symbols are shorter than s. */
  ghost function FirstSymbol(lens: seq<nat>, s: nat): nat {
    if s == 0 then 0 else FirstSymbol(lens, s - 1) + Coded(lens, s - 1)
  }

  /** How many symbols of the same length come before v. */
  ghost function Rank(lens: seq<nat>, v: nat): nat
    requires v < |lens|
  {
    Count(lens[..v], lens[v])
  }

  ghost function Code(lens: seq<nat>, v: nat): nat
    requires v < |lens|
  {
    FirstCode(lens, lens[v]) + Rank(lens, v)
  }

  /** No length runs out of codes. */
  ghost predicate Fits(lens: seq<nat>) {
    forall s :: 1 <= s <= MAX_LENGTH ==> EndCode(lens, s) <= Pow2(s)
  }

  /** The share of the code space a length list asks for, in units of 2^-15. */
  ghost function KraftSum(lens: seq<nat>): nat
    requires forall v :: 0 <= v < |lens| ==> lens[v] <= MAX_LENGTH
  {
    if lens == [] then 0
    else
      var t := lens[|lens| - 1];
      KraftSum(lens[..|lens| - 1]) + if t == 0 then 0 else Pow2(MAX_LENGTH - t)
  }

  // ----- Counting

  lemma {:induction false} CountPrefix(lens: seq<nat>, m: nat, n: nat, s: nat)
    requires m <= n <= |lens|
    ensures Count(lens[..m], s) <= Count(lens[..n], s)
    ensures Count(lens[..n], s) <= Count(lens[..m], s) + (n - m)
  {
    if m < n {
      CountPrefix(lens, m, n - 1, s);
      CountNext(lens, n - 1, s);
    }
  }

  lemma CountNext(lens: seq<nat>, n: nat, s: nat)
    requires n < |lens|
    ensures Count(lens[..n + 1], s) == Count(lens[..n], s) + if lens[n] == s then 1 else 0
  {
    var t := lens[..n + 1];
    assert t[..|t| - 1] == lens[..n] && t[|t| - 1] == lens[n];
  }

  lemma RankBound(lens: seq<nat>, v: nat)
    requires v < |lens|
    ensures Rank(lens, v) < Count(lens, lens[v])
  {
    CountNext(lens, v, lens[v]);
    CountPrefix(lens, v + 1, |lens|, lens[v]);
    assert lens[..|lens|] == lens;
  }

  /** Symbols of one length are told apart by their rank, in symbol order. */
  lemma RankStrict(lens: seq<nat>, u: nat, v: nat)
    requires u < v < |lens| && lens[u] == lens[v]
    ensures Rank(lens, u) < Rank(lens, v)
  {
    CountNext(lens, u, lens[u]);
    CountPrefix(lens, u + 1, v, lens[u]);
  }

  /** Every rank below the count belongs to a symbol. */
  lemma {:induction false} SymbolOfRank(lens: seq<nat>, s: nat, r: nat) returns (v: nat)
    requires r < Count(lens, s)
    ensures v < |lens| && lens[v] == s && Rank(lens, v) == r
  {
    var n := |lens| - 1;
    if lens[n] == s && r == Count(lens[..n], s) {
      v := n;
    } else {
      v := SymbolOfRank(lens[..n], s, r);
      assert lens[..n][..v] == lens[..v];
    }
  }

  lemma {:induction false} FirstSymbolBound(lens: seq<nat>, s: nat)
    requires s <= MAX_LENGTH + 1
    ensures FirstSymbol(lens, s) <= |lens|
  {
    if lens == [] {
      NoSymbols(s);
    } else {
      var n := |lens| - 1;
      FirstSymbolBound(lens[..n], s);
      FirstSymbolSnoc(lens, s);
    }
  }

  lemma {:induction false} NoSymbols(s: nat)
    ensures FirstSymbol([], s) == 0 && FirstCode([], s) == 0
  {
    if s > 0 { NoSymbols(s - 1); }
  }

  lemma {:induction false} FirstSymbolSnoc(lens: seq<nat>, s: nat)
    requires lens != []
    ensures var n := |lens| - 1;
            FirstSymbol(lens, s) == FirstSymbol(lens[..n], s) + if 0 < lens[n] < s then 1 else 0
  {
    if s > 0 { FirstSymbolSnoc(lens, s - 1); }
  }

  // ----- The Kraft inequality

  lemma {:induction false} EndCodeSnoc(lens: seq<nat>, s: nat)
    requires lens != []
    ensures var n := |lens| - 1; var t := lens[n];
            EndCode(lens, s) == EndCode(lens[..n], s) + if 0 < t <= s then Pow2(s - t) else 0
  {
    if s > 0 { EndCodeSnoc(lens, s - 1); }
  }

  lemma {:induction false} KraftIsEndCode(lens: seq<nat>)
    requires forall v :: 0 <= v < |lens| ==> lens[v] <= MAX_LENGTH
    ensures KraftSum(lens) == EndCode(lens, MAX_LENGTH)
  {
    if lens == [] {
      NoSymbols(MAX_LENGTH);
    } else {
      KraftIsEndCode(lens[..|lens| - 1]);
      EndCodeSnoc(lens, MAX_LENGTH);
    }
  }

  lemma {:induction false} EndCodeGrows(lens: seq<nat>, s: nat, t: nat)
    requires s <= t
    ensures EndCode(lens, s) * Pow2(t - s) <= EndCode(lens, t)
  {
    if s < t {
      EndCodeGrows(lens, s, t - 1);
      Double(EndCode(lens, s), Pow2(t - 1 - s));
      assert EndCode(lens, t) >= 2 * EndCode(lens, t - 1);
    }
  }

  /** A length list fits exactly when it satisfies Kraft's inequality. */
  lemma {:induction false} FitsIffKraft(lens: seq<nat>)
    requires forall v :: 0 <= v < |lens| ==> lens[v] <= MAX_LENGTH
    ensures Fits(lens) <==> KraftSum(lens) <= Pow2(MAX_LENGTH)
  {
    KraftIsEndCode(lens);
    if EndCode(lens, MAX_LENGTH) <= Pow2(MAX_LENGTH) {
      forall s | 1 <= s <= MAX_LENGTH ensures EndCode(lens, s) <= Pow2(s) {
        EndCodeGrows(lens, s, MAX_LENGTH);
        Pow2Add(s, MAX_LENGTH - s);
        CancelFactor(EndCode(lens, s), Pow2(s), Pow2(MAX_LENGTH - s));
      }
    }
  }

  lemma CancelFactor(x: int, y: int, d: int)
    requires d > 0 && x * d <= y * d
    ensures x <= y
  {
    if x > y { MulBound(x - y, d); MulSub(x, y, d); }
  }

  // ----- Code intervals in a 16-bit code space, most significant bit first

  /** One past the last 16-bit string that starts with a code of length at most s. */
  ghost function MaxCode(lens: seq<nat>, s: nat): nat
    requires s <= 16
  {
    EndCode(lens, s) * Pow2(16 - s)
  }

  lemma MaxCodeStep(lens: seq<nat>, s: nat)
    requires 1 <= s <= 16
    ensures MaxCode(lens, s - 1) == FirstCode(lens, s) * Pow2(16 - s)
    ensures MaxCode(lens, s) == MaxCode(lens, s - 1) + Coded(lens, s) * Pow2(16 - s)
  {
    Double(EndCode(lens, s - 1), Pow2(16 - s));
    assert Pow2(16 - (s - 1)) == 2 * Pow2(16 - s);
    MulAdd(FirstCode(lens, s), Coded(lens, s), Pow2(16 - s));
  }

  lemma {:induction false} MaxCodeMono(lens: seq<nat>, s: nat, t: nat)
    requires s <= t <= 16
    ensures MaxCode(lens, s) <= MaxCode(lens, t)
  {
    if s < t {
      MaxCodeMono(lens, s, t - 1);
      MaxCodeStep(lens, t);
      MulMono(0, Coded(lens, t), Pow2(16 - t));
    }
  }

  /** k is a 16-bit string that starts with the code of v. */
  ghost predicate StartsWith(lens: seq<nat>, k: nat, v: nat)
    requires v < |lens| && lens[v] <= 16
  {
    lens[v] > 0 && k / Pow2(16 - lens[v]) == Code(lens, v)
  }

  lemma QuotientRange(k: nat, d: nat, q: nat)
    requires d > 0
    ensures k / d == q <==> q * d <= k < (q + 1) * d
  {
    MulAdd(q, 1, d);
    if q * d <= k < (q + 1) * d { DivMod(k, d, q, k - q * d); }
  }

  lemma CodeInterval(lens: seq<nat>, k: nat, v: nat)
    requires v < |lens| && 0 < lens[v] <= 16
    ensures StartsWith(lens, k, v) ==> MaxCode(lens, lens[v] - 1) <= k < MaxCode(lens, lens[v])
  {
    if StartsWith(lens, k, v) {
      var s := lens[v];
      QuotientRange(k, Pow2(16 - s), Code(lens, v));
      MaxCodeStep(lens, s);
      RankBound(lens, v);
      MulMono(FirstCode(lens, s), Code(lens, v), Pow2(16 - s));
      MulMono(Code(lens, v) + 1, EndCode(lens, s), Pow2(16 - s));
    }
  }

  /** The interval between two neighbouring limits is filled by the codes of one length. */
  lemma SymbolInInterval(lens: seq<nat>, k: nat, s: nat) returns (v: nat)
    requires 1 <= s <= 16 && MaxCode(lens, s - 1) <= k < MaxCode(lens, s)
    ensures v < |lens| && lens[v] == s && StartsWith(lens, k, v)
  {
    var d := Pow2(16 - s);
    var q := k / d;
    QuotientRange(k, d, q);
    MaxCodeStep(lens, s);
    if q < FirstCode(lens, s) { MulMono(q + 1, FirstCode(lens, s), d); }
    if q >= EndCode(lens, s) { MulMono(EndCode(lens, s), q, d); }
    v := SymbolOfRank(lens, s, q - FirstCode(lens, s));
  }

  /** No two symbols' codes start the same string: the code is prefix-free. */
  lemma PrefixFree(lens: seq<nat>, k: nat, u: nat, v: nat)
    requires u < |lens| && v < |lens| && lens[u] <= 16 && lens[v] <= 16
    requires StartsWith(lens, k, u) && StartsWith(lens, k, v)
    ensures u == v
  {
    CodeInterval(lens, k, u);
    CodeInterval(lens, k, v);
    if lens[u] < lens[v] { MaxCodeMono(lens, lens[u], lens[v] - 1); }
    if lens[v] < lens[u] { MaxCodeMono(lens, lens[v], lens[u] - 1); }
    if u < v { RankStrict(lens, u, v); }
    if v < u { RankStrict(lens, v, u); }
  }

  /** A code has as many bits as its length says. */
  lemma CodeBound(lens: seq<nat>, v: nat)
    requires v < |lens| && 0 < lens[v] <= MAX_LENGTH && Fits(lens)
    ensures Code(lens, v) < Pow2(lens[v])
  {
    RankBound(lens, v);
  }

  // ----- Decoding

  /** The code of v is what comes next in the stream. */
  ghost predicate Matches(lens: seq<nat>, s: seq<byte>, p: nat, v: nat) {
    v < |lens| && lens[v] > 0 && Msb(s, p, lens[v]) == Code(lens, v)
  }

  /** The symbol that comes next in the stream, -1 if no code matches. */
  ghost function NextSymbol(lens: seq<nat>, s: seq<byte>, p: nat): (r: int)
    ensures -1 <= r < |lens|
    ensures r >= 0 ==> Matches(lens, s, p, r)
    ensures r == -1 ==> forall v: nat :: !Matches(lens, s, p, v)
  {
    if exists v: nat :: Matches(lens, s, p, v) then var v: nat :| Matches(lens, s, p, v); v else -1
  }

  lemma MatchesIsStartsWith(lens: seq<nat>, s: seq<byte>, p: nat, v: nat)
    requires v < |lens| && lens[v] <= MAX_LENGTH
    ensures Matches(lens, s, p, v) <==> StartsWith(lens, Msb(s, p, 16), v)
  {
    MsbTake(s, p, lens[v], 16);
  }

  /** Decoding is deterministic: a matching symbol is the next symbol. */
  lemma NextSymbolUnique(lens: seq<nat>, s: seq<byte>, p: nat, v: nat)
    requires ValidLengths(lens) && Matches(lens, s, p, v)
    ensures NextSymbol(lens, s, p) == v
  {
    var r := NextSymbol(lens, s, p);
    MatchesIsStartsWith(lens, s, p, v);
    MatchesIsStartsWith(lens, s, p, r);
    PrefixFree(lens, Msb(s, p, 16), r, v);
  }
}
