/** Why looking a bit string up in the tables finds the canonical code it starts with. */
module HuffmanDecode {
  import opened Bytes
  import opened Bits
  import opened Canonical
  import opened HuffmanTable

  /** A short code claims a fast index exactly when it comes next in the stream. */
  lemma ClaimsIffMatches(lens: seq<nat>, s: seq<byte>, p: nat, v: nat)
    requires Fits(lens) && v < |lens| && 0 < lens[v] <= FAST_BITS
    ensures Claims(lens, v, Lsb(s, p, FAST_BITS)) <==> Matches(lens, s, p, v)
  {
    var n := lens[v];
    LsbTake(s, p, n, FAST_BITS);
    RevLsb(s, p, n);
    LsbBound(s, p, n);
    RevRev(Lsb(s, p, n), n);
    CodeBound(lens, v);
    RevRev(Code(lens, v), n);
  }

  lemma Unpack(n: nat, v: nat)
    requires v < 512
    ensures (n * 512 + v) % 512 == v && (n * 512 + v) / 512 == n
  {
  }

  lemma FastSymbol(lens: seq<nat>, s: seq<byte>, p: nat, j: nat, e: nat) returns (v: nat)
    requires ValidLengths(lens) && Fits(lens) && e > 0
    requires j == Lsb(s, p, FAST_BITS) && FastEntry(lens, |lens|, j, e)
    ensures v < |lens| && Matches(lens, s, p, v) && e == lens[v] * 512 + v
  {
    v :| v < |lens| && Claims(lens, v, j) && e == lens[v] * 512 + v;
    ClaimsIffMatches(lens, s, p, v);
  }

  lemma FastHit(lens: seq<nat>, s: seq<byte>, p: nat, j: nat, e: nat)
    requires ValidLengths(lens) && Fits(lens) && e > 0
    requires j == Lsb(s, p, FAST_BITS) && FastEntry(lens, |lens|, j, e)
    ensures NextSymbol(lens, s, p) == e % 512 < |lens| && lens[e % 512] == e / 512
  {
    var v := FastSymbol(lens, s, p, j, e);
    NextSymbolUnique(lens, s, p, v);
    Unpack(lens[v], v);
  }

  lemma FastMiss(lens: seq<nat>, s: seq<byte>, p: nat, v: nat)
    requires Fits(lens) && FastEntry(lens, |lens|, Lsb(s, p, FAST_BITS), 0)
    ensures Matches(lens, s, p, v) ==> lens[v] > FAST_BITS
  {
    if Matches(lens, s, p, v) && lens[v] <= FAST_BITS { ClaimsIffMatches(lens, s, p, v); }
  }

  /** Below the limit of length t some code of at most t bits is found. */
  lemma {:induction false} SomeCode(lens: seq<nat>, k: nat, t: nat) returns (v: nat)
    requires t <= 16 && k < MaxCode(lens, t)
    ensures v < |lens| && 0 < lens[v] <= t && StartsWith(lens, k, v)
  {
    if t == 0 {
      assert false;
    } else if k < MaxCode(lens, t - 1) {
      v := SomeCode(lens, k, t - 1);
    } else {
      v := SymbolInInterval(lens, k, t);
    }
  }

  lemma SlowStart(lens: seq<nat>, s: seq<byte>, p: nat)
    requires ValidLengths(lens) && Fits(lens) && FastEntry(lens, |lens|, Lsb(s, p, FAST_BITS), 0)
    ensures Msb(s, p, 16) >= MaxCode(lens, FAST_BITS)
  {
    if Msb(s, p, 16) < MaxCode(lens, FAST_BITS) {
      var v := SomeCode(lens, Msb(s, p, 16), FAST_BITS);
      MatchesIsStartsWith(lens, s, p, v);
      FastMiss(lens, s, p, v);
    }
  }

  lemma SlowHit(lens: seq<nat>, s: seq<byte>, p: nat, t: nat) returns (v: nat)
    requires ValidLengths(lens) && 1 <= t <= MAX_LENGTH
    requires MaxCode(lens, t - 1) <= Msb(s, p, 16) < MaxCode(lens, t)
    ensures v < |lens| && lens[v] == t && NextSymbol(lens, s, p) == v
    ensures Slot(lens, v) == Msb(s, p, 16) / Pow2(16 - t) - FirstCode(lens, t) + FirstSymbol(lens, t)
  {
    v := SymbolInInterval(lens, Msb(s, p, 16), t);
    MatchesIsStartsWith(lens, s, p, v);
    NextSymbolUnique(lens, s, p, v);
  }

  lemma NoCode(lens: seq<nat>, s: seq<byte>, p: nat)
    requires ValidLengths(lens) && Msb(s, p, 16) >= MaxCode(lens, MAX_LENGTH)
    ensures NextSymbol(lens, s, p) == -1
  {
    var v := NextSymbol(lens, s, p);
    if v >= 0 {
      MatchesIsStartsWith(lens, s, p, v);
      CodeInterval(lens, Msb(s, p, 16), v);
      MaxCodeMono(lens, lens[v], MAX_LENGTH);
    }
  }
}
