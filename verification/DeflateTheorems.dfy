/** What the reference decoder of module Deflate promises: it inverts every
    encoder, and its step budget only decides whether a run has ended. */
module DeflateTheorems {
  import opened Bytes
  import opened Bits
  import opened Canonical
  import opened HuffmanTable
  import opened Deflate

  /** What an encoder puts into a block: a byte, or a copy given by a length symbol
      and a distance symbol with the values of their extra bits. */
  datatype Token = Literal(b: byte) | Repeat(v: nat, e: nat, d: nat, f: nat)

  ghost predicate ValidToken(t: Token) {
    t.Literal? || (257 <= t.v <= 285 && t.d <= 29)
  }

  ghost function LengthOf(t: Token): nat
    requires t.Repeat? && ValidToken(t)
  {
    LengthBase(t.v - 257) + t.e
  }

  ghost function DistanceOf(t: Token): nat
    requires t.Repeat? && ValidToken(t)
  {
    DistBase(t.d) + t.f
  }

  /** The tokens never reach back before the start of the output. */
  ghost predicate Meaningful(out: seq<byte>, tokens: seq<Token>)
    decreases |tokens|
  {
    tokens == []
    || (ValidToken(tokens[0])
        && (tokens[0].Repeat? ==> DistanceOf(tokens[0]) <= |out|)
        && Meaningful(Apply(out, tokens[0]), tokens[1..]))
  }

  ghost function Apply(out: seq<byte>, t: Token): (r: seq<byte>)
    requires ValidToken(t) && (t.Repeat? ==> DistanceOf(t) <= |out|)
    ensures |r| == |out| + if t.Literal? then 1 else LengthOf(t)
  {
    if t.Literal? then out + [t.b] else Copy(out, DistanceOf(t), LengthOf(t))
  }

  ghost function Meaning(out: seq<byte>, tokens: seq<Token>): (r: seq<byte>)
    requires Meaningful(out, tokens)
    ensures |r| >= |out|
    decreases |tokens|
  {
    if tokens == [] then out else Meaning(Apply(out, tokens[0]), tokens[1..])
  }

  /** The bits of one token start at p and end at q. */
  ghost predicate EncodedToken(s: seq<byte>, lit: seq<nat>, dist: seq<nat>, p: nat, t: Token, q: nat)
    requires ValidToken(t)
  {
    match t
    case Literal(b) => Matches(lit, s, p, b) && q == p + lit[b]
    case Repeat(v, e, d, f) =>
      Matches(lit, s, p, v)
      && var p1 := p + lit[v];
      var p2 := p1 + LengthExtra(v - 257);
      Lsb(s, p1, LengthExtra(v - 257)) == e && Matches(dist, s, p2, d)
      && Lsb(s, p2 + dist[d], DistExtra(d)) == f && q == p2 + dist[d] + DistExtra(d)
  }

  /** From p to q the stream holds the codes of the tokens and of the end-of-block symbol. */
  ghost predicate Encoded(s: seq<byte>, lit: seq<nat>, dist: seq<nat>, p: nat, tokens: seq<Token>, q: nat)
    decreases |tokens|
  {
    if tokens == [] then Matches(lit, s, p, 256) && q == p + lit[256]
    else ValidToken(tokens[0])
         && exists m: nat :: EncodedToken(s, lit, dist, p, tokens[0], m) && Encoded(s, lit, dist, m, tokens[1..], q)
  }

  lemma LiteralDecodes(s: seq<byte>, lit: seq<nat>, dist: seq<nat>, p: nat, b: byte, out: seq<byte>, room: nat)
    requires ValidLengths(lit) && |dist| <= 32 && Matches(lit, s, p, b) && |out| + 1 <= room
    ensures Symbol(s, lit, dist, At(p, out), room) == Ok(More(At(p + lit[b], out + [b])))
  {
    NextSymbolUnique(lit, s, p, b);
  }

  lemma MatchesInside(lens: seq<nat>, s: seq<byte>, p: nat, v: nat)
    requires Matches(lens, s, p, v)
    ensures v < |lens|
  {
  }

  lemma MatchDecodes(s: seq<byte>, dist: seq<nat>, p: nat, t: Token, q: nat, out: seq<byte>, room: nat)
    requires ValidLengths(dist) && |dist| <= 32 && t.Repeat? && ValidToken(t)
    requires Lsb(s, p, LengthExtra(t.v - 257)) == t.e
    requires var p2 := p + LengthExtra(t.v - 257);
             Matches(dist, s, p2, t.d) && Lsb(s, p2 + dist[t.d], DistExtra(t.d)) == t.f
             && q == p2 + dist[t.d] + DistExtra(t.d)
    requires DistanceOf(t) <= |out| && |Apply(out, t)| <= room
    ensures Match(s, dist, p, out, room, t.v) == Ok(At(q, Apply(out, t)))
  {
    hide LengthBase, LengthExtra, DistBase, DistExtra, Lsb, Copy, NextSymbol, Matches, ValidLengths;
    MatchesInside(dist, s, p + LengthExtra(t.v - 257), t.d);
    NextSymbolUnique(dist, s, p + LengthExtra(t.v - 257), t.d);
  }

  lemma TokenDecodes(s: seq<byte>, lit: seq<nat>, dist: seq<nat>, p: nat, t: Token, q: nat, out: seq<byte>, room: nat)
    requires ValidLengths(lit) && ValidLengths(dist) && |dist| <= 32
    requires ValidToken(t) && EncodedToken(s, lit, dist, p, t, q)
    requires t.Repeat? ==> DistanceOf(t) <= |out|
    requires |Apply(out, t)| <= room
    ensures Symbol(s, lit, dist, At(p, out), room) == Ok(More(At(q, Apply(out, t))))
  {
    hide LengthBase, LengthExtra, DistBase, DistExtra, Lsb, Copy, Match, NextSymbol, ValidLengths, Matches;
    MatchesInside(lit, s, p, if t.Literal? then t.b else t.v);
    if t.Literal? {
      LiteralDecodes(s, lit, dist, p, t.b, out, room);
    } else {
      NextSymbolUnique(lit, s, p, t.v);
      MatchDecodes(s, dist, p + lit[t.v], t, q, out, room);
    }
  }

  /** Decoding inverts encoding: whatever tokens an encoder chose and however it got
      them, a block that holds their codes decodes to their meaning. */
  lemma {:induction false} DecodeInvertsEncode(s: seq<byte>, lit: seq<nat>, dist: seq<nat>, p: nat,
                                               tokens: seq<Token>, q: nat, out: seq<byte>, room: nat, fuel: nat)
    requires ValidLengths(lit) && ValidLengths(dist) && |dist| <= 32
    requires Encoded(s, lit, dist, p, tokens, q) && Meaningful(out, tokens)
    requires |Meaning(out, tokens)| <= room && fuel > |tokens|
    ensures Symbols(s, lit, dist, At(p, out), room, fuel) == Ok(At(q, Meaning(out, tokens)))
    decreases |tokens|
  {
    hide Symbol, EncodedToken;
    if tokens == [] {
      EndDecodes(s, lit, dist, p, out, room);
    } else {
      var m: nat :| EncodedToken(s, lit, dist, p, tokens[0], m) && Encoded(s, lit, dist, m, tokens[1..], q);
      TokenDecodes(s, lit, dist, p, tokens[0], m, out, room);
      DecodeInvertsEncode(s, lit, dist, m, tokens[1..], q, Apply(out, tokens[0]), room, fuel - 1);
    }
  }

  lemma EndDecodes(s: seq<byte>, lit: seq<nat>, dist: seq<nat>, p: nat, out: seq<byte>, room: nat)
    requires ValidLengths(lit) && |dist| <= 32 && Matches(lit, s, p, 256)
    ensures Symbol(s, lit, dist, At(p, out), room) == Ok(End(At(p + lit[256], out)))
  {
    NextSymbolUnique(lit, s, p, 256);
  }

  lemma {:induction false} SymbolsFuel(s: seq<byte>, lit: seq<nat>, dist: seq<nat>, at: Progress, room: nat, f: nat, g: nat)
    requires |lit| <= 288 && |dist| <= 32 && f <= g
    ensures var r := Symbols(s, lit, dist, at, room, f);
            r != OutOfFuel ==> Symbols(s, lit, dist, at, room, g) == r
    decreases f
  {
    hide Symbol;
    if f > 0 {
      var r := Symbol(s, lit, dist, at, room);
      if r.Ok? && r.value.More? { SymbolsFuel(s, lit, dist, r.value.next, room, f - 1, g - 1); }
    }
  }

  lemma BlockFuel(s: seq<byte>, kind: nat, at: Progress, room: nat, f: nat, g: nat)
    requires f <= g
    ensures var r := Block(s, kind, at, room, f); r != OutOfFuel ==> Block(s, kind, at, room, g) == r
  {
    hide Symbols, FixedLit, FixedDist, Dynamic;
    FixedSizes();
    SymbolsFuel(s, FixedLit(), FixedDist(), at, room, f, g);
    var codes := Dynamic(s, at.pos);
    if codes.Ok? { SymbolsFuel(s, codes.value.lit, codes.value.dist, At(codes.value.pos, at.out), room, f, g); }
  }

  lemma {:induction false} BlocksFuel(s: seq<byte>, at: Progress, room: nat, f: nat, g: nat)
    requires f <= g
    ensures var r := Blocks(s, at, room, f); r != OutOfFuel ==> Blocks(s, at, room, g) == r
    decreases f
  {
    hide Block, Lsb;
    if f > 0 {
      var kind := Lsb(s, at.pos + 1, 2);
      var start := At(at.pos + 3, at.out);
      BlockFuel(s, kind, start, room, f, g);
      var r := Block(s, kind, start, room, f);
      if r.Ok? { BlocksFuel(s, r.value, room, f - 1, g - 1); }
    }
  }

  /** A run that ends within its budget ends the same way within any larger one. */
  lemma FuelIrrelevant(s: seq<byte>, header: bool, room: nat, f: nat, g: nat)
    requires Zlib(s, header, room, f) != OutOfFuel && Zlib(s, header, room, g) != OutOfFuel
    ensures Zlib(s, header, room, f) == Zlib(s, header, room, g)
  {
    hide Blocks, HeaderAccepted;
    var at := At(if header then 16 else 0, []);
    if f <= g { BlocksFuel(s, at, room, f, g); } else { BlocksFuel(s, at, room, g, f); }
  }

  // ----- How much budget is enough

  /** A match that is not reserved produces at least three bytes, and never more than there is room for. */
  lemma MatchGrows(s: seq<byte>, dist: seq<nat>, p: nat, out: seq<byte>, room: nat, v: nat)
    requires |dist| <= 32 && 257 <= v < 288
    ensures var r := Match(s, dist, p, out, room, v); r.Ok? ==> |out| < |r.value.out| <= room
  {
    hide DistBase, DistExtra, LengthExtra, Lsb;
    if v <= 285 { assert LengthBase(v - 257) >= 3; }
  }

  lemma SymbolGrows(s: seq<byte>, lit: seq<nat>, dist: seq<nat>, at: Progress, room: nat)
    requires |lit| <= 288 && |dist| <= 32
    ensures var r := Symbol(s, lit, dist, at, room);
            && r != OutOfFuel
            && (r.Ok? && r.value.More? ==> |at.out| < |r.value.next.out| <= room)
            && (r.Ok? && r.value.End? ==> r.value.last.out == at.out && r.value.last.pos >= at.pos)
  {
    hide Match;
    var v := NextSymbol(lit, s, at.pos);
    if v > 256 { MatchGrows(s, dist, at.pos + lit[v], at.out, room, v); }
  }

  /** A block of symbols ends by itself: every symbol uses up room. */
  lemma {:induction false} SymbolsEnd(s: seq<byte>, lit: seq<nat>, dist: seq<nat>, at: Progress, room: nat, fuel: nat)
    requires |lit| <= 288 && |dist| <= 32 && |at.out| <= room && fuel > room - |at.out|
    ensures var r := Symbols(s, lit, dist, at, room, fuel); r != OutOfFuel && (r.Ok? ==> |r.value.out| <= room)
    decreases fuel
  {
    hide Symbol;
    SymbolGrows(s, lit, dist, at, room);
    var r := Symbol(s, lit, dist, at, room);
    if r.Ok? && r.value.More? { SymbolsEnd(s, lit, dist, r.value.next, room, fuel - 1); }
  }

  lemma MatchAdvances(s: seq<byte>, dist: seq<nat>, p: nat, out: seq<byte>, room: nat, v: nat)
    requires |dist| <= 32 && 257 <= v < 288
    ensures var r := Match(s, dist, p, out, room, v); r.Ok? ==> r.value.pos >= p
  {
    hide LengthBase, DistBase, DistExtra, LengthExtra, Lsb;
  }

  /** Decoding never goes back. */
  lemma {:induction false} SymbolsAdvance(s: seq<byte>, lit: seq<nat>, dist: seq<nat>, at: Progress, room: nat, fuel: nat)
    requires |lit| <= 288 && |dist| <= 32
    ensures var r := Symbols(s, lit, dist, at, room, fuel); r.Ok? ==> r.value.pos >= at.pos
    decreases fuel
  {
    hide Match;
    if fuel > 0 {
      var v := NextSymbol(lit, s, at.pos);
      if v > 256 { MatchAdvances(s, dist, at.pos + lit[v], at.out, room, v); }
      var r := Symbol(s, lit, dist, at, room);
      if r.Ok? && r.value.More? { SymbolsAdvance(s, lit, dist, r.value.next, room, fuel - 1); }
    }
  }

  lemma RunPositive(s: seq<byte>, p: nat, c: nat, lens: seq<nat>)
    requires c < 19 && (c == 16 ==> lens != [])
    ensures RunOf(s, p, c, lens).0 > 0
  {
  }

  lemma {:induction false} LengthsAdvance(s: seq<byte>, code: seq<nat>, p: nat, lens: seq<nat>, total: nat)
    requires |code| == 19 && |lens| <= total
    ensures var r := Lengths(s, code, p, lens, total); r.Ok? ==> r.value.0 >= p
    decreases total - |lens|
  {
    hide Lsb, RunOf;
    var c := NextSymbol(code, s, p);
    if |lens| < total && c >= 0 && !(c == 16 && lens == []) {
      var (count, fill, bits) := RunOf(s, p + code[c], c, lens);
      RunPositive(s, p + code[c], c, lens);
      if count <= total - |lens| {
        LengthsAdvance(s, code, p + code[c] + bits, lens + Run(count, fill), total);
      }
    }
  }

  lemma DynamicAdvances(s: seq<byte>, p: nat)
    ensures var r := Dynamic(s, p); r.Ok? ==> r.value.pos >= p
  {
    hide Lengths, CodeLengthCode, Accepted, Lsb;
    HeaderBounds(s, p);
    var hclen, total := Lsb(s, p + 10, 4) + 4, Lsb(s, p, 5) + 257 + (Lsb(s, p + 5, 5) + 1);
    LengthsAdvance(s, CodeLengthCode(s, p + 14, hclen), p + 14 + 3 * hclen, [], total);
  }

  /** A block ends by itself, does not go back and keeps to the room there is. */
  lemma BlockEnds(s: seq<byte>, kind: nat, at: Progress, room: nat, fuel: nat)
    requires |at.out| <= room && fuel > room
    ensures var r := Block(s, kind, at, room, fuel); r != OutOfFuel && (r.Ok? ==> |r.value.out| <= room && r.value.pos >= at.pos)
  {
    hide Symbols, FixedLit, FixedDist, Dynamic;
    FixedSizes();
    SymbolsEnd(s, FixedLit(), FixedDist(), at, room, fuel);
    SymbolsAdvance(s, FixedLit(), FixedDist(), at, room, fuel);
    DynamicAdvances(s, at.pos);
    var codes := Dynamic(s, at.pos);
    if codes.Ok? {
      SymbolsEnd(s, codes.value.lit, codes.value.dist, At(codes.value.pos, at.out), room, fuel);
      SymbolsAdvance(s, codes.value.lit, codes.value.dist, At(codes.value.pos, at.out), room, fuel);
    }
  }

  lemma {:induction false} LsbBeyond(s: seq<byte>, p: nat, n: nat)
    requires p >= 8 * |s|
    ensures Lsb(s, p, n) == 0
    decreases n
  {
    if n > 0 {
      LsbBeyond(s, p + 1, n - 1);
      assert p / 8 >= |s|;
      ZeroBit(Pow2(p % 8));
    }
  }

  lemma ZeroBit(d: nat)
    requires d > 0
    ensures 0 / d % 2 == 0
  {
  }

  /** Past its end the input reads as a stored block with a wrong length check. */
  lemma BlockBeyond(s: seq<byte>, at: Progress, room: nat, fuel: nat)
    requires at.pos >= 8 * |s|
    ensures Block(s, Lsb(s, at.pos + 1, 2), At(at.pos + 3, at.out), room, fuel) == Corrupt
  {
    hide Lsb, Symbols, Dynamic, FixedLit, FixedDist;
    LsbBeyond(s, at.pos + 1, 2);
    assert NextByte(at.pos + 3) >= |s|;
  }

  lemma {:induction false} BlocksEnd(s: seq<byte>, at: Progress, room: nat, fuel: nat)
    requires |at.out| <= room && fuel > room + 1 + (if at.pos < 8 * |s| then 8 * |s| - at.pos else 0)
    ensures Blocks(s, at, room, fuel) != OutOfFuel
    decreases fuel
  {
    hide Block, Lsb;
    var kind, start := Lsb(s, at.pos + 1, 2), At(at.pos + 3, at.out);
    BlockEnds(s, kind, start, room, fuel);
    if at.pos >= 8 * |s| {
      BlockBeyond(s, at, room, fuel);
    } else {
      var r := Block(s, kind, start, room, fuel);
      if r.Ok? { BlocksEnd(s, r.value, room, fuel - 1); }
    }
  }

  /** The step budget is no restriction: every run ends within one that follows from the
      sizes of the input and of the output buffer, unless it meets a reserved symbol first. */
  lemma EnoughFuel(s: seq<byte>, header: bool, room: nat, fuel: nat)
    requires fuel > room + 1 + 8 * |s|
    ensures Zlib(s, header, room, fuel) != OutOfFuel
  {
    hide Blocks, HeaderAccepted;
    BlocksEnd(s, At(if header then 16 else 0, []), room, fuel);
  }

  /** No two symbols of a code claim the same entry of the fast table. */
  lemma ClaimsUnique(lens: seq<nat>, u: nat, v: nat, j: nat)
    requires ValidLengths(lens) && Fits(lens) && j < FAST_SIZE
    requires Claims(lens, u, j) && Claims(lens, v, j)
    ensures u == v
  {
    ClaimedPrefix(lens, u, j);
    ClaimedPrefix(lens, v, j);
    PrefixFree(lens, Rev(j, FAST_BITS) * Pow2(7), u, v);
  }

  /** An index claimed by v, reversed to 16 bits, starts with the code of v. */
  lemma ClaimedPrefix(lens: seq<nat>, v: nat, j: nat)
    requires ValidLengths(lens) && Fits(lens) && j < FAST_SIZE && Claims(lens, v, j)
    ensures StartsWith(lens, Rev(j, FAST_BITS) * Pow2(7), v)
  {
    hide FirstCode, Count, Rev;
    CodeBound(lens, v);
    ReversedPrefix(Code(lens, v), lens[v], j, FAST_BITS, 7);
  }

  /** If j ends with the reversal of c, its reversal starts with c. */
  lemma ReversedPrefix(c: nat, n: nat, j: nat, w: nat, b: nat)
    requires n <= w && c < Pow2(n) && j % Pow2(n) == Rev(c, n)
    ensures Rev(j, w) * Pow2(b) / Pow2(w - n + b) == c
  {
    hide Rev, Pow2;
    var q, r := j / Pow2(n), j % Pow2(n);
    assert j == q * Pow2(n) + r;
    RevRev(c, n);
    RevSplit(r, q, n, w - n);
    RevBound(q, w - n);
    ShiftUp(c, Rev(q, w - n), w - n, b);
  }

  /** (c * 2^a + low) * 2^b starts with c. */
  lemma ShiftUp(c: nat, low: nat, a: nat, b: nat)
    requires low < Pow2(a)
    ensures (c * Pow2(a) + low) * Pow2(b) / Pow2(a + b) == c
  {
    MulAdd(c * Pow2(a), low, Pow2(b));
    Pow2Add(a, b);
    Regroup(c, Pow2(a), Pow2(b));
    MulMono(low + 1, Pow2(a), Pow2(b));
    MulAdd(low, 1, Pow2(b));
    MulMono(0, low, Pow2(b));
    DivMod((c * Pow2(a) + low) * Pow2(b), Pow2(a + b), c, low * Pow2(b));
  }

  lemma Regroup(x: nat, y: nat, z: nat)
    ensures x * y * z == x * (y * z)
  {
  }

  /** Reversing a number digit group by digit group. */
  lemma {:induction false} RevSplit(r: nat, q: nat, n: nat, m: nat)
    requires r < Pow2(n)
    ensures Rev(q * Pow2(n) + r, n + m) == Rev(r, n) * Pow2(m) + Rev(q, m)
    decreases n
  {
    if n > 0 {
      var h := q * Pow2(n - 1);
      Double(q, Pow2(n - 1));
      var x := q * Pow2(n) + r;
      assert x == 2 * h + r;
      assert x % 2 == r % 2 && x / 2 == h + r / 2;
      RevSplit(r / 2, q, n - 1, m);
      Pow2Add(n - 1, m);
      Regroup(r % 2, Pow2(n - 1), Pow2(m));
      MulAdd(r % 2 * Pow2(n - 1), Rev(r / 2, n - 1), Pow2(m));
    }
  }
}
