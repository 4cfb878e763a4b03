/** What the tables of DEFLATE mean (sections 3.2.5 and 3.2.6 of RFC 1951): the length and distance
    symbols cut the numbers into intervals, and the fixed codes count upwards in four ranges. */
module DeflateTables {
  import opened Bytes
  import opened Bits
  import opened Canonical
  import opened Deflate
  import opened DeflateTheorems
  import opened DeflateStream

  // ----- Lengths and distances

  lemma SmallPowers()
    ensures Pow2(0) == 1 && Pow2(1) == 2 && Pow2(2) == 4 && Pow2(3) == 8 && Pow2(4) == 16 && Pow2(5) == 32
    ensures Pow2(6) == 64 && Pow2(7) == 128 && Pow2(8) == 256 && Pow2(9) == 512 && Pow2(10) == 1024
    ensures Pow2(11) == 2048 && Pow2(12) == 4096 && Pow2(13) == 8192
  {
    Pow2Values();
    assert Pow2(10) == 2 * Pow2(9);
    assert Pow2(11) == 2 * Pow2(10);
    assert Pow2(12) == 2 * Pow2(11);
    assert Pow2(13) == 2 * Pow2(12);
  }

  /** Symbol 257 + i stands for 2^extra lengths from where those of the symbol before it end; the
      lengths start at 3, the extra bits grow every four symbols, and symbol 285 is length 258. */
  lemma LengthIntervals(i: nat)
    requires i < 28
    ensures LengthBase(0) == 3 && LengthBase(28) == 258 && LengthExtra(28) == 0
    ensures LengthExtra(i) == if i < 4 then 0 else i / 4 - 1
    ensures LengthBase(i) + Pow2(LengthExtra(i)) == if i < 27 then LengthBase(i + 1) else 259
  {
    LengthExtras(i);
    LengthStep(i, LengthExtra(i));
  }

  lemma LengthExtras(i: nat)
    requires i < 28
    ensures LengthExtra(i) == if i < 4 then 0 else i / 4 - 1
  {
  }

  lemma LengthStep(i: nat, extra: nat)
    requires i < 28 && extra == if i < 4 then 0 else i / 4 - 1
    ensures LengthBase(i) + Pow2(extra) == if i < 27 then LengthBase(i + 1) else 259
  {
    hide Pow2;
    SmallPowers();
  }

  /** The same for distances, from 1 to 32768, with extra bits that grow every two symbols. */
  lemma DistanceIntervals(i: nat)
    requires i < 30
    ensures DistBase(0) == 1
    ensures DistExtra(i) == if i < 2 then 0 else i / 2 - 1
    ensures DistBase(i) + Pow2(DistExtra(i)) == if i < 29 then DistBase(i + 1) else 32769
  {
    DistanceExtras(i);
    DistanceStep(i, DistExtra(i));
  }

  lemma DistanceExtras(i: nat)
    requires i < 30
    ensures DistExtra(i) == if i < 2 then 0 else i / 2 - 1
  {
  }

  lemma DistanceStep(i: nat, extra: nat)
    requires i < 30 && extra == if i < 2 then 0 else i / 2 - 1
    ensures DistBase(i) + Pow2(extra) == if i < 29 then DistBase(i + 1) else 32769
  {
    hide Pow2;
    SmallPowers();
  }

  /** Length symbol 257 + i with extra bits e stands for this length. */
  ghost predicate CodesLength(i: nat, e: nat, len: nat) {
    i < 29 && e < Pow2(LengthExtra(i)) && LengthBase(i) + e == len
  }

  ghost predicate CodesDistance(i: nat, e: nat, d: nat) {
    i < 30 && e < Pow2(DistExtra(i)) && DistBase(i) + e == d
  }

  lemma {:induction false} LengthFrom(len: nat, i: nat) returns (j: nat, e: nat)
    requires i < 28 && LengthBase(i) <= len <= 258
    ensures CodesLength(j, e, len)
    decreases 28 - i
  {
    hide LengthBase, LengthExtra;
    LengthIntervals(i);
    if len < LengthBase(i) + Pow2(LengthExtra(i)) {
      j, e := i, len - LengthBase(i);
    } else {
      j, e := LengthFrom(len, i + 1);
    }
  }

  lemma {:induction false} LengthsAscend(i: nat, j: nat)
    requires i < j < 28
    ensures LengthBase(i) + Pow2(LengthExtra(i)) <= LengthBase(j)
  {
    hide LengthBase, LengthExtra;
    LengthIntervals(j - 1);
    if i < j - 1 { LengthsAscend(i, j - 1); }
  }

  /** Every length from 3 to 258 has a code, and only one except for 258: there symbol 284 with all
      extra bits set stands for what symbol 285 stands for. */
  lemma LengthsCoded(len: nat) returns (i: nat, e: nat)
    ensures 3 <= len <= 258 <==> CodesLength(i, e, len)
    ensures forall j: nat, f: nat :: CodesLength(j, f, len) ==> (j, f) == (i, e) || len == 258
  {
    hide LengthBase, LengthExtra;
    LengthIntervals(0);
    i, e := 29, 0;
    if 3 <= len <= 258 { i, e := LengthFrom(len, 0); }
    forall j: nat, f: nat | CodesLength(j, f, len) && len != 258 ensures (j, f) == (i, e) {
      LengthInside(j, f, len);
      if j < i && i < 28 { LengthsAscend(j, i); }
      if i < j && j < 28 { LengthsAscend(i, j); }
    }
  }

  lemma LengthInside(j: nat, f: nat, len: nat)
    requires CodesLength(j, f, len)
    ensures 3 <= len <= 258
  {
    hide LengthBase, LengthExtra;
    LengthIntervals(0);
    LengthIntervals(27);
    SmallPowers();
    if 0 < j < 28 { LengthsAscend(0, j); }
    if j < 27 { LengthsAscend(j, 27); }
  }

  lemma {:induction false} DistanceFrom(d: nat, i: nat) returns (j: nat, e: nat)
    requires i < 30 && DistBase(i) <= d <= 32768
    ensures CodesDistance(j, e, d)
    decreases 30 - i
  {
    hide DistBase, DistExtra;
    DistanceIntervals(i);
    if d < DistBase(i) + Pow2(DistExtra(i)) {
      j, e := i, d - DistBase(i);
    } else {
      j, e := DistanceFrom(d, i + 1);
    }
  }

  lemma {:induction false} DistancesAscend(i: nat, j: nat)
    requires i < j < 30
    ensures DistBase(i) + Pow2(DistExtra(i)) <= DistBase(j)
  {
    hide DistBase, DistExtra;
    DistanceIntervals(j - 1);
    if i < j - 1 { DistancesAscend(i, j - 1); }
  }

  /** Every distance from 1 to 32768 has exactly one code. */
  lemma DistancesCoded(d: nat) returns (i: nat, e: nat)
    ensures 1 <= d <= 32768 <==> CodesDistance(i, e, d)
    ensures forall j: nat, f: nat :: CodesDistance(j, f, d) ==> (j, f) == (i, e)
  {
    hide DistBase, DistExtra;
    DistanceIntervals(0);
    i, e := 30, 0;
    if 1 <= d <= 32768 { i, e := DistanceFrom(d, 0); }
    forall j: nat, f: nat | CodesDistance(j, f, d) ensures (j, f) == (i, e) {
      DistanceInside(j, f, d);
      if j < i { DistancesAscend(j, i); }
      if i < j { DistancesAscend(i, j); }
    }
  }

  lemma DistanceInside(j: nat, f: nat, d: nat)
    requires CodesDistance(j, f, d)
    ensures 1 <= d <= 32768
  {
    hide DistBase, DistExtra;
    DistanceIntervals(0);
    DistanceIntervals(29);
    if j > 0 { DistancesAscend(0, j); }
    if j < 29 { DistancesAscend(j, 29); }
  }

  // ----- The fixed codes

  lemma {:induction false} CountRun(lens: seq<nat>, n: nat, t: nat, s: nat)
    ensures Count(lens + Run(n, t), s) == Count(lens, s) + if t == s then n else 0
    decreases n
  {
    hide Run;
    if n == 0 {
      assert lens + Run(0, t) == lens;
    } else {
      var l := lens + Run(n, t);
      CountRun(lens, n - 1, t, s);
      assert l[..|l| - 1] == lens + Run(n - 1, t) && l[|l| - 1] == t;
    }
  }

  /** How many of the first symbols of the fixed code have a length, run by run. */
  lemma CountRuns(a: nat, b: nat, c: nat, d: nat, s: nat)
    ensures Count(Run(a, 8) + Run(b, 9) + Run(c, 7) + Run(d, 8), s)
            == (if s == 8 then a + d else 0) + (if s == 9 then b else 0) + if s == 7 then c else 0
  {
    hide Run, Count;
    NoneCounted(s);
    assert [] + Run(a, 8) == Run(a, 8);
    CountRun([], a, 8, s);
    CountRun(Run(a, 8), b, 9, s);
    CountRun(Run(a, 8) + Run(b, 9), c, 7, s);
    CountRun(Run(a, 8) + Run(b, 9) + Run(c, 7), d, 8, s);
  }

  lemma NoneCounted(s: nat)
    ensures Count([], s) == 0
  {
  }

  /** The first codes of 7, 8 and 9 bits. */
  lemma FixedFirst()
    ensures FirstCode(FixedLit(), 7) == 0 && FirstCode(FixedLit(), 8) == 48 && FirstCode(FixedLit(), 9) == 400
  {
    hide Run, Count;
    var l := FixedLit();
    forall s ensures Count(l, s) == (if s == 8 then 152 else 0) + (if s == 9 then 112 else 0) + if s == 7 then 24 else 0 {
      CountRuns(144, 112, 24, 8, s);
    }
    assert FirstCode(l, 2) == 0;
    assert FirstCode(l, 4) == 0;
    assert FirstCode(l, 6) == 0;
    assert FirstCode(l, 7) == 0;
  }

  /** The first v symbols of the fixed code. */
  lemma FixedPrefix(v: nat)
    requires v < 288
    ensures FixedLit()[v] == if v < 144 then 8 else if v < 256 then 9 else if v < 280 then 7 else 8
    ensures FixedLit()[..v] == Run(if v < 144 then v else 144, 8) + Run(if v < 144 then 0 else if v < 256 then v - 144 else 112, 9)
                               + Run(if v < 256 then 0 else if v < 280 then v - 256 else 24, 7) + Run(if v < 280 then 0 else v - 280, 8)
  {
  }

  /** The fixed literal and length code, as section 3.2.6 lists it: literals 0 to 143 have the 8-bit codes
      from 00110000 on, 144 to 255 the 9-bit codes from 110010000 on, 256 to 279 the 7-bit codes from
      0000000 on, and 280 to 287 the 8-bit codes from 11000000 on. */
  lemma FixedCodes(v: nat)
    requires v < 288
    ensures FixedLit()[v] == if v < 144 then 8 else if v < 256 then 9 else if v < 280 then 7 else 8
    ensures Code(FixedLit(), v) ==
            if v < 144 then 48 + v else if v < 256 then 400 + (v - 144) else if v < 280 then v - 256 else 192 + (v - 280)
  {
    hide Run, FixedLit, FirstCode, Count;
    FixedSizes();
    FixedFirst();
    FixedPrefix(v);
    var a, b := if v < 144 then v else 144, if v < 144 then 0 else if v < 256 then v - 144 else 112;
    var c, d := if v < 256 then 0 else if v < 280 then v - 256 else 24, if v < 280 then 0 else v - 280;
    CountRuns(a, b, c, d, FixedLit()[v]);
  }

  /** The fixed distance code: five bits, the symbol itself. */
  lemma FixedDistances(v: nat)
    requires v < 32
    ensures FixedDist()[v] == 5 && Code(FixedDist(), v) == v
  {
    hide Count;
    var l := FixedDist();
    NoneCounted(5);
    assert [] + Run(v, 5) == l[..v];
    CountRun([], v, 5, 5);
    forall s | s < 5 ensures Count(l, s) == 0 {
      NoneCounted(s);
      assert [] + Run(32, 5) == l;
      CountRun([], 32, 5, s);
    }
    assert FirstCode(l, 2) == 0;
    assert FirstCode(l, 4) == 0;
  }

  // ----- The zlib header

  /** Section 2.2 of RFC 1950: the first byte has method 8 in its low half, whatever the window; the
      second has a level, no dictionary, and the check bits that make both a multiple of 31. */
  ghost predicate IsHeader(cmf: nat, flg: nat, window: nat, level: nat, check: nat) {
    && window < 16 && level < 4 && check < 32
    && cmf == 16 * window + 8 && flg == 64 * level + check && (256 * cmf + flg) % 31 == 0
  }

  /** The bits of the two bytes. */
  predicate HeaderBits(cmf: nat, flg: nat) {
    (cmf * 256 + flg) % 31 == 0 && flg / 32 % 2 == 0 && cmf % 16 == 8
  }

  lemma HeaderHasBits(cmf: nat, flg: nat, window: nat, level: nat, check: nat)
    requires IsHeader(cmf, flg, window, level, check)
    ensures HeaderBits(cmf, flg)
  {
  }

  lemma BitsAreHeader(cmf: byte, flg: byte)
    requires HeaderBits(cmf, flg)
    ensures IsHeader(cmf, flg, cmf as nat / 16, flg as nat / 64, flg as nat % 32)
  {
  }

  /** Exactly these headers are accepted. */
  lemma HeaderMeaning(s: seq<byte>)
    ensures HeaderAccepted(s) <==>
            exists window: nat, level: nat, check: nat :: IsHeader(ByteAt(s, 0), ByteAt(s, 1), window, level, check)
  {
    hide IsHeader;
    var cmf, flg := ByteAt(s, 0), ByteAt(s, 1);
    assert HeaderAccepted(s) <==> HeaderBits(cmf, flg);
    if HeaderAccepted(s) { BitsAreHeader(cmf, flg); }
    if window: nat, level: nat, check: nat :| IsHeader(cmf, flg, window, level, check) {
      HeaderHasBits(cmf, flg, window, level, check);
    }
  }

  /** The usual headers are accepted. */
  lemma UsualHeaders(level: byte)
    requires level in {0x01, 0x5E, 0x9C, 0xDA}
    ensures HeaderAccepted([0x78, level])
  {
  }

  // ----- A stream by hand

  /** A final block with the fixed codes: the letter a, a copy of three bytes at distance 1, the end. */
  const AAAA: seq<byte> := [0x4B, 0x04, 0x02, 0x00]

  lemma AaaaBit(i: nat)
    requires i < 30
    ensures Bit(AAAA, i) == if i in {0, 1, 3, 6, 10, 17} then 1 else 0
  {
    hide Pow2;
    SmallPowers();
  }

  lemma AaaaCodes()
    ensures Lsb(AAAA, 0, 1) == 1 && Lsb(AAAA, 1, 2) == 1
    ensures Msb(AAAA, 3, 8) == 145 && Msb(AAAA, 11, 7) == 1 && Msb(AAAA, 18, 5) == 0 && Msb(AAAA, 23, 7) == 0
  {
    hide Bit;
    forall i: nat | i < 30 ensures Bit(AAAA, i) == if i in {0, 1, 3, 6, 10, 17} then 1 else 0 { AaaaBit(i); }
    assert Lsb(AAAA, 1, 0) == 0 && Lsb(AAAA, 3, 0) == 0 && Lsb(AAAA, 2, 1) == 0;
    assert Msb(AAAA, 3, 2) == 2;
    assert Msb(AAAA, 3, 4) == 9;
    assert Msb(AAAA, 3, 6) == 36;
    assert Msb(AAAA, 11, 2) == 0;
    assert Msb(AAAA, 11, 4) == 0;
    assert Msb(AAAA, 11, 6) == 0;
    assert Msb(AAAA, 18, 2) == 0;
    assert Msb(AAAA, 18, 4) == 0;
    assert Msb(AAAA, 23, 2) == 0;
    assert Msb(AAAA, 23, 4) == 0;
    assert Msb(AAAA, 23, 6) == 0;
  }

  lemma AaaaEncoded()
    ensures Encoded(AAAA, FixedLit(), FixedDist(), 3, [Literal(97), Repeat(257, 0, 0, 0)], 30)
  {
    hide Code, FixedLit, FixedDist, Msb, LengthExtra, DistExtra;
    FixedSizes();
    AaaaCodes();
    FixedCodes(97);
    FixedCodes(257);
    FixedCodes(256);
    FixedDistances(0);
    LengthExtras(0);
    DistanceExtras(0);
    var tokens := [Literal(97), Repeat(257, 0, 0, 0)];
    assert EncodedToken(AAAA, FixedLit(), FixedDist(), 3, tokens[0], 11);
    assert EncodedToken(AAAA, FixedLit(), FixedDist(), 11, tokens[1..][0], 23);
    assert tokens[1..][1..] == [];
    assert Encoded(AAAA, FixedLit(), FixedDist(), 23, tokens[1..][1..], 30);
    assert Encoded(AAAA, FixedLit(), FixedDist(), 11, tokens[1..], 30);
  }

  /** The meaning of one token more. */
  lemma OneToken(out: seq<byte>, t: Token, rest: seq<Token>, next: seq<byte>)
    requires ValidToken(t) && (t.Repeat? ==> DistanceOf(t) <= |out|) && Apply(out, t) == next && Meaningful(next, rest)
    ensures Meaningful(out, [t] + rest) && Meaning(out, [t] + rest) == Meaning(next, rest)
  {
    hide Apply, DistanceOf, ValidToken;
    assert ([t] + rest)[1..] == rest;
  }

  lemma AaaaMeaning()
    ensures var tokens := [Literal(97), Repeat(257, 0, 0, 0)];
            Meaningful([], tokens) && Meaning([], tokens) == [97, 97, 97, 97]
  {
    hide LengthBase, DistBase, Copy;
    LengthIntervals(0);
    DistanceIntervals(0);
    CopyThrice();
    OneToken([97], Repeat(257, 0, 0, 0), [], [97, 97, 97, 97]);
    assert [] + [97] == [97] && [Repeat(257, 0, 0, 0)] + [] == [Repeat(257, 0, 0, 0)];
    OneToken([], Literal(97), [Repeat(257, 0, 0, 0)], [97]);
    assert [Literal(97)] + [Repeat(257, 0, 0, 0)] == [Literal(97), Repeat(257, 0, 0, 0)];
  }

  lemma CopyThrice()
    ensures Copy([97], 1, 3) == Copy([97, 97], 1, 2) == [97, 97, 97, 97]
  {
    assert [97] + [97] == [97, 97] && [97, 97] + [97] == [97, 97, 97] && [97, 97, 97] + [97] == [97, 97, 97, 97];
    assert Copy([97, 97, 97], 1, 1) == [97, 97, 97, 97];
    assert Copy([97, 97], 1, 2) == Copy([97, 97, 97], 1, 1);
  }

  /** These four bytes decode to four letters. */
  lemma FourBytesDecode(room: nat, fuel: nat)
    requires room >= 4 && fuel > room + 33
    ensures Zlib(AAAA, false, room, fuel) == Ok(At(30, [97, 97, 97, 97]))
  {
    hide Zlib, Encoded, Meaning, Meaningful;
    var b := Fixed([Literal(97), Repeat(257, 0, 0, 0)]);
    AaaaCodes();
    AaaaEncoded();
    AaaaMeaning();
    assert EncodedBlock(AAAA, 0, 1, b, 30);
    OnePiece(AAAA, 0, b, 30);
    OneMeaning(b, [97, 97, 97, 97]);
    StreamInvertsEncode(AAAA, false, [b], 30, room, fuel);
  }

  lemma OneMeaning(b: Piece, out: seq<byte>)
    requires MeaningfulPiece([], b) && PieceMeaning([], b) == out
    ensures MeaningfulPieces([], [b]) && PiecesMeaning([], [b]) == out
  {
    hide MeaningfulPiece, PieceMeaning;
    assert [b][1..] == [] && MeaningfulPieces(out, [b][1..]) && PiecesMeaning(out, [b][1..]) == out;
  }
}
