/** The decoder accepts nothing but encodings: whatever it decodes is a stream of well-formed blocks
    with well-formed codes, and the output is what they stand for. */
module DeflateExact {
  import opened Bytes
  import opened Bits
  import opened Canonical
  import opened Deflate
  import opened DeflateTheorems
  import opened DeflateStream

  // ----- Symbols

  lemma MatchEncoded(s: seq<byte>, dist: seq<nat>, p: nat, out: seq<byte>, room: nat, v: nat) returns (t: Token)
    requires |dist| <= 32 && 257 <= v < 288 && Match(s, dist, p, out, room, v).Ok?
    ensures t.Repeat? && t.v == v && ValidToken(t) && DistanceOf(t) <= |out| && LengthExtra(v - 257) <= 5
    ensures var p2, q := p + LengthExtra(v - 257), Match(s, dist, p, out, room, v).value;
            && Lsb(s, p, LengthExtra(v - 257)) == t.e && Matches(dist, s, p2, t.d)
            && Lsb(s, p2 + dist[t.d], DistExtra(t.d)) == t.f && q.pos == p2 + dist[t.d] + DistExtra(t.d)
            && q.out == Apply(out, t) && |q.out| <= room
  {
    hide LengthBase, DistBase, DistExtra, LengthExtra, Lsb, Copy, NextSymbol, Matches;
    var q := p + LengthExtra(v - 257);
    var d := NextSymbol(dist, s, q);
    t := Repeat(v, Lsb(s, p, LengthExtra(v - 257)), d, Lsb(s, q + dist[d], DistExtra(d)));
  }

  lemma SymbolEncoded(s: seq<byte>, lit: seq<nat>, dist: seq<nat>, at: Progress, room: nat) returns (t: Token)
    requires |lit| <= 288 && |dist| <= 32
    requires var r := Symbol(s, lit, dist, at, room); r.Ok? && r.value.More?
    ensures ValidToken(t) && (t.Repeat? ==> DistanceOf(t) <= |at.out|)
    ensures var next := Symbol(s, lit, dist, at, room).value.next;
            EncodedToken(s, lit, dist, at.pos, t, next.pos) && next.out == Apply(at.out, t) && |next.out| <= room
  {
    hide Match, NextSymbol, LengthBase, LengthExtra, DistBase, DistExtra, Lsb, Copy;
    var v := NextSymbol(lit, s, at.pos);
    if v < 256 {
      t := Literal(v);
    } else {
      t := MatchEncoded(s, dist, at.pos + lit[v], at.out, room, v);
    }
  }

  /** A block of symbols that decodes holds the codes of tokens, then that of the end. */
  lemma {:induction false} SymbolsEncoded(s: seq<byte>, lit: seq<nat>, dist: seq<nat>, at: Progress, room: nat, fuel: nat)
    returns (tokens: seq<Token>)
    requires |lit| <= 288 && |dist| <= 32 && |at.out| <= room && Symbols(s, lit, dist, at, room, fuel).Ok?
    ensures var r := Symbols(s, lit, dist, at, room, fuel).value;
            Encoded(s, lit, dist, at.pos, tokens, r.pos) && Meaningful(at.out, tokens) && Meaning(at.out, tokens) == r.out
            && |r.out| <= room
    decreases fuel
  {
    hide Symbol, EncodedToken, Apply, DistanceOf, ValidToken;
    var step := Symbol(s, lit, dist, at, room);
    if step.value.End? {
      tokens := [];
      EndEncoded(s, lit, dist, at, room);
    } else {
      var next := step.value.next;
      var t := SymbolEncoded(s, lit, dist, at, room);
      var rest := SymbolsEncoded(s, lit, dist, next, room, fuel - 1);
      tokens := [t] + rest;
      assert tokens[1..] == rest && tokens[0] == t;
    }
  }

  lemma EndEncoded(s: seq<byte>, lit: seq<nat>, dist: seq<nat>, at: Progress, room: nat)
    requires |lit| <= 288 && |dist| <= 32
    requires var r := Symbol(s, lit, dist, at, room); r.Ok? && r.value.End?
    ensures var last := Symbol(s, lit, dist, at, room).value.last;
            Matches(lit, s, at.pos, 256) && last == At(at.pos + lit[256], at.out)
  {
    hide Match;
  }

  // ----- Code descriptions

  lemma RunEncoded(s: seq<byte>, p: nat, c: nat, lens: seq<nat>) returns (r: LengthRun)
    requires c < 19 && (c == 16 ==> lens != [])
    ensures r.c == c && Lsb(s, p, RunBits(c)) == r.e && RunOf(s, p, c, lens).2 == RunBits(c)
    ensures lens + Run(RunOf(s, p, c, lens).0, RunOf(s, p, c, lens).1) == Unrolled(lens, r)
  {
    hide Lsb, RunOf, Unrolled;
    r := LengthRun(c, Lsb(s, p, RunBits(c)));
    RunDecodes(s, p, r, lens);
  }

  /** Code lengths that decode are coded runs. */
  lemma {:induction false} LengthsEncoded(s: seq<byte>, code: seq<nat>, p: nat, lens: seq<nat>, total: nat)
    returns (runs: seq<LengthRun>)
    requires |code| == 19 && |lens| <= total && Lengths(s, code, p, lens, total).Ok?
    ensures var r := Lengths(s, code, p, lens, total).value;
            ValidRuns(lens, runs) && AllUnrolled(lens, runs) == r.1 && EncodedRuns(s, code, p, runs, r.0)
    decreases total - |lens|
  {
    hide Lsb, RunOf, RunBits, Unrolled, NextSymbol, Matches;
    if |lens| == total {
      runs := [];
    } else {
      var c := NextSymbol(code, s, p);
      var r := RunEncoded(s, p + code[c], c, lens);
      var rest := LengthsEncoded(s, code, p + code[c] + RunBits(c), Unrolled(lens, r), total);
      runs := [r] + rest;
      OneRun(s, code, p, c, lens, r, rest, Lengths(s, code, p, lens, total).value.0);
    }
  }

  /** One run more. */
  lemma OneRun(s: seq<byte>, code: seq<nat>, p: nat, c: nat, lens: seq<nat>, r: LengthRun, rest: seq<LengthRun>, q: nat)
    requires r.c == c < 19 && (c == 16 ==> lens != []) && Matches(code, s, p, c) && Lsb(s, p + code[c], RunBits(c)) == r.e
    requires ValidRuns(Unrolled(lens, r), rest) && EncodedRuns(s, code, p + code[c] + RunBits(c), rest, q)
    ensures ValidRuns(lens, [r] + rest) && AllUnrolled(lens, [r] + rest) == AllUnrolled(Unrolled(lens, r), rest)
    ensures EncodedRuns(s, code, p, [r] + rest, q)
  {
    hide Lsb, RunBits, Unrolled, Matches;
    assert ([r] + rest)[1..] == rest;
  }

  /** A description of codes that decodes is one that an encoder could have written. */
  lemma CodesEncoded(s: seq<byte>, p: nat) returns (n: nat, code: seq<nat>, runs: seq<LengthRun>)
    requires Described(s, p).Ok?
    ensures var c := Described(s, p).value; EncodedCodes(s, p, n, code, runs, c.lit, c.dist, c.pos)
  {
    hide Lsb, PlaceOf, Lengths, EncodedRuns, ValidRuns, AllUnrolled, CodeLengthCode, KraftSum, Order, Pow2;
    HeaderBounds(s, p);
    n := Lsb(s, p + 10, 4) + 4;
    code := CodeLengthCode(s, p + 14, n);
    var hlit, hdist := Lsb(s, p, 5) + 257, Lsb(s, p + 5, 5) + 1;
    forall v | 0 <= v < 19 ensures code[v] == if PlaceOf(v) < n then Lsb(s, p + 14 + 3 * PlaceOf(v), 3) else 0 {
      CodeLengthAt(s, p + 14, n, v);
    }
    LengthsTotal(s, code, p + 14 + 3 * n, [], hlit + hdist);
    runs := LengthsEncoded(s, code, p + 14 + 3 * n, [], hlit + hdist);
    var all := Lengths(s, code, p + 14 + 3 * n, [], hlit + hdist).value.1;
    assert all[..hlit] + all[hlit..] == all;
  }

  // ----- Blocks

  /** A stored block that decodes has its length twice and all its bytes. */
  lemma StoredEncoded(s: seq<byte>, at: Progress, room: nat) returns (bytes: seq<byte>)
    requires Stored(s, at, room).Ok?
    ensures var r := Stored(s, at, room).value;
            EncodedPiece(s, at.pos, Plain(bytes), r.pos) && r.out == at.out + bytes && |r.out| <= room
  {
    var k := NextByte(at.pos);
    var len: nat := ByteAt(s, k + 1) * 256 + ByteAt(s, k);
    assert k + 4 + len <= |s|;
    bytes := s[k + 4..k + 4 + len];
    if len == 0 { assert at.out + [] == at.out; }
  }

  ghost predicate DecodesTo(s: seq<byte>, p: nat, out: seq<byte>, b: Piece, r: Progress) {
    EncodedPiece(s, p, b, r.pos) && MeaningfulPiece(out, b) && PieceMeaning(out, b) == r.out
  }

  lemma BlockEncoded(s: seq<byte>, kind: nat, at: Progress, room: nat, fuel: nat) returns (b: Piece)
    requires |at.out| <= room && Block(s, kind, at, room, fuel).Ok?
    ensures var r := Block(s, kind, at, room, fuel).value;
            KindOf(b) == kind && DecodesTo(s, at.pos, at.out, b, r) && |r.out| <= room
  {
    hide FixedLit, FixedDist, Encoded, EncodedCodes, Symbols, Stored, Meaning, Meaningful, Described, KraftSum, EncodedPiece;
    FixedSizes();
    if kind == 0 {
      var bytes := StoredEncoded(s, at, room);
      b := Plain(bytes);
    } else if kind == 1 {
      var tokens := SymbolsEncoded(s, FixedLit(), FixedDist(), at, room, fuel);
      b := Fixed(tokens);
      FixedIs(s, at.pos, tokens, Block(s, kind, at, room, fuel).value.pos);
    } else {
      b := DynamicEncoded(s, at, room, fuel);
    }
  }

  lemma FixedIs(s: seq<byte>, p: nat, tokens: seq<Token>, q: nat)
    requires Encoded(s, FixedLit(), FixedDist(), p, tokens, q)
    ensures EncodedPiece(s, p, Fixed(tokens), q)
  {
  }

  lemma DynamicEncoded(s: seq<byte>, at: Progress, room: nat, fuel: nat) returns (b: Piece)
    requires |at.out| <= room && Block(s, 2, at, room, fuel).Ok?
    ensures var r := Block(s, 2, at, room, fuel).value;
            b.Dynamic? && DecodesTo(s, at.pos, at.out, b, r) && |r.out| <= room
  {
    hide FixedLit, FixedDist, Encoded, EncodedCodes, Symbols, Meaning, Meaningful, Described, KraftSum;
    var codes := Deflate.Dynamic(s, at.pos).value;
    var n, code, runs := CodesEncoded(s, at.pos);
    var tokens := SymbolsEncoded(s, codes.lit, codes.dist, At(codes.pos, at.out), room, fuel);
    b := DeflateStream.Dynamic(n, code, runs, codes.lit, codes.dist, tokens);
  }

  // ----- Streams

  lemma {:induction false} BlocksEncoded(s: seq<byte>, at: Progress, room: nat, fuel: nat) returns (bs: seq<Piece>)
    requires |at.out| <= room && Blocks(s, at, room, fuel).Ok?
    ensures var r := Blocks(s, at, room, fuel).value;
            EncodedPieces(s, at.pos, bs, r.pos) && MeaningfulPieces(at.out, bs) && PiecesMeaning(at.out, bs) == r.out
            && |r.out| <= room
    decreases fuel
  {
    hide Lsb, Block, EncodedPiece, PieceMeaning, MeaningfulPiece, KindOf;
    var kind, start := Lsb(s, at.pos + 1, 2), At(at.pos + 3, at.out);
    var b := BlockEncoded(s, kind, start, room, fuel);
    var next := Block(s, kind, start, room, fuel).value;
    LastBit(s, at.pos);
    if Lsb(s, at.pos, 1) == 1 {
      bs := [b];
      OnePiece(s, at.pos, b, next.pos);
      assert bs[1..] == [] && MeaningfulPieces(next.out, bs[1..]) && PiecesMeaning(next.out, bs[1..]) == next.out;
    } else {
      var rest := BlocksEncoded(s, next, room, fuel - 1);
      bs := [b] + rest;
      assert bs[0] == b && bs[1..] == rest;
      assert EncodedBlock(s, at.pos, |bs|, bs[0], next.pos);
    }
  }

  lemma LastBit(s: seq<byte>, p: nat)
    ensures Lsb(s, p, 1) < 2
  {
    LsbBound(s, p, 1);
    Pow2Values();
  }

  /** From p to q the stream holds an encoding of this output. */
  ghost predicate Encodes(s: seq<byte>, p: nat, q: nat, out: seq<byte>) {
    exists bs: seq<Piece> :: EncodedPieces(s, p, bs, q) && MeaningfulPieces([], bs) && PiecesMeaning([], bs) == out
  }

  /** Decoding succeeds with an output exactly if the stream holds an encoding of it that fits, behind an
      acceptable header if there is one. With the right budget nothing else is a success. */
  lemma DecodesExactly(s: seq<byte>, header: bool, room: nat, fuel: nat, q: nat, out: seq<byte>)
    requires fuel > room + 1 + 8 * |s|
    ensures Zlib(s, header, room, fuel) == Ok(At(q, out)) <==>
            (header ==> HeaderAccepted(s)) && Encodes(s, if header then 16 else 0, q, out) && |out| <= room
  {
    hide Blocks, EncodedPieces, MeaningfulPieces, PiecesMeaning, HeaderAccepted;
    var p := if header then 16 else 0;
    if Zlib(s, header, room, fuel) == Ok(At(q, out)) {
      var bs := BlocksEncoded(s, At(p, []), room, fuel);
      assert Encodes(s, p, q, out);
    }
    if (header ==> HeaderAccepted(s)) && Encodes(s, p, q, out) && |out| <= room {
      var bs: seq<Piece> :| EncodedPieces(s, p, bs, q) && MeaningfulPieces([], bs) && PiecesMeaning([], bs) == out;
      StreamInvertsEncode(s, header, bs, q, room, fuel);
    }
  }
}
