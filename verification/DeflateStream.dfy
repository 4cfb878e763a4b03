/** Whole DEFLATE streams: however an encoder divides its output into stored, fixed and
    dynamic blocks and describes its codes, decoding the stream gives what was encoded. */
module DeflateStream {
  import opened Bytes
  import opened Bits
  import opened Canonical
  import opened Deflate
  import opened DeflateTheorems

  // ----- The description of the codes (section 3.2.7 of RFC 1951)

  /** A symbol of the code length code with the value of its extra bits. */
  datatype LengthRun = LengthRun(c: nat, e: nat)

  function RunBits(c: nat): nat {
    if c < 16 then 0 else if c == 16 then 2 else if c == 17 then 3 else 7
  }

  /** The lengths that a run adds to those before it: one length, the last one again, or zeros. */
  function Unrolled(lens: seq<nat>, r: LengthRun): (l: seq<nat>)
    requires r.c == 16 ==> lens != []
    ensures lens < l
  {
    if r.c < 16 then lens + [r.c]
    else if r.c == 16 then lens + seq(r.e + 3, _ => lens[|lens| - 1])
    else lens + seq(r.e + if r.c == 17 then 3 else 11, _ => 0)
  }

  ghost predicate ValidRuns(lens: seq<nat>, runs: seq<LengthRun>)
    decreases |runs|
  {
    runs == [] || (runs[0].c < 19 && (runs[0].c == 16 ==> lens != []) && ValidRuns(Unrolled(lens, runs[0]), runs[1..]))
  }

  ghost function AllUnrolled(lens: seq<nat>, runs: seq<LengthRun>): (l: seq<nat>)
    requires ValidRuns(lens, runs)
    ensures lens <= l
    decreases |runs|
  {
    if runs == [] then lens else AllUnrolled(Unrolled(lens, runs[0]), runs[1..])
  }

  /** From p to q the stream holds the runs. */
  ghost predicate EncodedRuns(s: seq<byte>, code: seq<nat>, p: nat, runs: seq<LengthRun>, q: nat)
    decreases |runs|
  {
    if runs == [] then q == p
    else
      var r := runs[0];
      Matches(code, s, p, r.c) && Lsb(s, p + code[r.c], RunBits(r.c)) == r.e
      && EncodedRuns(s, code, p + code[r.c] + RunBits(r.c), runs[1..], q)
  }

  /** The decoder's view of one run. */
  lemma RunDecodes(s: seq<byte>, p: nat, r: LengthRun, lens: seq<nat>)
    requires r.c < 19 && (r.c == 16 ==> lens != []) && Lsb(s, p, RunBits(r.c)) == r.e
    ensures var (count, fill, bits) := RunOf(s, p, r.c, lens);
            count > 0 && bits == RunBits(r.c) && lens + Run(count, fill) == Unrolled(lens, r)
  {
    hide Lsb;
    var (count, fill, bits) := RunOf(s, p, r.c, lens);
    assert r.c < 16 ==> Run(count, fill) == [r.c];
  }

  lemma {:induction false} RunsDecode(s: seq<byte>, code: seq<nat>, p: nat, lens: seq<nat>, runs: seq<LengthRun>, q: nat)
    requires ValidLengths(code) && |code| == 19 && ValidRuns(lens, runs) && EncodedRuns(s, code, p, runs, q)
    ensures Lengths(s, code, p, lens, |AllUnrolled(lens, runs)|) == Ok((q, AllUnrolled(lens, runs)))
    decreases |runs|
  {
    hide Lsb, RunOf, RunBits, Unrolled, ValidLengths, Matches;
    if runs != [] {
      var r := runs[0];
      NextSymbolUnique(code, s, p, r.c);
      RunDecodes(s, p + code[r.c], r, lens);
      RunsDecode(s, code, p + code[r.c] + RunBits(r.c), Unrolled(lens, r), runs[1..], q);
    }
  }

  /** Where in the order of transmission the length of a code length symbol stands. */
  function PlaceOf(v: nat): (i: nat)
    requires v < 19
    ensures i < 19 && Order(i) == v
  {
    [3, 17, 15, 13, 11, 9, 7, 5, 4, 6, 8, 10, 12, 14, 16, 18, 0, 1, 2][v]
  }

  lemma PlaceOfOrder(i: nat)
    requires i < 19
    ensures PlaceOf(Order(i)) == i
  {
  }

  /** The first n code lengths in order of transmission are set, the others are zero. */
  lemma {:induction false} CodeLengthAt(s: seq<byte>, p: nat, n: nat, v: nat)
    requires n <= 19 && v < 19
    ensures CodeLengthCode(s, p, n)[v] == if PlaceOf(v) < n then Lsb(s, p + 3 * PlaceOf(v), 3) else 0
    decreases n
  {
    hide Order, PlaceOf, Lsb;
    if n > 0 {
      CodeLengthAt(s, p, n - 1, v);
      PlaceOfOrder(n - 1);
    }
  }

  /** From p to q the stream describes two codes, with a code length code of which n lengths are sent. */
  ghost predicate EncodedCodes(s: seq<byte>, p: nat, n: nat, code: seq<nat>, runs: seq<LengthRun>,
                               lit: seq<nat>, dist: seq<nat>, q: nat) {
    && 4 <= n <= 19 && 257 <= |lit| <= 288 && 1 <= |dist| <= 32
    && Lsb(s, p, 5) == |lit| - 257 && Lsb(s, p + 5, 5) == |dist| - 1 && Lsb(s, p + 10, 4) == n - 4
    && |code| == 19 && Accepted(code)
    && (forall v :: 0 <= v < 19 ==> code[v] == if PlaceOf(v) < n then Lsb(s, p + 14 + 3 * PlaceOf(v), 3) else 0)
    && ValidRuns([], runs) && AllUnrolled([], runs) == lit + dist && EncodedRuns(s, code, p + 14 + 3 * n, runs, q)
  }

  lemma CodesDecode(s: seq<byte>, p: nat, n: nat, code: seq<nat>, runs: seq<LengthRun>, lit: seq<nat>, dist: seq<nat>, q: nat)
    requires EncodedCodes(s, p, n, code, runs, lit, dist, q)
    ensures Described(s, p) == Ok(Codes(q, lit, dist))
  {
    hide Lsb, PlaceOf, Lengths, EncodedRuns, ValidRuns, AllUnrolled, CodeLengthCode, KraftSum, Order, Pow2;
    forall v | 0 <= v < 19 ensures CodeLengthCode(s, p + 14, n)[v] == code[v] { CodeLengthAt(s, p + 14, n, v); }
    assert CodeLengthCode(s, p + 14, n) == code;
    RunsDecode(s, code, p + 14 + 3 * n, [], runs, q);
    assert (lit + dist)[..|lit|] == lit && (lit + dist)[|lit|..] == dist;
  }

  // ----- Blocks

  /** What an encoder makes of a part of its input. */
  datatype Piece =
    | Plain(bytes: seq<byte>)
    | Fixed(tokens: seq<Token>)
    | Dynamic(n: nat, code: seq<nat>, runs: seq<LengthRun>, lit: seq<nat>, dist: seq<nat>, tokens: seq<Token>)

  function KindOf(b: Piece): nat {
    match b case Plain(_) => 0 case Fixed(_) => 1 case Dynamic(_, _, _, _, _, _) => 2
  }

  ghost predicate MeaningfulPiece(out: seq<byte>, b: Piece) {
    b.Plain? || Meaningful(out, b.tokens)
  }

  ghost function PieceMeaning(out: seq<byte>, b: Piece): (r: seq<byte>)
    requires MeaningfulPiece(out, b)
    ensures |out| <= |r|
  {
    if b.Plain? then out + b.bytes else Meaning(out, b.tokens)
  }

  /** After its header at p, the block runs to q. Stored bytes start at the next byte boundary, with their length twice. */
  ghost predicate EncodedPiece(s: seq<byte>, p: nat, b: Piece, q: nat) {
    match b
    case Plain(bytes) =>
      var k := NextByte(p);
      k + 4 + |bytes| <= |s| && q == 8 * (k + 4 + |bytes|) && s[k + 4..k + 4 + |bytes|] == bytes
      && s[k + 1] as nat * 256 + s[k] as nat == |bytes| && s[k + 3] as nat * 256 + s[k + 2] as nat == 0xFFFF - |bytes|
    case Fixed(tokens) => Encoded(s, FixedLit(), FixedDist(), p, tokens, q)
    case Dynamic(n, code, runs, lit, dist, tokens) =>
      Accepted(lit) && Accepted(dist)
      && exists m: nat :: EncodedCodes(s, p, n, code, runs, lit, dist, m) && Encoded(s, lit, dist, m, tokens, q)
  }

  function Tokens(b: Piece): nat {
    if b.Plain? then 0 else |b.tokens|
  }

  lemma PlainDecodes(s: seq<byte>, p: nat, bytes: seq<byte>, q: nat, out: seq<byte>, room: nat)
    requires EncodedPiece(s, p, Plain(bytes), q) && |out| + |bytes| <= room
    ensures Stored(s, At(p, out), room) == Ok(At(q, out + bytes))
  {
    if bytes == [] { assert out + bytes == out + []; }
  }

  lemma DynamicIs(s: seq<byte>, p: nat, codes: Codes)
    requires Described(s, p) == Ok(codes) && Accepted(codes.lit) && Accepted(codes.dist)
    ensures Deflate.Dynamic(s, p) == Ok(codes)
  {
    hide Described;
  }

  lemma PieceDecodes(s: seq<byte>, p: nat, b: Piece, q: nat, out: seq<byte>, room: nat, fuel: nat)
    requires EncodedPiece(s, p, b, q) && MeaningfulPiece(out, b) && |PieceMeaning(out, b)| <= room && fuel > Tokens(b)
    ensures Block(s, KindOf(b), At(p, out), room, fuel) == Ok(At(q, PieceMeaning(out, b)))
  {
    hide FixedLit, FixedDist, Encoded, EncodedCodes, Symbols, Stored, Meaning, Meaningful, Deflate.Dynamic, Described, KraftSum;
    match b
    case Plain(bytes) => PlainDecodes(s, p, bytes, q, out, room);
    case Fixed(tokens) =>
      FixedSizes();
      FixedCodesFit();
      DecodeInvertsEncode(s, FixedLit(), FixedDist(), p, tokens, q, out, room, fuel);
    case Dynamic(n, code, runs, lit, dist, tokens) =>
      var m: nat :| EncodedCodes(s, p, n, code, runs, lit, dist, m) && Encoded(s, lit, dist, m, tokens, q);
      CodesDecode(s, p, n, code, runs, lit, dist, m);
      CodesSmall(s, p, n, code, runs, lit, dist, m);
      DynamicIs(s, p, Codes(m, lit, dist));
      DecodeInvertsEncode(s, lit, dist, m, tokens, q, out, room, fuel);
  }

  lemma CodesSmall(s: seq<byte>, p: nat, n: nat, code: seq<nat>, runs: seq<LengthRun>, lit: seq<nat>, dist: seq<nat>, q: nat)
    requires EncodedCodes(s, p, n, code, runs, lit, dist, q) && Accepted(lit) && Accepted(dist)
    ensures |lit| <= 288 && |dist| <= 32 && ValidLengths(lit) && ValidLengths(dist)
  {
  }

  // ----- Streams

  ghost predicate MeaningfulPieces(out: seq<byte>, bs: seq<Piece>)
    decreases |bs|
  {
    bs == [] || (MeaningfulPiece(out, bs[0]) && MeaningfulPieces(PieceMeaning(out, bs[0]), bs[1..]))
  }

  ghost function PiecesMeaning(out: seq<byte>, bs: seq<Piece>): (r: seq<byte>)
    requires MeaningfulPieces(out, bs)
    ensures |out| <= |r|
    decreases |bs|
  {
    if bs == [] then out else PiecesMeaning(PieceMeaning(out, bs[0]), bs[1..])
  }

  /** At p the first of n blocks starts: its header, which marks the last one as final, and its contents up to q. */
  ghost predicate EncodedBlock(s: seq<byte>, p: nat, n: nat, b: Piece, q: nat) {
    Lsb(s, p, 1) == (if n == 1 then 1 else 0) && Lsb(s, p + 1, 2) == KindOf(b) && EncodedPiece(s, p + 3, b, q)
  }

  /** From p to q the stream holds the blocks. */
  ghost predicate EncodedPieces(s: seq<byte>, p: nat, bs: seq<Piece>, q: nat)
    decreases |bs|
  {
    bs != []
    && exists m: nat :: EncodedBlock(s, p, |bs|, bs[0], m) && if |bs| == 1 then m == q else EncodedPieces(s, m, bs[1..], q)
  }

  function Steps(bs: seq<Piece>): nat {
    if bs == [] then 0 else 1 + Tokens(bs[0]) + Steps(bs[1..])
  }

  lemma {:induction false} PiecesDecode(s: seq<byte>, p: nat, bs: seq<Piece>, q: nat, out: seq<byte>, room: nat, fuel: nat)
    requires EncodedPieces(s, p, bs, q) && MeaningfulPieces(out, bs) && |PiecesMeaning(out, bs)| <= room && fuel >= Steps(bs)
    ensures Blocks(s, At(p, out), room, fuel) == Ok(At(q, PiecesMeaning(out, bs)))
    decreases |bs|
  {
    hide Lsb, Block, EncodedPiece, PieceMeaning, MeaningfulPiece, KindOf, Tokens;
    var m: nat :| EncodedBlock(s, p, |bs|, bs[0], m) && if |bs| == 1 then m == q else EncodedPieces(s, m, bs[1..], q);
    PieceDecodes(s, p + 3, bs[0], m, out, room, fuel);
    if |bs| > 1 { PiecesDecode(s, m, bs[1..], q, PieceMeaning(out, bs[0]), room, fuel - 1); }
  }

  /** Decoding inverts encoding for whole streams: with any budget that the sizes of the input and of the
      output buffer call for, a stream that holds encoded pieces decodes to their meaning. */
  lemma StreamInvertsEncode(s: seq<byte>, header: bool, bs: seq<Piece>, q: nat, room: nat, fuel: nat)
    requires header ==> HeaderAccepted(s)
    requires EncodedPieces(s, if header then 16 else 0, bs, q)
    requires MeaningfulPieces([], bs) && |PiecesMeaning([], bs)| <= room && fuel > room + 1 + 8 * |s|
    ensures Zlib(s, header, room, fuel) == Ok(At(q, PiecesMeaning([], bs)))
  {
    hide Blocks, EncodedPieces, MeaningfulPieces, PiecesMeaning, HeaderAccepted, Steps;
    PiecesDecode(s, if header then 16 else 0, bs, q, [], room, Steps(bs));
    EnoughFuel(s, header, room, fuel);
    FuelIrrelevant(s, header, room, fuel, Steps(bs));
  }

  /** Bytes as one stored block: the header bits, the length twice, the bytes. */
  function StoredStream(bytes: seq<byte>): seq<byte>
    requires |bytes| < 0x10000
  {
    var n := |bytes|;
    [1, n % 256, n / 256, 255 - n % 256, 255 - n / 256] + bytes
  }

  /** Every output has a stream: up to 65535 bytes decode from a single stored block. */
  lemma StoredStreamDecodes(bytes: seq<byte>, room: nat, fuel: nat)
    requires |bytes| < 0x10000 && |bytes| <= room && fuel > room + 1 + 8 * |StoredStream(bytes)|
    ensures var s := StoredStream(bytes); Zlib(s, false, room, fuel) == Ok(At(8 * |s|, bytes))
  {
    hide Zlib, MeaningfulPieces, PiecesMeaning, EncodedPiece, EncodedPieces;
    var s, b := StoredStream(bytes), Plain(bytes);
    StoredHeader(s);
    StoredPiece(bytes);
    assert EncodedBlock(s, 0, 1, b, 8 * |s|);
    OnePiece(s, 0, b, 8 * |s|);
    PlainMeaning(bytes);
    StreamInvertsEncode(s, false, [b], 8 * |s|, room, fuel);
  }

  lemma StoredHeader(s: seq<byte>)
    requires s != [] && s[0] == 1
    ensures Lsb(s, 0, 1) == 1 && Lsb(s, 1, 2) == 0
  {
    Pow2Values();
    assert Bit(s, 0) == 1 && Bit(s, 1) == 0 && Bit(s, 2) == 0;
    assert Lsb(s, 1, 2) == Bit(s, 1) + 2 * Lsb(s, 2, 1);
    assert Lsb(s, 2, 1) == Bit(s, 2) + 2 * Lsb(s, 3, 0);
  }

  lemma StoredPiece(bytes: seq<byte>)
    requires |bytes| < 0x10000
    ensures EncodedPiece(StoredStream(bytes), 3, Plain(bytes), 8 * |StoredStream(bytes)|)
  {
    assert NextByte(3) == 1;
  }

  lemma OnePiece(s: seq<byte>, p: nat, b: Piece, q: nat)
    requires EncodedBlock(s, p, 1, b, q)
    ensures EncodedPieces(s, p, [b], q)
  {
    hide EncodedBlock;
    var bs := [b];
    assert EncodedBlock(s, p, |bs|, bs[0], q);
  }

  lemma PlainMeaning(bytes: seq<byte>)
    ensures MeaningfulPieces([], [Plain(bytes)]) && PiecesMeaning([], [Plain(bytes)]) == bytes
  {
    var one: seq<Piece> := [Plain(bytes)];
    assert one[1..] == [] && [] + bytes == bytes;
    assert PieceMeaning([], one[0]) == bytes && MeaningfulPieces(bytes, one[1..]);
    assert PiecesMeaning(bytes, one[1..]) == bytes;
  }
}
