/** The meaning of a DEFLATE stream: a decoder for RFC 1951 that works on bit
    positions of the zero-extended input and on the output written so far. */
module Deflate {
  import opened Bytes
  import opened Bits
  import opened Canonical

  /** Reserved: the stream uses a length symbol 286-287 or a distance symbol 30-31.
      NoSpace: the output would not fit. OutOfFuel: the run goes on. */
  datatype Outcome<+T> = Ok(value: T) | Corrupt | Reserved | NoSpace | OutOfFuel

  /** How far the input is read, in bits, and what has been written. */
  datatype Progress = At(pos: nat, out: seq<byte>)

  /** Bases and extra bits of the length and distance symbols (section 3.2.5 of RFC 1951);
      the entries of the reserved symbols are zero. */
  function LengthBase(i: nat): nat
    requires i < 31
  {
    [3, 4, 5, 6, 7, 8, 9, 10, 11, 13, 15, 17, 19, 23, 27, 31,
     35, 43, 51, 59, 67, 83, 99, 115, 131, 163, 195, 227, 258, 0, 0][i]
  }

  function LengthExtra(i: nat): (r: nat)
    requires i < 31
    ensures r <= 5
  {
    [0, 0, 0, 0, 0, 0, 0, 0, 1, 1, 1, 1, 2, 2, 2, 2, 3, 3, 3, 3, 4, 4, 4, 4, 5, 5, 5, 5, 0, 0, 0][i]
  }

  function DistBase(i: nat): (r: nat)
    requires i < 32
    ensures i <= 29 ==> r > 0
  {
    [1, 2, 3, 4, 5, 7, 9, 13, 17, 25, 33, 49, 65, 97, 129, 193, 257, 385, 513, 769, 1025, 1537,
     2049, 3073, 4097, 6145, 8193, 12289, 16385, 24577, 0, 0][i]
  }

  function DistExtra(i: nat): (r: nat)
    requires i < 32
    ensures r <= 13
  {
    [0, 0, 0, 0, 1, 1, 2, 2, 3, 3, 4, 4, 5, 5, 6, 6, 7, 7, 8, 8, 9, 9, 10, 10, 11, 11, 12, 12,
     13, 13, 0, 0][i]
  }

  /** Appends len bytes, each a copy of the byte dist positions before it. */
  ghost function Copy(out: seq<byte>, dist: nat, len: nat): (r: seq<byte>)
    requires 1 <= dist <= |out|
    ensures |r| == |out| + len
    decreases len
  {
    if len == 0 then out else Copy(out + [out[|out| - dist]], dist, len - 1)
  }

  /** The copy in closed form: the last dist bytes, repeated. */
  lemma {:induction false} CopyRepeats(out: seq<byte>, dist: nat, len: nat, i: nat)
    requires 1 <= dist <= |out| && i < |out| + len
    ensures Copy(out, dist, len)[i] == if i < |out| then out[i] else out[|out| - dist + (i - |out|) % dist]
    decreases len
  {
    if len > 0 {
      var next := out + [out[|out| - dist]];
      CopyRepeats(next, dist, len - 1, i);
      if i > |out| { CycleShift(i - |out| - 1, dist); }
      if i == |out| { DivMod(0, dist, 0, 0); }
    }
  }

  lemma CycleShift(j: nat, d: nat)
    requires d > 0
    ensures if j % d == d - 1 then (j + 1) % d == 0 else (j + 1) % d == j % d + 1
  {
    if j % d == d - 1 {
      MulAdd(j / d, 1, d);
      DivMod(j + 1, d, j / d + 1, 0);
    } else {
      DivMod(j + 1, d, j / d, j % d + 1);
    }
  }

  /** A match: its length, its distance symbol, its distance, and the copy. */
  ghost function Match(s: seq<byte>, dist: seq<nat>, p: nat, out: seq<byte>, room: nat, v: nat): (r: Outcome<Progress>)
    requires |dist| <= 32 && 257 <= v < 288
    ensures !r.OutOfFuel?
  {
    var len := LengthBase(v - 257) + Lsb(s, p, LengthExtra(v - 257));
    var q := p + LengthExtra(v - 257);
    var d := NextSymbol(dist, s, q);
    if v > 285 then Reserved
    else if d < 0 then Corrupt
    else if d > 29 then Reserved
    else
      var back := DistBase(d) + Lsb(s, q + dist[d], DistExtra(d));
      if back > |out| then Corrupt
      else if |out| + len > room then NoSpace
      else Ok(At(q + dist[d] + DistExtra(d), Copy(out, back, len)))
  }

  /** What one symbol of a block does: the block goes on or ends. */
  datatype Step = More(next: Progress) | End(last: Progress)

  ghost function Symbol(s: seq<byte>, lit: seq<nat>, dist: seq<nat>, at: Progress, room: nat): Outcome<Step>
    requires |lit| <= 288 && |dist| <= 32
  {
    var v := NextSymbol(lit, s, at.pos);
    if v < 0 then Corrupt
    else if v < 256 then
      if |at.out| + 1 > room then NoSpace else Ok(More(At(at.pos + lit[v], at.out + [v])))
    else if v == 256 then Ok(End(At(at.pos + lit[v], at.out)))
    else
      match Match(s, dist, at.pos + lit[v], at.out, room, v)
      case Ok(next) => Ok(More(next))
      case Reserved => Reserved
      case NoSpace => NoSpace
      case _ => Corrupt
  }

  /** A block's literal, match and end symbols (section 3.2.3 of RFC 1951). */
  ghost function Symbols(s: seq<byte>, lit: seq<nat>, dist: seq<nat>, at: Progress, room: nat, fuel: nat)
    : Outcome<Progress>
    requires |lit| <= 288 && |dist| <= 32
    decreases fuel
  {
    if fuel == 0 then OutOfFuel
    else
      match Symbol(s, lit, dist, at, room)
      case Ok(More(next)) => Symbols(s, lit, dist, next, room, fuel - 1)
      case Ok(End(last)) => Ok(last)
      case Corrupt => Corrupt
      case Reserved => Reserved
      case NoSpace => NoSpace
      case OutOfFuel => OutOfFuel
  }

  /** A stored block (section 3.2.4), from the first bit after the block header. */
  ghost function Stored(s: seq<byte>, at: Progress, room: nat): Outcome<Progress> {
    var k := NextByte(at.pos);
    var len: nat := ByteAt(s, k + 1) * 256 + ByteAt(s, k);
    var nlen: nat := ByteAt(s, k + 3) * 256 + ByteAt(s, k + 2);
    if len + nlen != 0xFFFF then Corrupt
    else if len > 0 && k + 4 + len > |s| then Corrupt
    else if |at.out| + len > room then NoSpace
    else Ok(At(8 * (k + 4 + len), at.out + if len > 0 then s[k + 4..k + 4 + len] else []))
  }

  /** The fixed code lengths (section 3.2.6). */
  function FixedLit(): seq<nat> {
    Run(144, 8) + Run(112, 9) + Run(24, 7) + Run(8, 8)
  }

  function FixedDist(): seq<nat> {
    Run(32, 5)
  }

  function Run(n: nat, t: nat): (r: seq<nat>)
    ensures |r| == n && forall i :: 0 <= i < n ==> r[i] == t
  {
    seq(n, _ => t)
  }

  lemma FixedSizes()
    ensures |FixedLit()| == 288 && |FixedDist()| == 32
  {
  }

  lemma {:induction false} KraftRun(lens: seq<nat>, n: nat, t: nat)
    requires 1 <= t <= MAX_LENGTH && forall v :: 0 <= v < |lens| ==> lens[v] <= MAX_LENGTH
    ensures KraftSum(lens + Run(n, t)) == KraftSum(lens) + n * Pow2(MAX_LENGTH - t)
  {
    if n == 0 {
      assert lens + Run(0, t) == lens;
    } else {
      KraftRun(lens, n - 1, t);
      var l := lens + Run(n, t);
      assert l[..|l| - 1] == lens + Run(n - 1, t);
      MulAdd(n - 1, 1, Pow2(MAX_LENGTH - t));
    }
  }

  lemma NoSum()
    ensures KraftSum([]) == 0
  {
  }

  /** The fixed codes use up the code space exactly. */
  lemma FixedCodesFit()
    ensures ValidLengths(FixedLit()) && KraftSum(FixedLit()) == Pow2(MAX_LENGTH)
    ensures ValidLengths(FixedDist()) && KraftSum(FixedDist()) == Pow2(MAX_LENGTH)
  {
    hide KraftSum, Run;
    Pow2Values();
    assert Pow2(10) == 1024;
    NoSum();
    assert [] + Run(144, 8) == Run(144, 8) && [] + Run(32, 5) == Run(32, 5);
    KraftRun([], 144, 8);
    KraftRun(Run(144, 8), 112, 9);
    KraftRun(Run(144, 8) + Run(112, 9), 24, 7);
    KraftRun(Run(144, 8) + Run(112, 9) + Run(24, 7), 8, 8);
    KraftRun([], 32, 5);
  }

  /** The order in which code length code lengths are sent (section 3.2.7). */
  function Order(i: nat): (r: nat)
    requires i < 19
    ensures r < 19
  {
    [16, 17, 18, 0, 8, 7, 9, 6, 10, 5, 11, 4, 12, 3, 13, 2, 14, 1, 15][i]
  }

  /** The code length code after reading n of its lengths, three bits each. */
  ghost function CodeLengthCode(s: seq<byte>, p: nat, n: nat): (r: seq<nat>)
    requires n <= 19
    ensures |r| == 19
  {
    if n == 0 then seq(19, _ => 0)
    else CodeLengthCode(s, p, n - 1)[Order(n - 1) := Lsb(s, p + 3 * (n - 1), 3)]
  }

  /** The run of lengths that symbol c stands for, and its extra bits. */
  ghost function RunOf(s: seq<byte>, p: nat, c: nat, lens: seq<nat>): (r: (nat, nat, nat))
    requires c < 19 && (c == 16 ==> lens != [])
  {
    if c < 16 then (1, c, 0)
    else if c == 16 then (Lsb(s, p, 2) + 3, lens[|lens| - 1], 2)
    else if c == 17 then (Lsb(s, p, 3) + 3, 0, 3)
    else (Lsb(s, p, 7) + 11, 0, 7)
  }

  /** Run-length decoding of the code lengths, up to total of them. */
  ghost function Lengths(s: seq<byte>, code: seq<nat>, p: nat, lens: seq<nat>, total: nat): Outcome<(nat, seq<nat>)>
    requires |code| == 19 && |lens| <= total
    decreases total - |lens|
  {
    var c := NextSymbol(code, s, p);
    if |lens| == total then Ok((p, lens))
    else if c < 0 || (c == 16 && lens == []) then Corrupt
    else
      var (count, fill, bits) := RunOf(s, p + code[c], c, lens);
      if total - |lens| < count then Corrupt
      else Lengths(s, code, p + code[c] + bits, lens + Run(count, fill), total)
  }

  lemma {:induction false} LengthsTotal(s: seq<byte>, code: seq<nat>, p: nat, lens: seq<nat>, total: nat)
    requires |code| == 19 && |lens| <= total
    ensures var r := Lengths(s, code, p, lens, total); r.Ok? ==> |r.value.1| == total
    decreases total - |lens|
  {
    hide Lsb, NextSymbol;
    var c := NextSymbol(code, s, p);
    if |lens| < total && c >= 0 && !(c == 16 && lens == []) {
      var (count, fill, bits) := RunOf(s, p + code[c], c, lens);
      if count <= total - |lens| {
        LengthsTotal(s, code, p + code[c] + bits, lens + Run(count, fill), total);
      }
    }
  }

  /** The two codes of a dynamic block and the position after their description. */
  datatype Codes = Codes(pos: nat, lit: seq<nat>, dist: seq<nat>)

  ghost predicate Accepted(lens: seq<nat>) {
    && (forall v :: 0 <= v < |lens| ==> lens[v] <= MAX_LENGTH)
    && KraftSum(lens) <= Pow2(MAX_LENGTH)
  }

  /** The code lengths of a dynamic block, given how many there are of each kind. */
  ghost function DescribedBy(s: seq<byte>, p: nat, hlit: nat, hdist: nat, hclen: nat): (r: Outcome<Codes>)
    requires hclen <= 19
    ensures r.Ok? ==> |r.value.lit| == hlit && |r.value.dist| == hdist
    ensures r.Ok? || r == Corrupt
  {
    var code := CodeLengthCode(s, p, hclen);
    if !Accepted(code) then Corrupt
    else
      LengthsTotal(s, code, p + 3 * hclen, [], hlit + hdist);
      var lengths := Lengths(s, code, p + 3 * hclen, [], hlit + hdist);
      if lengths.Ok? then Ok(Codes(lengths.value.0, lengths.value.1[..hlit], lengths.value.1[hlit..]))
      else Corrupt
  }

  lemma HeaderBounds(s: seq<byte>, p: nat)
    ensures Lsb(s, p, 5) < 32 && Lsb(s, p + 5, 5) < 32 && Lsb(s, p + 10, 4) < 16
  {
    LsbBound(s, p, 5);
    LsbBound(s, p + 5, 5);
    LsbBound(s, p + 10, 4);
    Pow2Values();
  }

  /** The code lengths a dynamic block describes (section 3.2.7). */
  ghost function Described(s: seq<byte>, p: nat): (r: Outcome<Codes>)
    ensures r.Ok? ==> |r.value.lit| <= 288 && |r.value.dist| <= 32
    ensures r.Ok? || r == Corrupt
  {
    HeaderBounds(s, p);
    DescribedBy(s, p + 14, Lsb(s, p, 5) + 257, Lsb(s, p + 5, 5) + 1, Lsb(s, p + 10, 4) + 4)
  }

  /** The codes of a dynamic block, if neither is over-subscribed. */
  ghost function Dynamic(s: seq<byte>, p: nat): (r: Outcome<Codes>)
    ensures r.Ok? ==> |r.value.lit| <= 288 && |r.value.dist| <= 32
    ensures r.Ok? || r == Corrupt
  {
    var r := Described(s, p);
    if r.Ok? && Accepted(r.value.lit) && Accepted(r.value.dist) then r else Corrupt
  }

  /** One block, from the first bit after its header. */
  ghost function Block(s: seq<byte>, kind: nat, at: Progress, room: nat, fuel: nat): Outcome<Progress> {
    FixedSizes();
    if kind == 0 then Stored(s, at, room)
    else if kind == 1 then Symbols(s, FixedLit(), FixedDist(), at, room, fuel)
    else if kind == 2 then
      match Dynamic(s, at.pos)
      case Ok(codes) => Symbols(s, codes.lit, codes.dist, At(codes.pos, at.out), room, fuel)
      case _ => Corrupt
    else Corrupt
  }

  /** Blocks up to the one marked final; each may use the fuel that is left. */
  ghost function Blocks(s: seq<byte>, at: Progress, room: nat, fuel: nat): Outcome<Progress>
    decreases fuel
  {
    if fuel == 0 then OutOfFuel
    else
      match Block(s, Lsb(s, at.pos + 1, 2), At(at.pos + 3, at.out), room, fuel)
      case Ok(next) => if Lsb(s, at.pos, 1) == 1 then Ok(next) else Blocks(s, next, room, fuel - 1)
      case other => other
  }

  /** Deflate as method, no preset dictionary, and a correct check value (section 2.2 of RFC 1950). */
  ghost predicate HeaderAccepted(s: seq<byte>) {
    var cmf: nat, flg: nat := ByteAt(s, 0), ByteAt(s, 1);
    (cmf * 256 + flg) % 31 == 0 && flg / 32 % 2 == 0 && cmf % 16 == 8
  }

  /** A zlib stream or, without header, a bare DEFLATE stream. */
  ghost function Zlib(s: seq<byte>, header: bool, room: nat, fuel: nat): Outcome<Progress> {
    if !header then Blocks(s, At(0, []), room, fuel)
    else if !HeaderAccepted(s) then Corrupt
    else Blocks(s, At(16, []), room, fuel)
  }
}
