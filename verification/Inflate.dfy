/** stb_image's inflate, proved against the DEFLATE decoder of module Deflate. */
module Inflate {
  import opened Bytes
  import opened Bits
  import opened Canonical
  import opened HuffmanTable
  import opened BitReader
  import D = Deflate

  /** How a call of the decoder ends. Unfinished: the step budget ran out first. */
  datatype Status = Done | Bad | Full | Unfinished

  /** The largest buffer that doubling len can reach within max bytes. */
  function Room(len: nat, max: nat): (r: nat)
    ensures len <= r
    decreases max - len
  {
    if len == 0 || 2 * len > max then len else Room(2 * len, max)
  }

  /** Doubles a buffer size until need bytes fit. */
  method Doubled(len: nat, need: nat, max: nat) returns (limit: nat)
    requires 0 < len < need
    ensures limit >= need
    ensures limit <= max <==> need <= Room(len, max)
    ensures limit <= max ==> Room(limit, max) == Room(len, max)
  {
    limit := len;
    while need > limit
      invariant limit >= len
      invariant limit <= max || limit == len ==> Room(limit, max) == Room(len, max)
      invariant limit > max && limit != len ==> need > Room(len, max)
      decreases need - limit
    {
      limit := limit * 2;
    }
  }

  /** A copy of a buffer in a larger one. */
  method Resized(buf: array<byte>, limit: nat) returns (q: array<byte>)
    requires buf.Length <= limit
    ensures fresh(q) && q.Length == limit && q[..buf.Length] == buf[..]
  {
    q := new byte[limit];
    var i := 0;
    while i < buf.Length
      invariant 0 <= i <= buf.Length
      invariant forall j :: 0 <= j < i ==> q[j] == buf[j]
    {
      q[i] := buf[i];
      i := i + 1;
    }
  }

  /** Writes len copies of the byte before position at. */
  method RepeatByte(a: array<byte>, at: nat, len: nat)
    requires 1 <= at && at + len <= a.Length
    modifies a
    ensures a[..at + len] == D.Copy(old(a[..at]), 1, len)
  {
    var v := a[at - 1];
    var left, z := len, at;
    while left > 0
      invariant 0 <= left <= len && z == at + (len - left) && a[z - 1] == v
      invariant D.Copy(a[..z], 1, left) == D.Copy(old(a[..at]), 1, len)
    {
      ghost var before := a[..z];
      a[z] := v;
      assert a[..z + 1] == before + [before[z - 1]];
      z, left := z + 1, left - 1;
    }
  }

  /** Copies byte by byte from dist back, so that the two areas may overlap. */
  method CopyForward(a: array<byte>, at: nat, dist: nat, len: nat)
    requires dist <= at && at + len <= a.Length
    modifies a
    ensures dist > 0 ==> a[..at + len] == D.Copy(old(a[..at]), dist, len)
  {
    var p, left, z := at - dist, len, at;
    while left > 0
      invariant 0 <= left <= len && z == at + (len - left) && p == z - dist
      invariant dist > 0 ==> D.Copy(a[..z], dist, left) == D.Copy(old(a[..at]), dist, len)
    {
      ghost var before := a[..z];
      a[z] := a[p];
      assert dist > 0 ==> a[..z + 1] == before + [before[z - dist]];
      z, p, left := z + 1, p + 1, left - 1;
    }
  }

  /** Copies len bytes of s, from position at, to position z of a. */
  method CopySlice(s: seq<byte>, at: nat, a: array<byte>, z: nat, len: nat)
    requires at + len <= |s| && z + len <= a.Length
    modifies a
    ensures a[..z + len] == old(a[..z]) + s[at..at + len]
  {
    var i := 0;
    while i < len
      invariant 0 <= i <= len
      invariant a[..z + i] == old(a[..z]) + s[at..at + i]
    {
      a[z + i] := s[at + i];
      assert a[..z + (i + 1)] == a[..z + i] + [s[at + i]];
      i := i + 1;
    }
  }

  /** The lengths of the code length code, sent in a fixed order, three bits each. */
  method ReadCodeLengthCode(bits: Reader, hclen: nat) returns (sizes: seq<nat>)
    requires bits.Valid() && hclen <= 19
    modifies bits
    ensures bits.Valid() && bits.Pos() == old(bits.Pos()) + 3 * hclen
    ensures sizes == D.CodeLengthCode(bits.input, old(bits.Pos()), hclen)
    ensures ValidLengths(sizes)
  {
    hide D.Order;
    sizes := seq(19, _ => 0);
    var i := 0;
    while i < hclen
      invariant 0 <= i <= hclen && bits.Valid() && bits.Pos() == old(bits.Pos()) + 3 * i
      invariant sizes == D.CodeLengthCode(bits.input, old(bits.Pos()), i)
      invariant forall v :: 0 <= v < 19 ==> sizes[v] < 8
    {
      LsbBound(bits.input, bits.Pos(), 3);
      Pow2Values();
      var s := bits.Receive(3);
      sizes := sizes[D.Order(i) := s];
      i := i + 1;
    }
  }

  predicate Short(lens: seq<nat>) {
    forall v :: 0 <= v < |lens| ==> lens[v] <= MAX_LENGTH
  }

  lemma ShortRun(lens: seq<nat>, count: nat, fill: nat)
    requires Short(lens) && fill <= MAX_LENGTH
    ensures Short(lens + D.Run(count, fill))
  {
  }

  /** The run of code lengths that symbol c stands for. */
  method ReadRun(bits: Reader, c: nat, lens: seq<nat>) returns (count: nat, fill: nat)
    requires bits.Valid() && c < 19 && (c == 16 ==> lens != []) && Short(lens)
    modifies bits
    ensures bits.Valid() && count > 0 && fill <= MAX_LENGTH
    ensures (count, fill, bits.Pos() - old(bits.Pos())) == D.RunOf(bits.input, old(bits.Pos()), c, lens)
  {
    if c < 16 { return 1, c; }
    var k;
    if c == 16 {
      k := bits.Receive(2);
      return k + 3, lens[|lens| - 1];
    }
    if c == 17 {
      k := bits.Receive(3);
      return k + 3, 0;
    }
    k := bits.Receive(7);
    return k + 11, 0;
  }

  lemma LengthsStep(s: seq<byte>, code: seq<nat>, p: nat, lens: seq<nat>, total: nat)
    requires |code| == 19 && |lens| < total
    ensures var c := NextSymbol(code, s, p);
            if c < 0 || (c == 16 && lens == []) then D.Lengths(s, code, p, lens, total) == D.Corrupt
            else
              var (count, fill, bits) := D.RunOf(s, p + code[c], c, lens);
              D.Lengths(s, code, p, lens, total) ==
              if total - |lens| < count then D.Corrupt
              else D.Lengths(s, code, p + code[c] + bits, lens + D.Run(count, fill), total)
  {
    hide D.RunOf;
  }

  lemma LengthsDone(s: seq<byte>, code: seq<nat>, p: nat, lens: seq<nat>, total: nat)
    requires |code| == 19 && |lens| == total
    ensures D.Lengths(s, code, p, lens, total) == D.Ok((p, lens))
  {
  }

  ghost predicate EndsLengths(ref: D.Outcome<(nat, seq<nat>)>, bits: Reader, ok: bool, lens: seq<nat>)
    reads bits
  {
    if ok then bits.Valid() && ref == D.Ok((bits.Pos(), lens)) else ref == D.Corrupt
  }

  /** The reference goes on with the run that was read, or rejects it. */
  lemma LengthsRun(s: seq<byte>, code: seq<nat>, p: nat, lens: seq<nat>, total: nat, c: nat, count: nat, fill: nat, q: nat)
    requires |code| == 19 && |lens| < total && c == NextSymbol(code, s, p) && !(c == 16 && lens == [])
    requires p + code[c] <= q && (count, fill, q - (p + code[c])) == D.RunOf(s, p + code[c], c, lens)
    ensures D.Lengths(s, code, p, lens, total) ==
            if total - |lens| < count then D.Corrupt else D.Lengths(s, code, q, lens + D.Run(count, fill), total)
  {
    hide D.RunOf, D.Lengths, D.Run, NextSymbol;
    LengthsStep(s, code, p, lens, total);
  }

  lemma LengthsStop(s: seq<byte>, code: seq<nat>, p: nat, lens: seq<nat>, total: nat)
    requires |code| == 19 && |lens| < total
    requires var c := NextSymbol(code, s, p); c < 0 || (c == 16 && lens == [])
    ensures D.Lengths(s, code, p, lens, total) == D.Corrupt
  {
    hide D.RunOf, D.Lengths, D.Run, NextSymbol;
    LengthsStep(s, code, p, lens, total);
  }

  /** The run-length coded code lengths of a dynamic block. */
  method ReadLengths(bits: Reader, z: ZHuffman, ghost code: seq<nat>, total: nat) returns (ok: bool, lens: seq<nat>)
    requires bits.Valid() && |code| == 19 && z.Represents(code)
    modifies bits
    ensures EndsLengths(D.Lengths(bits.input, code, old(bits.Pos()), [], total), bits, ok, lens)
    ensures ok ==> |lens| == total && forall v :: 0 <= v < total ==> lens[v] <= MAX_LENGTH
  {
    hide ZHuffman.Represents, D.Lengths, D.RunOf, D.Run, NextSymbol, Short;
    lens := [];
    NoLengths();
    ghost var s, ref := bits.input, D.Lengths(bits.input, code, bits.Pos(), [], total);
    while |lens| < total
      invariant bits.Valid() && |lens| <= total && Short(lens)
      invariant ref == D.Lengths(s, code, bits.Pos(), lens, total)
      decreases total - |lens|
    {
      ghost var p := bits.Pos();
      var c := bits.Decode(z, code);
      if c < 0 || c >= 19 || (c == 16 && lens == []) {
        LengthsStop(s, code, p, lens, total);
        return false, [];
      }
      var count, fill := ReadRun(bits, c, lens);
      LengthsRun(s, code, p, lens, total, c, count, fill, bits.Pos());
      if total - |lens| < count { return false, []; }
      ShortRun(lens, count, fill);
      lens := lens + D.Run(count, fill);
    }
    LengthsDone(s, code, bits.Pos(), lens, total);
    ShortIs(lens);
    ok := true;
  }

  lemma NoLengths()
    ensures Short([])
  {
  }

  lemma ShortIs(lens: seq<nat>)
    requires Short(lens)
    ensures forall v :: 0 <= v < |lens| ==> lens[v] <= MAX_LENGTH
  {
  }

  /** Reads the code length code and, with it, the two code length lists of a dynamic block. */
  method ReadDescription(bits: Reader, hlit: nat, hdist: nat, hclen: nat) returns (ok: bool, lit: seq<nat>, dist: seq<nat>)
    requires bits.Valid() && hlit <= 288 && hdist <= 32 && hclen <= 19
    modifies bits
    ensures ok ==> bits.Valid() && ValidLengths(lit) && ValidLengths(dist) && |dist| <= 32
    ensures D.DescribedBy(bits.input, old(bits.Pos()), hlit, hdist, hclen) ==
            if ok then D.Ok(D.Codes(bits.Pos(), lit, dist)) else D.Corrupt
  {
    hide ZHuffman.Represents, D.Lengths, D.CodeLengthCode, KraftSum, Pow2;
    var sizes := ReadCodeLengthCode(bits, hclen);
    var z := new ZHuffman();
    ok := Build(z, sizes);
    if !ok { return false, [], []; }
    var lens;
    ok, lens := ReadLengths(bits, z, sizes, hlit + hdist);
    if !ok { return false, [], []; }
    lit, dist := lens[..hlit], lens[hlit..];
  }

  /** Reads the two code length lists of a dynamic block. */
  method ReadCodeLengths(bits: Reader) returns (ok: bool, lit: seq<nat>, dist: seq<nat>)
    requires bits.Valid()
    modifies bits
    ensures ok ==> bits.Valid() && ValidLengths(lit) && ValidLengths(dist) && |dist| <= 32
    ensures D.Described(bits.input, old(bits.Pos())) ==
            if ok then D.Ok(D.Codes(bits.Pos(), lit, dist)) else D.Corrupt
  {
    hide D.DescribedBy, Lsb;
    ghost var p := bits.Pos();
    var hlit := bits.Receive(5);
    var hdist := bits.Receive(5);
    var hclen := bits.Receive(4);
    D.HeaderBounds(bits.input, p);
    ok, lit, dist := ReadDescription(bits, hlit + 257, hdist + 1, hclen + 4);
  }

  class ZBuf {
    const bits: Reader
    const expandable: bool
    const maxAlloc: nat
    const zLength: ZHuffman
    const zDistance: ZHuffman
    /** The output buffer and how much of it is written. */
    var buf: array<byte>
    var zout: nat

    ghost predicate Valid()
      reads this, bits
    {
      && bits.Valid() && zout <= buf.Length && (expandable ==> buf.Length > 0)
      && zLength.Shape() && zDistance.Shape()
      && Tables(zLength) !! Tables(zDistance)
    }

    static ghost function Tables(z: ZHuffman): set<array<nat>> {
      {z.fast, z.firstcode, z.maxcode, z.firstsymbol, z.size, z.value}
    }

    /** How much output there can ever be. */
    ghost function Capacity(): nat
      reads this
    {
      if expandable then Room(buf.Length, maxAlloc) else buf.Length
    }

    ghost function Out(): seq<byte>
      requires zout <= buf.Length
      reads this, buf
    {
      buf[..zout]
    }

    ghost function Now(): D.Progress
      requires Valid()
      reads this, bits, buf
    {
      D.At(bits.Pos(), Out())
    }

    constructor (input: seq<byte>, buf: array<byte>, expandable: bool, maxAlloc: nat)
      requires expandable ==> buf.Length > 0
      ensures Valid() && fresh(bits) && bits.input == input && this.buf == buf && zout == 0
      ensures this.expandable == expandable && this.maxAlloc == maxAlloc
      ensures Now() == D.At(0, []) && bits.numBits == 0
      ensures fresh(Tables(zLength)) && fresh(Tables(zDistance))
    {
      bits := new Reader(input);
      zLength := new ZHuffman();
      zDistance := new ZHuffman();
      this.buf := buf;
      this.expandable := expandable;
      this.maxAlloc := maxAlloc;
      zout := 0;
    }

    /** Makes room for n more bytes by doubling; fails exactly when they can never fit. */
    method Expand(n: nat) returns (ok: bool)
      requires Valid() && zout + n > buf.Length
      modifies this`buf
      ensures Valid() && Capacity() == old(Capacity()) && Out() == old(Out())
      ensures ok <==> zout + n <= Capacity()
      ensures ok ==> zout + n <= buf.Length && fresh(buf)
      ensures !ok ==> buf == old(buf)
    {
      if !expandable { return false; }
      var limit := Doubled(buf.Length, zout + n, maxAlloc);
      if limit > maxAlloc { return false; }
      var q := Resized(buf, limit);
      assert q[..zout] == q[..buf.Length][..zout] && buf[..zout] == buf[..][..zout];
      buf := q;
      ok := true;
    }

    /** Appends one byte, growing the buffer if it is full. */
    method Put(b: byte) returns (ok: bool)
      requires Valid()
      modifies this, buf
      ensures Valid() && Capacity() == old(Capacity()) && (buf == old(buf) || fresh(buf))
      ensures ok <==> |old(Out())| + 1 <= Capacity()
      ensures ok ==> Out() == old(Out()) + [b]
    {
      if zout >= buf.Length {
        ok := Expand(1);
        if !ok { return false; }
      }
      buf[zout] := b;
      zout := zout + 1;
      ok := true;
    }

    /** Copies len bytes from dist back. */
    method CopyBytes(dist: nat, len: nat)
      requires Valid() && dist <= zout && zout + len <= buf.Length
      modifies this`zout, buf
      ensures Valid() && zout == old(zout) + len
      ensures dist > 0 ==> Out() == D.Copy(old(Out()), dist, len)
    {
      if dist == 1 {
        RepeatByte(buf, zout, len);
      } else {
        CopyForward(buf, zout, dist, len);
      }
      zout := zout + len;
    }

    /** A call ends as the reference says; nothing is claimed once a reserved symbol is used. */
    ghost predicate Ends(ref: D.Outcome<D.Progress>, st: Status)
      reads this, bits, buf
    {
      match ref
      case Ok(at) => st == Done && Valid() && Now() == at
      case Corrupt => st == Bad
      case NoSpace => st == Full
      case OutOfFuel => st == Unfinished
      case Reserved => true
    }

    /** The length a length symbol and its extra bits stand for. */
    method ReadLength(v: nat) returns (len: nat)
      requires bits.Valid() && 257 <= v < 288
      modifies bits
      ensures bits.Valid() && bits.Pos() == old(bits.Pos()) + D.LengthExtra(v - 257)
      ensures len == D.LengthBase(v - 257) + Lsb(bits.input, old(bits.Pos()), D.LengthExtra(v - 257))
    {
      len := D.LengthBase(v - 257);
      if D.LengthExtra(v - 257) != 0 {
        var k := bits.Receive(D.LengthExtra(v - 257));
        len := len + k;
      }
    }

    method ReadDistance(d: nat) returns (back: nat)
      requires bits.Valid() && d < 32
      modifies bits
      ensures bits.Valid() && bits.Pos() == old(bits.Pos()) + D.DistExtra(d)
      ensures back == D.DistBase(d) + Lsb(bits.input, old(bits.Pos()), D.DistExtra(d))
    {
      back := D.DistBase(d);
      if D.DistExtra(d) != 0 {
        var k := bits.Receive(D.DistExtra(d));
        back := back + k;
      }
    }

    /** Performs the copy of a match whose length and distance are known. */
    method CopyMatch(len: nat, back: nat) returns (st: Status)
      requires Valid()
      modifies this, buf
      ensures Valid() && Capacity() == old(Capacity()) && (buf == old(buf) || fresh(buf))
      ensures st == if back > |old(Out())| then Bad else if |old(Out())| + len > Capacity() then Full else Done
      ensures st == Done && back > 0 ==> Out() == D.Copy(old(Out()), back, len)
    {
      if zout < back { return Bad; }
      if zout + len > buf.Length {
        var ok := Expand(len);
        if !ok { return Full; }
      }
      CopyBytes(back, len);
      st := Done;
    }

    /** The distance symbol that follows a length, and the distance it stands for. */
    method DecodeDistance(ghost dist: seq<nat>) returns (d: int, back: nat)
      requires bits.Valid() && zDistance.Represents(dist) && |dist| <= 32
      modifies bits
      ensures d == NextSymbol(dist, bits.input, old(bits.Pos()))
      ensures d >= 0 ==> bits.Valid() && bits.Pos() == old(bits.Pos()) + dist[d] + D.DistExtra(d)
      ensures d >= 0 ==> back == D.DistBase(d) + Lsb(bits.input, old(bits.Pos()) + dist[d], D.DistExtra(d))
    {
      hide ZHuffman.Represents, D.DistBase, D.DistExtra;
      back := 0;
      d := bits.Decode(zDistance, dist);
      if d >= 0 { back := ReadDistance(d); }
    }

    /** A match symbol: the whole of section 3.2.5 of RFC 1951. */
    method Match(v: nat, ghost dist: seq<nat>) returns (st: Status)
      requires Valid() && 257 <= v < 288 && zDistance.Represents(dist) && |dist| <= 32
      modifies this, bits, buf
      ensures Capacity() == old(Capacity()) && (buf == old(buf) || fresh(buf))
      ensures st == Done ==> Valid()
      ensures Ends(D.Match(bits.input, dist, old(bits.Pos()), old(Out()), Capacity(), v), st)
    {
      hide ZHuffman.Represents, D.Match, D.LengthBase, D.LengthExtra, D.DistBase, D.DistExtra;
      ghost var p, out := bits.Pos(), Out();
      var len := ReadLength(v);
      var d, back := DecodeDistance(dist);
      MatchCases(bits.input, dist, p, out, Capacity(), v, d, len, back);
      if d < 0 { return Bad; }
      st := CopyMatch(len, back);
    }

    /** One symbol of a block: a literal, a match or the end. */
    method Symbol(ghost lit: seq<nat>, ghost dist: seq<nat>) returns (more: bool, st: Status)
      requires Valid() && zLength.Represents(lit) && zDistance.Represents(dist) && |lit| <= 288 && |dist| <= 32
      modifies this, bits, buf
      ensures Capacity() == old(Capacity()) && (buf == old(buf) || fresh(buf))
      ensures st == Done ==> Valid()
      ensures EndsStep(D.Symbol(bits.input, lit, dist, old(Now()), Capacity()), more, st)
    {
      hide ZHuffman.Represents, D.Match;
      var v := bits.Decode(zLength, lit);
      if v < 0 { return false, Bad; }
      if v == 256 { return false, Done; }
      more := true;
      if v < 256 {
        var ok := Put(v);
        st := if ok then Done else Full;
      } else {
        st := Match(v, dist);
      }
    }

    ghost predicate EndsStep(ref: D.Outcome<D.Step>, more: bool, st: Status)
      reads this, bits, buf
    {
      match ref
      case Ok(More(at)) => more && st == Done && Valid() && Now() == at
      case Ok(End(at)) => !more && st == Done && Valid() && Now() == at
      case Corrupt => st == Bad
      case NoSpace => st == Full
      case OutOfFuel => false
      case Reserved => true
    }

    /** A block of symbols, up to the end-of-block symbol. */
    method HuffmanBlock(ghost lit: seq<nat>, ghost dist: seq<nat>, fuel: nat) returns (st: Status)
      requires Valid() && zLength.Represents(lit) && zDistance.Represents(dist) && |lit| <= 288 && |dist| <= 32
      modifies this, bits, buf
      ensures Capacity() == old(Capacity()) && (buf == old(buf) || fresh(buf))
      ensures st == Done ==> Valid()
      ensures Ends(D.Symbols(bits.input, lit, dist, old(Now()), Capacity(), fuel), st)
    {
      hide ZHuffman.Represents, D.Symbol;
      ghost var ref := D.Symbols(bits.input, lit, dist, Now(), Capacity(), fuel);
      var left := fuel;
      while left > 0
        invariant Valid() && Capacity() == old(Capacity()) && (buf == old(buf) || fresh(buf))
        invariant left >= 0
        invariant ref == D.Reserved || ref == D.Symbols(bits.input, lit, dist, Now(), Capacity(), left)
      {
        var more;
        more, st := Symbol(lit, dist);
        if st != Done || !more { return; }
        left := left - 1;
      }
      st := Unfinished;
    }

    /** Appends the next len bytes of the input. */
    method CopyInput(len: nat)
      requires Valid() && bits.numBits == 0 && bits.zpos + len <= |bits.input|
      requires len > 0 ==> bits.fetched <= |bits.input|
      requires zout + len <= buf.Length
      modifies this`zout, bits, buf
      ensures Valid() && bits.numBits == 0 && bits.fetched == old(bits.fetched) + len
      ensures var k := old(bits.fetched);
              Out() == old(Out()) + if len > 0 then bits.input[k..k + len] else []
    {
      ghost var k := bits.fetched;
      assert len > 0 ==> bits.zpos == k;
      CopySlice(bits.input, bits.zpos, buf, zout, len);
      bits.Skip(len);
      zout := zout + len;
    }

    /** The bytes of a stored block, for which room is made if there can be any. */
    method CopyStored(len: nat) returns (ok: bool)
      requires Valid() && bits.numBits == 0 && bits.zpos + len <= |bits.input| && (len > 0 ==> bits.fetched <= |bits.input|)
      modifies this, bits, buf
      ensures Valid() && Capacity() == old(Capacity()) && (buf == old(buf) || fresh(buf))
      ensures ok <==> old(zout) + len <= Capacity()
      ensures ok ==> Now() == D.At(8 * (old(bits.fetched) + len),
                                   old(Out()) + if len > 0 then old(bits.input[bits.fetched..bits.fetched + len]) else [])
    {
      hide Room;
      if zout + len > buf.Length {
        ok := Expand(len);
        if !ok { return; }
      }
      CopyInput(len);
      ok := true;
    }

    /** A stored block: checked length, then bytes copied as they are. */
    method StoredBlock() returns (st: Status)
      requires Valid() && bits.numBits <= 30
      modifies this, bits, buf
      ensures Capacity() == old(Capacity()) && (buf == old(buf) || fresh(buf))
      ensures st == Done ==> Valid()
      ensures Ends(D.Stored(bits.input, old(Now()), Capacity()), st)
    {
      hide NextByte, D.Stored, ByteAt, Room;
      ghost var at := Now();
      var header := bits.AlignedHeader();
      var len: nat := header[1] as int * 256 + header[0];
      var nlen: nat := header[3] as int * 256 + header[2];
      StoredCases(bits.input, at, Capacity(), len, nlen);
      if nlen != 0xFFFF - len { return Bad; }
      if bits.zpos + len > |bits.input| { return Bad; }
      var ok := CopyStored(len);
      if !ok { return Full; }
      st := Done;
    }

    /** The reference accepted a code description exactly when the tables were built for it. */
    ghost predicate EndsCodes(ref: D.Outcome<D.Codes>, ok: bool)
      reads this, bits, Tables(zLength), Tables(zDistance)
    {
      if ok then Valid() && ref.Ok? && ref.value.pos == bits.Pos()
                 && zLength.Represents(ref.value.lit) && zDistance.Represents(ref.value.dist)
      else ref == D.Corrupt
    }

    /** Reads and builds the two codes of a dynamic block. */
    method DynamicCodes() returns (ok: bool)
      requires Valid()
      modifies bits, Tables(zLength), Tables(zDistance)
      ensures EndsCodes(D.Dynamic(bits.input, old(bits.Pos())), ok)
    {
      hide ZHuffman.Represents, D.Described, KraftSum;
      var lit, dist;
      ok, lit, dist := ReadCodeLengths(bits);
      if ok { ok := BuildBoth(lit, dist); }
    }

    method BuildBoth(lit: seq<nat>, dist: seq<nat>) returns (ok: bool)
      requires Valid() && ValidLengths(lit) && ValidLengths(dist)
      modifies Tables(zLength), Tables(zDistance)
      ensures ok <==> D.Accepted(lit) && D.Accepted(dist)
      ensures ok ==> zLength.Represents(lit) && zDistance.Represents(dist)
    {
      hide ZHuffman.Represents, KraftSum, Pow2;
      ok := Build(zLength, lit);
      if ok { ok := Build(zDistance, dist); }
    }

    /** The codes of a fixed block. */
    method FixedCodes()
      requires Valid()
      modifies Tables(zLength), Tables(zDistance)
      ensures zLength.Represents(D.FixedLit()) && zDistance.Represents(D.FixedDist())
    {
      hide ZHuffman.Represents, KraftSum, Pow2;
      D.FixedCodesFit();
      var _ := BuildBoth(D.FixedLit(), D.FixedDist());
    }

    /** The body of a block of kind 1 or 2. */
    method CompressedBlock(kind: nat, fuel: nat) returns (st: Status)
      requires Valid() && (kind == 1 || kind == 2)
      modifies this, bits, buf, Tables(zLength), Tables(zDistance)
      ensures Capacity() == old(Capacity()) && (buf == old(buf) || fresh(buf))
      ensures st == Done ==> Valid()
      ensures Ends(D.Block(bits.input, kind, old(Now()), Capacity(), fuel), st)
    {
      hide ZHuffman.Represents, D.Symbols, D.FixedLit, D.FixedDist, D.Dynamic;
      ghost var at := Now();
      if kind == 1 {
        FixedCodes();
        D.FixedSizes();
        st := HuffmanBlock(D.FixedLit(), D.FixedDist(), fuel);
      } else {
        var ok := DynamicCodes();
        if !ok { return Bad; }
        ghost var codes := D.Dynamic(bits.input, at.pos).value;
        st := HuffmanBlock(codes.lit, codes.dist, fuel);
      }
    }

    /** One block with its header; last tells whether it is marked final. */
    method Block(fuel: nat) returns (last: bool, st: Status)
      requires Valid()
      modifies this, bits, buf, Tables(zLength), Tables(zDistance)
      ensures Capacity() == old(Capacity()) && (buf == old(buf) || fresh(buf))
      ensures st == Done ==> Valid()
      ensures last == (Lsb(bits.input, old(bits.Pos()), 1) == 1)
      ensures var p := old(bits.Pos());
              Ends(D.Block(bits.input, Lsb(bits.input, p + 1, 2), D.At(p + 3, old(Out())), Capacity(), fuel), st)
    {
      hide D.Symbols, D.FixedLit, D.FixedDist, D.Dynamic, D.Stored, Lsb;
      var final := bits.Receive(1);
      var kind := bits.Receive(2);
      last := final == 1;
      if kind == 0 {
        st := StoredBlock();
      } else if kind >= 3 {
        st := Bad;
      } else {
        st := CompressedBlock(kind, fuel);
      }
    }

    /** Blocks up to the final one. */
    method Blocks(fuel: nat) returns (st: Status)
      requires Valid()
      modifies this, bits, buf, Tables(zLength), Tables(zDistance)
      ensures st == Done ==> Valid()
      ensures Capacity() == old(Capacity())
      ensures Ends(D.Blocks(bits.input, old(Now()), Capacity(), fuel), st)
    {
      hide D.Block, Lsb;
      ghost var ref := D.Blocks(bits.input, Now(), Capacity(), fuel);
      var left := fuel;
      while left > 0
        invariant Valid() && left >= 0 && Capacity() == old(Capacity()) && (buf == old(buf) || fresh(buf))
        invariant ref == D.Reserved || ref == D.Blocks(bits.input, Now(), Capacity(), left)
      {
        var last;
        last, st := Block(left);
        if st != Done || last { return; }
        left := left - 1;
      }
      st := Unfinished;
    }

    /** The two header bytes of a zlib stream. */
    method Header() returns (ok: bool)
      requires Valid() && bits.numBits == 0 && bits.Pos() == 0
      modifies bits
      ensures Valid() && bits.Pos() == 16 && bits.numBits == 0
      ensures ok <==> D.HeaderAccepted(bits.input)
    {
      var cmf := bits.Get8();
      var flg := bits.Get8();
      var word := cmf as int * 256 + flg;
      ok := word % 31 == 0 && flg / 32 % 2 == 0 && cmf % 16 == 8;
    }

    /** Decodes a whole stream. The run, if it ends within the step budget, ends as the
        reference decoder does: same verdict, same output, same position. */
    method ParseZlib(header: bool, fuel: nat) returns (st: Status)
      requires Valid() && Now() == D.At(0, []) && bits.numBits == 0
      modifies this, bits, buf, Tables(zLength), Tables(zDistance)
      ensures st == Done ==> Valid()
      ensures Ends(D.Zlib(bits.input, header, old(Capacity()), fuel), st)
    {
      hide D.Blocks;
      if header {
        var ok := Header();
        if !ok { return Bad; }
      }
      st := Blocks(fuel);
    }
  }

  /** The reference's stored block, once its length field and the complement are known. */
  lemma StoredCases(s: seq<byte>, at: D.Progress, room: nat, len: nat, nlen: nat)
    requires var k := NextByte(at.pos);
             len == ByteAt(s, k + 1) as int * 256 + ByteAt(s, k) && nlen == ByteAt(s, k + 3) as int * 256 + ByteAt(s, k + 2)
    ensures var k := NextByte(at.pos) + 4;
            D.Stored(s, at, room) ==
            if nlen != 0xFFFF - len || (len > 0 && k + len > |s|) then D.Corrupt
            else if |at.out| + len > room then D.NoSpace
            else D.Ok(D.At(8 * (k + len), at.out + if len > 0 then s[k..k + len] else []))
  {
    hide NextByte;
  }

  /** The reference's match, once its length, distance symbol and distance are known. */
  lemma MatchCases(s: seq<byte>, dist: seq<nat>, p: nat, out: seq<byte>, room: nat, v: nat, d: int, len: nat, back: nat)
    requires |dist| <= 32 && 257 <= v < 288
    requires len == D.LengthBase(v - 257) + Lsb(s, p, D.LengthExtra(v - 257))
    requires d == NextSymbol(dist, s, p + D.LengthExtra(v - 257))
    requires var q := p + D.LengthExtra(v - 257);
             d >= 0 ==> back == D.DistBase(d) + Lsb(s, q + dist[d], D.DistExtra(d))
    ensures var r := D.Match(s, dist, p, out, room, v); var q := p + D.LengthExtra(v - 257);
            r == D.Reserved
            || (d < 0 && r == D.Corrupt)
            || (d >= 0 && back > 0
                && r == if back > |out| then D.Corrupt else if |out| + len > room then D.NoSpace
                        else D.Ok(D.At(q + dist[d] + D.DistExtra(d), D.Copy(out, back, len))))
  {
    hide D.LengthBase, D.LengthExtra, D.DistBase, D.DistExtra;
  }
}
