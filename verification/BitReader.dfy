/** stb_image's bit buffer: up to 32 bits of the input, least significant first. */
module BitReader {
  import opened Bytes
  import opened Bits
  import opened Canonical
  import opened HuffmanTable
  import HuffmanDecode
  import BitReverse

  class Reader {
    const input: seq<byte>
    /** Next byte of the input, bits in the buffer, and the buffer itself. */
    var zpos: nat
    var numBits: nat
    var codeBuffer: nat
    /** Bytes fetched so far, counting the zeros supplied past the end. */
    ghost var fetched: nat

    constructor (input: seq<byte>)
      ensures this.input == input && Valid() && Pos() == 0 && numBits == 0
    {
      this.input := input;
      zpos, numBits, codeBuffer, fetched := 0, 0, 0, 0;
    }

    /** The buffer holds exactly the numBits stream bits that precede byte `fetched`. */
    ghost predicate Buffered()
      reads this
    {
      && zpos == (if fetched < |input| then fetched else |input|)
      && numBits <= 32 && numBits <= 8 * fetched
      && codeBuffer == Lsb(input, 8 * fetched - numBits, numBits)
    }

    /** Between calls the buffer is never full. */
    ghost predicate Valid()
      reads this
    {
      Buffered() && numBits < 32
    }

    /** How many bits of the stream are consumed. */
    ghost function Pos(): nat
      requires Buffered()
      reads this
    {
      8 * fetched - numBits
    }

    method Get8() returns (b: byte)
      requires Buffered() && numBits == 0
      modifies this`zpos, this`fetched
      ensures Buffered() && b == ByteAt(input, old(fetched)) && fetched == old(fetched) + 1
    {
      b := FetchByte();
    }

    method FetchByte() returns (b: byte)
      requires zpos == if fetched < |input| then fetched else |input|
      modifies this`zpos, this`fetched
      ensures b == ByteAt(input, old(fetched)) && fetched == old(fetched) + 1
      ensures zpos == if fetched < |input| then fetched else |input|
    {
      fetched := fetched + 1;
      if zpos >= |input| { return 0; }
      b := input[zpos];
      zpos := zpos + 1;
    }

    /** One more byte goes above the bits already buffered. */
    method FillByte()
      requires Buffered() && numBits <= 24
      modifies this
      ensures Buffered() && Pos() == old(Pos()) && numBits == old(numBits) + 8
    {
      LsbBound(input, Pos(), numBits);
      assert codeBuffer < Pow2(numBits);
      LsbSplit(input, Pos(), numBits, 8);
      LsbByte(input, fetched);
      assert Pos() + numBits == 8 * fetched;
      var b := FetchByte();
      codeBuffer := codeBuffer + b * Pow2(numBits);
      numBits := numBits + 8;
    }

    method FillBits()
      requires Buffered() && numBits <= 24
      modifies this
      ensures Buffered() && Pos() == old(Pos()) && 24 < numBits <= 32
    {
      FillByte();
      while numBits <= 24
        invariant Buffered() && Pos() == old(Pos())
        decreases 32 - numBits
      {
        FillByte();
      }
    }

    /** Drops n buffered bits. */
    method Consume(n: nat)
      requires Buffered() && n <= numBits
      modifies this`codeBuffer, this`numBits
      ensures Buffered() && Pos() == old(Pos()) + n && numBits == old(numBits) - n
    {
      LsbTake(input, Pos(), n, numBits);
      codeBuffer := codeBuffer / Pow2(n);
      numBits := numBits - n;
    }

    /** Reads n bits, first bit least significant. */
    method Receive(n: nat) returns (k: nat)
      requires Valid() && n <= 16
      modifies this
      ensures Valid() && k == Lsb(input, old(Pos()), n) && Pos() == old(Pos()) + n
      ensures numBits <= 32 - n
    {
      if numBits < n { FillBits(); }
      LsbTake(input, Pos(), n, numBits);
      k := codeBuffer % Pow2(n);
      Consume(n);
    }

    /** Drops the bits up to the next byte boundary. */
    method Align() returns (ghost m: nat)
      requires Valid() && numBits <= 30
      modifies this
      ensures Valid() && Pos() == 8 * NextByte(old(Pos())) && m <= 3 && numBits == 8 * m
    {
      hide NextByte;
      m := numBits / 8;
      NextByteOf(fetched, numBits);
      var n := numBits % 8;
      if n != 0 { Consume(n); }
    }

    /** Moves the whole bytes that are left in the bit buffer out of it. */
    method Drain(ghost k0: nat, ghost m: nat) returns (header: seq<byte>)
      requires Valid() && Pos() == 8 * k0 && numBits == 8 * m
      modifies this
      ensures Valid() && numBits == 0 && Pos() == 8 * (k0 + m) && |header| == m
      ensures forall i :: 0 <= i < m ==> header[i] == ByteAt(input, k0 + i)
    {
      hide ByteAt;
      header := [];
      while numBits > 0
        invariant Valid() && |header| <= m && numBits == 8 * (m - |header|) && Pos() == 8 * (k0 + |header|)
        invariant forall i :: 0 <= i < |header| ==> header[i] == ByteAt(input, k0 + i)
        decreases numBits
      {
        LowByte(k0 + |header|);
        header := header + [codeBuffer % 256];
        Consume(8);
      }
    }

    /** The four bytes from the next byte boundary: those still in the bit buffer, at
        most three, and then bytes of the input. The buffer ends up empty. */
    method AlignedHeader() returns (header: seq<byte>)
      requires Valid() && numBits <= 30
      modifies this
      ensures Valid() && numBits == 0 && fetched == NextByte(old(Pos())) + 4
      ensures |header| == 4
      ensures forall i :: 0 <= i < 4 ==> header[i] == ByteAt(input, NextByte(old(Pos())) + i)
    {
      hide NextByte;
      ghost var k0 := NextByte(Pos());
      ghost var m := Align();
      header := Drain(k0, m);
      while |header| < 4
        invariant Valid() && numBits == 0 && fetched == k0 + |header| && |header| <= 4
        invariant forall i :: 0 <= i < |header| ==> header[i] == ByteAt(input, k0 + i)
      {
        var b := Get8();
        header := header + [b];
      }
    }

    lemma LowByte(k: nat)
      requires Buffered() && numBits >= 8 && Pos() == 8 * k
      ensures codeBuffer % 256 == ByteAt(input, k)
    {
      LsbTake(input, Pos(), 8, numBits);
      LsbByte(input, k);
      Pow2Values();
    }

    /** Moves past n whole bytes of the input. */
    method Skip(n: nat)
      requires Valid() && numBits == 0 && zpos + n <= |input| && (n > 0 ==> fetched <= |input|)
      modifies this`zpos, this`fetched
      ensures Valid() && fetched == old(fetched) + n
    {
      zpos, fetched := zpos + n, fetched + n;
    }

    /** The slow path: the first limit above the next 16 bits gives the code length. */
    method DecodeSlow(z: ZHuffman, ghost lens: seq<nat>) returns (v: int)
      requires Buffered() && numBits >= 16 && z.Represents(lens)
      requires FastEntry(lens, |lens|, Lsb(input, Pos(), FAST_BITS), 0)
      modifies this
      ensures v == NextSymbol(lens, input, old(Pos()))
      ensures Buffered() && Pos() == old(Pos()) + if v >= 0 then lens[v] else 0
      ensures v >= 0 ==> numBits < old(numBits)
    {
      hide NextSymbol, Slot, Lsb, Msb, FirstSymbol;
      var k := BitReverse.Reverse(codeBuffer, 16);
      NextSixteen(k);
      HuffmanDecode.SlowStart(lens, input, Pos());
      var s := CodeLength(z, lens, k);
      if s == 16 {
        HuffmanDecode.NoCode(lens, input, Pos());
        return -1;
      }
      ghost var w := HuffmanDecode.SlowHit(lens, input, Pos(), s);
      v := SymbolAt(z, lens, k, s, w);
      Consume(s);
    }

    /** The first length whose limit is above k, found by trying one after the other. */
    method CodeLength(z: ZHuffman, ghost lens: seq<nat>, k: nat) returns (s: nat)
      requires z.Represents(lens) && MaxCode(lens, FAST_BITS) <= k < 0x10000
      ensures FAST_BITS < s <= 16 && k >= MaxCode(lens, s - 1)
      ensures s < 16 ==> k < MaxCode(lens, s)
    {
      s := FAST_BITS + 1;
      while k >= z.maxcode[s]
        invariant FAST_BITS < s <= 16 && k >= MaxCode(lens, s - 1)
        decreases 16 - s
      {
        s := s + 1;
      }
    }

    /** The symbol of a given code, found through its slot. */
    method SymbolAt(z: ZHuffman, ghost lens: seq<nat>, k: nat, s: nat, ghost w: nat) returns (v: nat)
      requires z.Represents(lens) && 1 <= s < 16 && w < |lens| && lens[w] == s
      requires Slot(lens, w) == k / Pow2(16 - s) - FirstCode(lens, s) + FirstSymbol(lens, s)
      ensures v == w
    {
      var b := k / Pow2(16 - s) - z.firstcode[s] + z.firstsymbol[s];
      assert z.size[b] == s;
      v := z.value[b];
    }

    lemma NextSixteen(k: nat)
      requires Buffered() && numBits >= 16 && k == BitReverse.Reverse(codeBuffer, 16)
      ensures k == Msb(input, Pos(), 16) < 0x10000
    {
      MsbBound(input, Pos(), 16);
      Pow2Values();
      BitReverse.Reverse16IsRev(codeBuffer);
      RevOfLow(codeBuffer, 16);
      LsbTake(input, Pos(), 16, numBits);
      RevLsb(input, Pos(), 16);
    }

    /** Decodes one symbol: v is the symbol whose canonical code comes next, or -1. */
    method Decode(z: ZHuffman, ghost lens: seq<nat>) returns (v: int)
      requires Valid() && z.Represents(lens)
      modifies this
      ensures v == NextSymbol(lens, input, old(Pos()))
      ensures Buffered() && Pos() == old(Pos()) + if v >= 0 then lens[v] else 0
      ensures v >= 0 ==> Valid()
    {
      hide NextSymbol, Slot, FirstSymbol, MaxCode, FirstCode, Lsb, ByteAt;
      if numBits < 16 { FillBits(); }
      LsbTake(input, Pos(), FAST_BITS, numBits);
      Pow2Values();
      var b := z.fast[codeBuffer % 512];
      if b != 0 {
        HuffmanDecode.FastHit(lens, input, Pos(), codeBuffer % 512, b);
        Consume(b / 512);
        return b % 512;
      }
      v := DecodeSlow(z, lens);
    }
  }

  lemma NextByteOf(fetched: nat, bits: nat)
    requires bits <= 8 * fetched
    ensures 8 * NextByte(8 * fetched - bits) == 8 * fetched - bits + bits % 8
  {
    var q := fetched - bits / 8;
    var r := bits % 8;
    assert 8 * fetched - bits == 8 * q - r;
  }

  /** Reversal only looks at the bits it reverses. */
  lemma {:induction false} RevOfLow(v: nat, n: nat)
    ensures Rev(v, n) == Rev(v % Pow2(n), n)
  {
    if n > 0 {
      HalfOfLow(v, Pow2(n - 1));
      RevOfLow(v / 2, n - 1);
    }
  }

  lemma HalfOfLow(v: nat, d: nat)
    requires d > 0
    ensures v % (2 * d) % 2 == v % 2
    ensures v % (2 * d) / 2 == v / 2 % d
  {
    var q, r := v / (2 * d), v % (2 * d);
    Double(q, d);
    var m := q * d;
    assert v == 2 * m + r;
    DivMod(v / 2, d, q, r / 2);
  }
}
