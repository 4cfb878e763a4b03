/** Decoding a PNG image that is not interlaced: reconstruction of the rows, then expansion
    of packed samples or conversion of 16-bit samples, all in the output buffer. */
module PngDecode {
  import opened Bytes
  import opened PngFilter
  import opened PngRow
  import opened PngImage
  import opened PngExpand
  import opened Bits

  /** Bit depth, colour type, channels in the stream and in the output. */
  datatype Format = Format(depth: nat, color: nat, imgN: nat, outN: nat) {
    predicate Valid() {
      && depth in {1, 2, 4, 8, 16} && imgN >= 1 && outN in {imgN, imgN + 1}
      && (depth < 8 ==> imgN == 1)
    }

    /** Bytes of a channel in the output. */
    function Unit(): nat {
      if depth == 16 then 2 else 1
    }

    function PixelBytes(): nat {
      outN * Unit()
    }

    /** How far apart bytes are that a filter relates. */
    function FilterBytes(): nat {
      if depth < 8 then 1 else imgN * Unit()
    }

    function RowBytes(x: nat): nat {
      (imgN * x * depth + 7) / 8
    }

    function Scale(): nat
      requires depth in {1, 2, 4}
    {
      if color == 0 then GreyScale(depth) else 1
    }
  }

  /** The sizes a format stands for: a row takes as many bytes as its samples need, filters relate bytes a
      whole pixel apart and at least one, and grey samples are scaled so that the largest becomes 255. */
  lemma FormatMeaning(f: Format, x: nat)
    requires f.Valid()
    ensures 8 * f.RowBytes(x) - 8 < f.imgN * x * f.depth <= 8 * f.RowBytes(x)
    ensures 8 * f.FilterBytes() - 8 < f.imgN * f.depth <= 8 * f.FilterBytes()
    ensures f.PixelBytes() == f.outN * if f.depth == 16 then 2 else 1
    ensures f.depth < 8 && f.color == 0 ==> f.Scale() * (Pow2(f.depth) - 1) == 255
    ensures f.depth < 8 && f.color != 0 ==> f.Scale() == 1
  {
    var bits := f.imgN * x * f.depth;
    assert f.RowBytes(x) == (bits + 7) / 8;
    SmallScales();
    if f.depth >= 8 { assert f.imgN * f.depth == 8 * f.FilterBytes(); }
  }

  lemma SmallScales()
    ensures GreyScale(1) * (Pow2(1) - 1) == 255 && GreyScale(2) * (Pow2(2) - 1) == 255 && GreyScale(4) * (Pow2(4) - 1) == 255
  {
    Pow2Values();
  }

  /** 16-bit numbers from network to little-endian order. */
  ghost function Swapped(s: seq<byte>): (r: seq<byte>)
    ensures |r| == |s|
  {
    seq(|s|, i requires 0 <= i < |s| => if i % 2 == 1 then s[i - 1] else if i + 1 < |s| then s[i + 1] else s[i])
  }

  lemma PackedFits(f: Format, x: nat)
    requires f.Valid() && f.depth < 8
    ensures x <= PerByte(f.depth) * f.RowBytes(x)
  {
    PackedSizes(x, f.depth);
    assert f.imgN * x * f.depth == x * f.depth;
  }

  ghost predicate Even(rows: seq<seq<byte>>, rb: nat) {
    forall i :: 0 <= i < |rows| ==> |rows[i]| == rb
  }

  /** What becomes of a row of x pixels in the output. */
  ghost function Line(row: seq<byte>, f: Format, x: nat): seq<byte>
    requires f.Valid() && |row| == f.RowBytes(x)
  {
    hide Format.RowBytes, Spread, Unpacked, Swapped, GreyScale, PackedSize;
    if f.depth < 8 then
      PackedFits(f, x);
      Spread(Unpacked(row, f.depth, f.Scale(), x), 1, f.outN)
    else if f.depth == 8 then Spread(row, f.imgN, f.outN)
    else Swapped(Spread(row, 2 * f.imgN, 2 * f.outN))
  }

  ghost function Lines(rows: seq<seq<byte>>, f: Format, x: nat): seq<byte>
    requires f.Valid() && Even(rows, f.RowBytes(x))
    decreases |rows|
  {
    if rows == [] then [] else Line(rows[0], f, x) + Lines(rows[1..], f, x)
  }

  lemma {:induction false} RowsEven(raw: seq<byte>, r: nat, n: nat, rb: nat, fb: nat, above: seq<byte>)
    requires fb > 0 && |above| == rb
    ensures match Rows(raw, r, n, rb, fb, above) { case None => true case Some(rows) => |rows| == n && Even(rows, rb) }
    decreases n
  {
    hide Recon;
    if n > 0 && r + 1 + rb <= |raw| && raw[r] <= 4 {
      RowsEven(raw, r + 1 + rb, n - 1, rb, fb, Recon(raw[r], fb, above, raw[r + 1..r + 1 + rb]));
    }
  }

  /** The decoded image, or None if the data is too short or names an unknown filter. */
  ghost function Decoded(raw: seq<byte>, f: Format, x: nat, y: nat): Option<seq<byte>>
    requires f.Valid()
  {
    var rb, fb := f.RowBytes(x), f.FilterBytes();
    if |raw| < (rb + 1) * y then None
    else
      FilterBytesPositive(f);
      RowsEven(raw, 0, y, rb, fb, Zeros(rb));
      match Rows(raw, 0, y, rb, fb, Zeros(rb))
      case None => None
      case Some(rows) => Some(Lines(rows, f, x))
  }

  lemma FilterBytesPositive(f: Format)
    requires f.Valid()
    ensures f.FilterBytes() > 0
  {
  }

  /** Row j of the filtered data is there, with a filter type that exists. */
  predicate RowThere(raw: seq<byte>, r: nat, rb: nat, j: nat) {
    r + (rb + 1) * j + 1 + rb <= |raw| && raw[r + (rb + 1) * j] <= 4
  }

  lemma RowShift(raw: seq<byte>, r: nat, rb: nat, j: nat)
    ensures RowThere(raw, r + 1 + rb, rb, j) <==> RowThere(raw, r, rb, j + 1)
  {
    assert (rb + 1) * (j + 1) == (rb + 1) * j + (rb + 1);
  }

  lemma {:induction false} RowsThere(raw: seq<byte>, r: nat, n: nat, rb: nat, fb: nat, above: seq<byte>)
    requires fb > 0 && |above| == rb
    ensures Rows(raw, r, n, rb, fb, above).Some? <==> forall j :: 0 <= j < n ==> RowThere(raw, r, rb, j)
    decreases n
  {
    hide Recon, RowThere;
    if n > 0 {
      FirstRowThere(raw, r, rb);
      if r + 1 + rb <= |raw| && raw[r] <= 4 {
        RowsThere(raw, r + 1 + rb, n - 1, rb, fb, Recon(raw[r], fb, above, raw[r + 1..r + 1 + rb]));
        RowsSplit(raw, r, r + 1 + rb, rb, n);
      }
    }
  }

  lemma FirstRowThere(raw: seq<byte>, r: nat, rb: nat)
    ensures RowThere(raw, r, rb, 0) <==> r + 1 + rb <= |raw| && raw[r] <= 4
  {
  }

  lemma RowsSplit(raw: seq<byte>, r: nat, next: nat, rb: nat, n: nat)
    requires n > 0 && next == r + 1 + rb && RowThere(raw, r, rb, 0)
    ensures (forall j :: 0 <= j < n ==> RowThere(raw, r, rb, j)) <==> forall j :: 0 <= j < n - 1 ==> RowThere(raw, next, rb, j)
  {
    hide RowThere;
    forall j | 0 <= j < n - 1 ensures RowThere(raw, next, rb, j) <==> RowThere(raw, r, rb, j + 1) { RowShift(raw, r, rb, j); }
    if forall j :: 0 <= j < n - 1 ==> RowThere(raw, next, rb, j) {
      forall j | 0 <= j < n ensures RowThere(raw, r, rb, j) {
        if j > 0 { assert RowThere(raw, next, rb, j - 1); }
      }
    }
  }

  /** An image decodes exactly if all its rows are there, each with a filter type from 0 to 4. */
  lemma DecodedExactly(raw: seq<byte>, f: Format, x: nat, y: nat)
    requires f.Valid()
    ensures Decoded(raw, f, x, y).Some? <==> forall j :: 0 <= j < y ==> RowThere(raw, 0, f.RowBytes(x), j)
  {
    hide RowThere, Lines, Rows, Format.RowBytes, Format.FilterBytes, Zeros;
    var rb, fb := f.RowBytes(x), f.FilterBytes();
    FilterBytesPositive(f);
    RowsThere(raw, 0, y, rb, fb, Zeros(rb));
    if y > 0 { LastRowThere(raw, rb, y - 1); }
  }

  lemma LastRowThere(raw: seq<byte>, rb: nat, j: nat)
    ensures RowThere(raw, 0, rb, j) ==> |raw| >= (rb + 1) * (j + 1)
  {
    assert (rb + 1) * (j + 1) == (rb + 1) * j + (rb + 1);
  }

  // ----- Decoding undoes encoding

  lemma {:induction false} EncodedSize(filters: seq<nat>, rows: seq<seq<byte>>, rb: nat, fb: nat, above: seq<byte>)
    requires fb > 0 && |above| == rb && |filters| == |rows|
    requires Even(rows, rb) && forall i :: 0 <= i < |filters| ==> filters[i] <= 4
    ensures |Encoded(filters, rows, rb, fb, above)| == (rb + 1) * |rows|
    decreases |rows|
  {
    hide Filtered;
    if rows != [] {
      EncodedSize(filters[1..], rows[1..], rb, fb, rows[0]);
      TimesUp(rb + 1, |rows| - 1, |rows|);
    }
  }

  /** The rows of any image, filtered in any way, come back, whatever follows them. */
  lemma DecodedUndoesEncoding(f: Format, x: nat, filters: seq<nat>, rows: seq<seq<byte>>, trailing: seq<byte>)
    requires f.Valid() && f.FilterBytes() > 0 && Even(rows, f.RowBytes(x))
    requires |filters| == |rows| && forall i :: 0 <= i < |filters| ==> filters[i] <= 4
    ensures var rb := f.RowBytes(x);
            var encoded := Encoded(filters, rows, rb, f.FilterBytes(), Zeros(rb));
            |encoded| == (rb + 1) * |rows| && Decoded(encoded + trailing, f, x, |rows|) == Some(Lines(rows, f, x))
  {
    hide Encoded, Rows, Lines;
    var rb, fb := f.RowBytes(x), f.FilterBytes();
    EncodedSize(filters, rows, rb, fb, Zeros(rb));
    RowsUndoEncoding([], filters, rows, rb, fb, Zeros(rb), trailing);
    var encoded := Encoded(filters, rows, rb, fb, Zeros(rb));
    assert [] + encoded + trailing == encoded + trailing;
  }

  // ----- From rows in the buffer to the finished image

  lemma SwappedPair(a: seq<byte>, b: seq<byte>)
    requires |a| % 2 == 0
    ensures Swapped(a + b) == Swapped(a) + Swapped(b)
  {
  }

  lemma EvenSpread(row: seq<byte>, n: nat, m: nat, x: nat)
    requires 0 < n <= m && |row| == x * (2 * n)
    ensures |Spread(row, 2 * n, 2 * m)| % 2 == 0
  {
    hide Spread;
    SpreadSize(row, 2 * n, 2 * m, x);
    EvenTimes(x, m);
  }

  lemma EvenTimes(x: nat, m: nat)
    ensures x * (2 * m) % 2 == 0
  {
    Double(x, m);
  }

  /** The rows in the buffer are the finished image if its depth is 8. */
  lemma {:induction false} StoredLines8(out: seq<byte>, at: nat, rows: seq<seq<byte>>, f: Format, x: nat, stride: nat, end: nat)
    requires f.Valid() && f.depth == 8 && Even(rows, f.RowBytes(x)) && f.outN > 0
    requires Stored(out, at, rows, f.imgN, f.outN, 0, stride, end)
    ensures at <= end <= |out| && out[at..end] == Lines(rows, f, x)
    decreases |rows|
  {
    hide Spread;
    StoredRange(out, at, rows, f.imgN, f.outN, 0, stride, end);
    if rows != [] {
      StoredLines8(out, at + stride, rows[1..], f, x, stride, end);
      assert out[at..end] == out[at..at + stride] + out[at + stride..end];
    }
  }

  /** The rows in the buffer, with every 16-bit number swapped, are the finished image if its depth is 16. */
  lemma {:induction false} StoredLines16(out: seq<byte>, at: nat, rows: seq<seq<byte>>, f: Format, x: nat, stride: nat, end: nat)
    requires f.Valid() && f.depth == 16 && Even(rows, f.RowBytes(x)) && f.RowBytes(x) == x * (2 * f.imgN)
    requires Stored(out, at, rows, 2 * f.imgN, 2 * f.outN, 0, stride, end)
    ensures at <= end <= |out| && Swapped(out[at..end]) == Lines(rows, f, x)
    decreases |rows|
  {
    hide Spread, Swapped;
    var n, m := f.imgN, f.outN;
    StoredRange(out, at, rows, 2 * f.imgN, 2 * f.outN, 0, stride, end);
    if rows == [] {
      assert out[at..end] == [] && Swapped([]) == [];
    } else {
      StoredLines16(out, at + stride, rows[1..], f, x, stride, end);
      assert out[at..end] == out[at..at + stride] + out[at + stride..end];
      EvenSpread(rows[0], n, m, x);
      SwappedPair(out[at..at + stride], out[at + stride..end]);
    }
  }

  /** Brings every 16-bit number from network to little-endian order. */
  method SwapBytes(out: array<byte>, n: nat)
    requires out.Length == 2 * n
    modifies out
    ensures out[..] == Swapped(old(out[..]))
  {
    ghost var before := out[..];
    var i := 0;
    while i < n
      invariant 0 <= i <= n
      invariant forall k :: 0 <= k < 2 * i ==> out[k] == Swapped(before)[k]
      invariant forall k :: 2 * i <= k < out.Length ==> out[k] == before[k]
    {
      var cur := 2 * i;
      out[cur], out[cur + 1] := out[cur + 1], out[cur];
      i := i + 1;
    }
    assert out[..] == Swapped(before);
  }

  // ----- Expanding all rows

  lemma PackedRows(f: Format, x: nat)
    requires f.Valid() && f.depth < 8
    ensures f.RowBytes(x) == PackedSize(x, f.depth)
    ensures f.RowBytes(x) <= x <= x * f.outN && x <= PerByte(f.depth) * PackedSize(x, f.depth)
    ensures f.outN in {1, 2}
  {
    PackedSizes(x, f.depth);
    assert f.imgN * x * f.depth == x * f.depth;
  }

  /** Expands the packed row at the right end of its stride, then makes room for alpha. */
  method ExpandLine(out: array<byte>, f: Format, x: nat, at: nat, stride: nat, ghost row: seq<byte>)
    requires f.Valid() && f.depth < 8 && stride == x * f.outN && at + stride <= out.Length
    requires |row| == f.RowBytes(x) <= stride && out[at + (stride - |row|)..at + stride] == Spread(row, 1, 1)
    modifies out
    ensures out[..at] == old(out[..at]) && out[at + stride..] == old(out[at + stride..])
    ensures out[at..at + stride] == Line(row, f, x)
  {
    hide Spread, Unpacked, PerByte, PackedSize, GreyScale;
    ghost var before := out[..];
    PackedRows(f, x);
    SpreadSame(row, 1, |row|);
    ghost var samples := Unpacked(row, f.depth, f.Scale(), x);
    ExpandRow(out, at, stride, f.depth, f.Scale(), x);
    if f.imgN != f.outN {
      ghost var mid := out[..];
      assert x * 2 == 2 * x;
      InsertAlpha(out, at, x);
    } else {
      SpreadSame(samples, 1, x);
    }
  }

  /** Rows before at are finished; the rest are still packed. */
  ghost predicate Expanding(out: seq<byte>, at: nat, rest: seq<seq<byte>>, f: Format, x: nat, pad: nat, stride: nat, end: nat, want: seq<byte>)
  {
    && f.Valid() && f.depth < 8 && Even(rest, f.RowBytes(x)) && f.RowBytes(x) + pad == stride
    && Stored(out, at, rest, 1, 1, pad, stride, end)
    && at <= |out| && want == out[..at] + Lines(rest, f, x)
  }

  lemma {:induction false} StoredBeyond(out: seq<byte>, out': seq<byte>, at: nat, rows: seq<seq<byte>>,
                                        fb: nat, ob: nat, pad: nat, stride: nat, end: nat)
    requires 0 < fb <= ob && pad <= stride && Stored(out, at, rows, fb, ob, pad, stride, end)
    requires at <= |out| == |out'| && out'[at..] == out[at..]
    ensures Stored(out', at, rows, fb, ob, pad, stride, end)
    decreases |rows|
  {
    hide Spread;
    if rows != [] {
      SameTail(out, out', at, at + pad, at + stride);
      StoredBeyond(out, out', at + stride, rows[1..], fb, ob, pad, stride, end);
    }
  }

  lemma LinesFirst(front: seq<byte>, rest: seq<seq<byte>>, f: Format, x: nat)
    requires f.Valid() && Even(rest, f.RowBytes(x)) && rest != []
    ensures front + Lines(rest, f, x) == front + Line(rest[0], f, x) + Lines(rest[1..], f, x)
  {
    hide Line;
  }

  lemma ExpandingStep(was: seq<byte>, now: seq<byte>, at: nat, rest: seq<seq<byte>>, f: Format, x: nat, pad: nat, stride: nat,
                      end: nat, want: seq<byte>)
    requires Expanding(was, at, rest, f, x, pad, stride, end, want) && rest != []
    requires |now| == |was| && at + stride <= |was| && now[..at] == was[..at] && now[at + stride..] == was[at + stride..]
    requires now[at..at + stride] == Line(rest[0], f, x)
    ensures Expanding(now, at + stride, rest[1..], f, x, pad, stride, end, want)
  {
    hide Spread, Line, Lines, Format.Valid, Format.RowBytes;
    StoredBeyond(was, now, at + stride, rest[1..], 1, 1, pad, stride, end);
    TakeSplit(now, at, at + stride);
    LinesFirst(was[..at], rest, f, x);
  }

  lemma ExpandingRoom(out: seq<byte>, at: nat, rest: seq<seq<byte>>, f: Format, x: nat, pad: nat, stride: nat, end: nat, want: seq<byte>)
    requires Expanding(out, at, rest, f, x, pad, stride, end, want) && rest != []
    ensures at + stride <= |out| && |rest[0]| == f.RowBytes(x) && out[at + pad..at + stride] == Spread(rest[0], 1, 1)
  {
    hide Spread, Line;
  }

  /** Expands the packed rows one after the other. */
  method ExpandRows(out: array<byte>, f: Format, x: nat, y: nat, stride: nat, ghost rows: seq<seq<byte>>)
    requires f.Valid() && f.depth < 8 && stride == x * f.outN && f.RowBytes(x) <= stride
    requires |rows| == y && Even(rows, f.RowBytes(x)) && out.Length == stride * y
    requires Stored(out[..], 0, rows, 1, 1, stride - f.RowBytes(x), stride, stride * y)
    modifies out
    ensures out[..] == Lines(rows, f, x)
  {
    hide Spread, Line, Lines, Stored, Expanding;
    ghost var pad, want := stride - f.RowBytes(x), Lines(rows, f, x);
    ghost var rest := rows;
    var j: nat, at: nat := 0, 0;
    ExpandingStart(out[..], rows, f, x, pad, stride, stride * y);
    while j < y
      invariant 0 <= j <= y && at == stride * j && |rest| == y - j
      invariant Expanding(out[..], at, rest, f, x, pad, stride, stride * y, want)
    {
      ghost var was := out[..];
      ExpandingRoom(was, at, rest, f, x, pad, stride, stride * y, want);
      assert out[at + pad..at + stride] == was[at + pad..at + stride];
      ExpandLine(out, f, x, at, stride, rest[0]);
      assert out[..][at..at + stride] == out[at..at + stride] && out[..][..at] == out[..at] && out[..][at + stride..] == out[at + stride..];
      ExpandingStep(was, out[..], at, rest, f, x, pad, stride, stride * y, want);
      TimesUp(stride, j, y);
      rest, at, j := rest[1..], at + stride, j + 1;
    }
    ExpandingEnd(out[..], at, f, x, pad, stride, stride * y, want);
  }

  lemma ExpandingStart(out: seq<byte>, rows: seq<seq<byte>>, f: Format, x: nat, pad: nat, stride: nat, end: nat)
    requires f.Valid() && f.depth < 8 && Even(rows, f.RowBytes(x)) && f.RowBytes(x) + pad == stride
    requires Stored(out, 0, rows, 1, 1, pad, stride, end)
    ensures Expanding(out, 0, rows, f, x, pad, stride, end, Lines(rows, f, x))
  {
    hide Stored, Lines;
  }

  lemma ExpandingEnd(out: seq<byte>, at: nat, f: Format, x: nat, pad: nat, stride: nat, end: nat, want: seq<byte>)
    requires Expanding(out, at, [], f, x, pad, stride, end, want) && at == |out|
    ensures out == want
  {
    hide Stored;
  }

  // ----- The whole image

  lemma Measures(f: Format, x: nat)
    requires f.Valid()
    ensures f.depth >= 8 ==> f.RowBytes(x) == x * f.FilterBytes() && f.PixelBytes() >= f.FilterBytes() > 0
    ensures f.depth == 8 ==> f.FilterBytes() == f.imgN && f.PixelBytes() == f.outN
    ensures f.depth == 16 ==> f.FilterBytes() == 2 * f.imgN && f.PixelBytes() == 2 * f.outN
    ensures f.depth < 8 ==> f.FilterBytes() == 1 && f.PixelBytes() == f.outN
  {
    var p := f.imgN * x;
    if f.depth == 8 {
      assert f.RowBytes(x) == (p * 8 + 7) / 8 == p;
    } else if f.depth == 16 {
      assert f.RowBytes(x) == (p * 16 + 7) / 8 == 2 * p;
      Double(x, f.imgN);
    }
  }

  /** What decoding is, once the size of a row is known. */
  lemma DecodedIs(raw: seq<byte>, f: Format, x: nat, y: nat, rb: nat, fb: nat)
    requires f.Valid() && rb == f.RowBytes(x) && fb == f.FilterBytes()
    ensures fb > 0 && (1 + rb) * y == (rb + 1) * y
    ensures |raw| < (rb + 1) * y ==> Decoded(raw, f, x, y) == None
    ensures |raw| >= (rb + 1) * y ==>
              match Rows(raw, 0, y, rb, fb, Zeros(rb))
              case None => Decoded(raw, f, x, y) == None
              case Some(rows) => Even(rows, rb) && Decoded(raw, f, x, y) == Some(Lines(rows, f, x))
  {
    hide Lines, Rows, Format.RowBytes, Format.FilterBytes, Even, Zeros;
    FilterBytesPositive(f);
    RowsEven(raw, 0, y, rb, fb, Zeros(rb));
  }

  /** Decodes the image data after decompression. It fails exactly when there is too little
      data or an unknown filter type. */
  method CreateImageRaw(raw: seq<byte>, f: Format, x: nat, y: nat) returns (ok: bool, out: array<byte>)
    requires f.Valid() && x > 0
    ensures fresh(out) && out.Length == x * f.PixelBytes() * y
    ensures Decoded(raw, f, x, y) == if ok then Some(out[..]) else None
  {
    hide Spread, Recon, Lines, Stored, PackedSize, Format.RowBytes, Format.PixelBytes, Format.FilterBytes, Rows, Swapped, Decoded, Even, Zeros;
    var stride, rb := x * f.PixelBytes(), f.RowBytes(x);
    out := new byte[stride * y];
    Measures(f, x);
    FilterBytesPositive(f);
    DecodedIs(raw, f, x, y, rb, f.FilterBytes());
    if |raw| < (rb + 1) * y { return false, out; }
    if f.depth < 8 {
      PackedRows(f, x);
      ghost var rows;
      ok, rows := Defilter(out, raw, y, rb, 1, 1, rb, stride - rb, stride);
      if ok { ExpandRows(out, f, x, y, stride, rows); }
    } else {
      ghost var rows;
      ok, rows := Defilter(out, raw, y, x, f.FilterBytes(), f.PixelBytes(), rb, 0, stride);
      if ok { Finish(out, f, x, y, stride, rows); }
    }
  }

  /** Converts 16-bit samples; 8-bit samples stay as they are. */
  method Finish(out: array<byte>, f: Format, x: nat, y: nat, stride: nat, ghost rows: seq<seq<byte>>)
    requires f.Valid() && f.depth >= 8 && stride == x * f.PixelBytes() && out.Length == stride * y
    requires Even(rows, f.RowBytes(x)) && 0 < f.FilterBytes() <= f.PixelBytes()
    requires Stored(out[..], 0, rows, f.FilterBytes(), f.PixelBytes(), 0, stride, stride * y)
    modifies out
    ensures out[..] == Lines(rows, f, x)
  {
    hide Spread, Lines, Stored, Format.RowBytes, Format.PixelBytes, Format.FilterBytes, Swapped;
    ghost var was := out[..];
    assert was[0..stride * y] == was;
    Measures(f, x);
    if f.depth == 16 {
      StoredLines16(was, 0, rows, f, x, stride, stride * y);
      TimesEven(x, f.outN, y);
      SwapBytes(out, x * f.outN * y);
    } else {
      StoredLines8(was, 0, rows, f, x, stride, stride * y);
    }
  }

  lemma TimesEven(x: nat, n: nat, y: nat)
    ensures x * (2 * n) * y == 2 * (x * n * y)
  {
    Double(x, n);
    Double(x * n, y);
  }

  // ----- Every sample of the image

  /** Byte k of pixel i, stored with alpha. */
  lemma SpreadAt(row: seq<byte>, fb: nat, ob: nat, x: nat, i: nat, k: nat)
    requires 0 < fb <= ob && |row| == x * fb && i < x && k < ob
    ensures i * fb + fb <= |row| && i * ob + k < |Spread(row, fb, ob)| == x * ob
    ensures Spread(row, fb, ob)[i * ob + k] == if k < fb then row[i * fb + k] else 255
  {
    hide Spread;
    TimesNext(i, x, fb);
    TimesNext(i, x, ob);
    var n := i * fb;
    SpreadSize(row, fb, ob, x);
    SpreadSplit(row, fb, ob, i, n);
    SpreadSize(row[..n], fb, ob, i);
    SpreadFirst(row[n..], fb, ob, k);
    assert Spread(row, fb, ob)[i * ob + k] == Spread(row[n..], fb, ob)[k];
  }

  lemma SpreadFirst(row: seq<byte>, fb: nat, ob: nat, k: nat)
    requires 0 < fb <= ob && fb <= |row| && k < ob
    ensures k < |Spread(row, fb, ob)| && Spread(row, fb, ob)[k] == if k < fb then row[k] else 255
  {
    assert Spread(row, fb, ob) == row[..fb] + Opaque(ob - fb) + Spread(row[fb..], fb, ob);
  }

  /** The other byte of a 16-bit number. */
  function Other(k: nat): nat {
    if k % 2 == 0 then k + 1 else k - 1
  }

  lemma SwappedAt(s: seq<byte>, b: nat, k: nat)
    requires b % 2 == 0 && |s| % 2 == 0 && b + k < |s|
    ensures b + Other(k) < |s| && Swapped(s)[b + k] == s[b + Other(k)]
  {
  }

  /** Byte k of pixel i of the output: the sample, in little-endian order if it has 16 bits and
      scaled if it was packed, and opaque alpha after it if there is a channel more. */
  ghost predicate Shows(v: byte, row: seq<byte>, f: Format, i: nat, k: nat)
    requires f.Valid()
  {
    if k >= f.imgN * f.Unit() then v == 255
    else if f.depth == 8 then v == ByteAt(row, i * f.imgN + k)
    else if f.depth == 16 then v == ByteAt(row, i * (2 * f.imgN) + Other(k))
    else v == Sample(ByteAt(row, i / PerByte(f.depth)), f.depth, f.Scale(), i % PerByte(f.depth))
  }

  lemma LineAt(row: seq<byte>, f: Format, x: nat, i: nat, k: nat, at: nat)
    requires f.Valid() && |row| == f.RowBytes(x) && i < x && k < f.PixelBytes() && at == i * f.PixelBytes() + k
    ensures at < |Line(row, f, x)| && Shows(Line(row, f, x)[at], row, f, i, k)
  {
    hide Line, Shows, Format.RowBytes;
    Measures(f, x);
    if f.depth < 8 {
      LineAt1(row, f, x, i, k, at);
    } else if f.depth == 8 {
      LineAt8(row, f, x, i, k, at);
    } else {
      LineAt16(row, f, x, i, k, at);
    }
  }

  lemma LineAt1(row: seq<byte>, f: Format, x: nat, i: nat, k: nat, at: nat)
    requires f.Valid() && |row| == f.RowBytes(x) && i < x && k < f.outN && at == i * f.outN + k && f.depth < 8
    ensures at < |Line(row, f, x)| && Shows(Line(row, f, x)[at], row, f, i, k)
  {
    hide Spread, Unpacked, Sample, GreyScale, Format.RowBytes, PerByte, PackedSize;
    PackedRows(f, x);
    SpreadAt(Unpacked(row, f.depth, f.Scale(), x), 1, f.outN, x, i, k);
    UnpackedAt(row, f.depth, f.Scale(), x, i);
  }

  lemma LineAt8(row: seq<byte>, f: Format, x: nat, i: nat, k: nat, at: nat)
    requires f.Valid() && |row| == x * f.imgN == f.RowBytes(x) && i < x && k < f.outN && at == i * f.outN + k && f.depth == 8
    ensures at < |Line(row, f, x)| && Shows(Line(row, f, x)[at], row, f, i, k)
  {
    hide Spread, Format.RowBytes;
    SpreadAt(row, f.imgN, f.outN, x, i, k);
  }

  lemma LineAt16(row: seq<byte>, f: Format, x: nat, i: nat, k: nat, at: nat)
    requires f.Valid() && |row| == x * (2 * f.imgN) == f.RowBytes(x) && i < x && k < 2 * f.outN && at == i * (2 * f.outN) + k
    requires f.depth == 16
    ensures at < |Line(row, f, x)| && Shows(Line(row, f, x)[at], row, f, i, k)
  {
    hide Spread, Swapped, Format.RowBytes;
    var s := Spread(row, 2 * f.imgN, 2 * f.outN);
    SpreadAt(row, 2 * f.imgN, 2 * f.outN, x, i, k);
    EvenTimes(i, f.outN);
    EvenTimes(x, f.outN);
    SwappedAt(s, i * (2 * f.outN), k);
    SpreadAt(row, 2 * f.imgN, 2 * f.outN, x, i, Other(k));
  }

  /** Row j of the finished image, at position at. */
  lemma {:induction false} LinesAt(rows: seq<seq<byte>>, f: Format, x: nat, j: nat, stride: nat, at: nat)
    requires f.Valid() && Even(rows, f.RowBytes(x)) && j < |rows| && stride == x * f.PixelBytes() && at == stride * j
    ensures at + stride <= |Lines(rows, f, x)| && Lines(rows, f, x)[at..at + stride] == Line(rows[j], f, x)
    decreases |rows|
  {
    hide Line, Format.RowBytes, Format.PixelBytes;
    var line, rest := Line(rows[0], f, x), Lines(rows[1..], f, x);
    LineSize(rows[0], f, x);
    if j > 0 {
      TimesUp(stride, j - 1, j);
      LinesAt(rows[1..], f, x, j - 1, stride, at - stride);
      assert (line + rest)[at..at + stride] == rest[at - stride..at];
    }
  }

  lemma LineSize(row: seq<byte>, f: Format, x: nat)
    requires f.Valid() && |row| == f.RowBytes(x)
    ensures |Line(row, f, x)| == x * f.PixelBytes()
  {
    hide Spread, Swapped, Unpacked, Format.RowBytes;
    Measures(f, x);
    if f.depth < 8 {
      PackedRows(f, x);
      SpreadSize(Unpacked(row, f.depth, f.Scale(), x), 1, f.outN, x);
    } else {
      SpreadSize(row, f.FilterBytes(), f.PixelBytes(), x);
    }
  }

  lemma {:induction false} LinesSize(rows: seq<seq<byte>>, f: Format, x: nat)
    requires f.Valid() && Even(rows, f.RowBytes(x))
    ensures |Lines(rows, f, x)| == x * f.PixelBytes() * |rows|
    decreases |rows|
  {
    hide Line, Format.RowBytes, Format.PixelBytes;
    if rows != [] {
      LineSize(rows[0], f, x);
      LinesSize(rows[1..], f, x);
      TimesUp(x * f.PixelBytes(), |rows| - 1, |rows|);
    }
  }

  /** Every byte of every pixel of an image, filtered in any way, is restored. */
  lemma PixelsRestored(f: Format, x: nat, filters: seq<nat>, rows: seq<seq<byte>>, trailing: seq<byte>, j: nat, i: nat, k: nat,
                       line: nat, at: nat)
    requires f.Valid() && f.FilterBytes() > 0 && Even(rows, f.RowBytes(x))
    requires |filters| == |rows| && forall m :: 0 <= m < |filters| ==> filters[m] <= 4
    requires j < |rows| && i < x && k < f.PixelBytes() && line == x * f.PixelBytes() * j && at == i * f.PixelBytes() + k
    ensures var rb := f.RowBytes(x);
            var image := Decoded(Encoded(filters, rows, rb, f.FilterBytes(), Zeros(rb)) + trailing, f, x, |rows|);
            image.Some? && line + at < |image.value| && Shows(image.value[line + at], rows[j], f, i, k)
  {
    hide Encoded, Decoded, Lines, Line, Shows, Format.RowBytes, Format.PixelBytes, Format.FilterBytes;
    DecodedUndoesEncoding(f, x, filters, rows, trailing);
    var all, stride := Lines(rows, f, x), x * f.PixelBytes();
    LinesAt(rows, f, x, j, stride, line);
    LineAt(rows[j], f, x, i, k, at);
    LineSize(rows[j], f, x);
    assert all[line..line + stride][at] == all[line + at];
  }

  // ----- An image by hand

  /** Two grey pixels, one above the other; the second is the average of nothing and the first. */
  lemma TwoPixelsDecode()
    ensures Decoded([0, 10, 3, 0], Format(8, 0, 1, 1), 1, 2) == Some([10, 5])
  {
    hide Recon, Lines, Line;
    var raw: seq<byte>, f := [0, 10, 3, 0], Format(8, 0, 1, 1);
    assert f.RowBytes(1) == 1 && f.FilterBytes() == 1;
    assert raw[1..2] == [10] && raw[3..4] == [0] && Zeros(1) == [0];
    FirstRowOfTwo();
    var one: seq<seq<byte>> := [[5]];
    RowsStep(raw, 2, 1, [10], [5], []);
    assert [[5]] + [] == one;
    RowsStep(raw, 0, 2, [0], [10], one);
    assert [[10]] + one == [[10], [5]];
    TwoLines(10, 5, f);
    assert Zeros(f.RowBytes(1)) == [0];
    assert Rows(raw, 0, 2, f.RowBytes(1), f.FilterBytes(), Zeros(f.RowBytes(1))) == Some([[10], [5]]);
  }

  /** One more row of one byte. */
  lemma RowsStep(raw: seq<byte>, r: nat, n: nat, above: seq<byte>, row: seq<byte>, rest: seq<seq<byte>>)
    requires n > 0 && |above| == 1 && r + 2 <= |raw| && raw[r] <= 4 && row == Recon(raw[r], 1, above, [raw[r + 1]])
    requires Rows(raw, r + 2, n - 1, 1, 1, row) == Some(rest)
    ensures Rows(raw, r, n, 1, 1, above) == Some([row] + rest)
  {
    hide Recon;
    assert raw[r + 1..r + 1 + 1] == [raw[r + 1]];
  }

  lemma TwoLines(v: byte, w: byte, f: Format)
    requires f == Format(8, 0, 1, 1)
    ensures f.RowBytes(1) == 1 && Lines([[v], [w]], f, 1) == [v, w]
  {
    hide Line;
    OneByteLine(v, f);
    OneByteLine(w, f);
    var rows: seq<seq<byte>> := [[v], [w]];
    assert rows[1..] == [[w]] && rows[1..][1..] == [];
    assert Lines(rows[1..], f, 1) == [w] + [];
  }

  lemma FirstRowOfTwo()
    ensures Recon(0, 1, [0], [10]) == [10] && Recon(3, 1, [10], [0]) == [5]
  {
  }

  lemma OneByteLine(v: byte, f: Format)
    requires f == Format(8, 0, 1, 1)
    ensures Line([v], f, 1) == [v]
  {
    SpreadSame([v], 1, 1);
  }
}
