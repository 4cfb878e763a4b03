/** Expanding 1-, 2- and 4-bit samples to bytes in place, and inserting alpha in place. */
module PngExpand {
  import opened Bytes
  import opened Bits
  import opened PngFilter

  /** Samples in a byte. */
  function PerByte(depth: nat): (n: nat)
    requires depth in {1, 2, 4}
    ensures n in {2, 4, 8} && n * depth == 8
  {
    if depth == 1 then 8 else if depth == 2 then 4 else 2
  }

  /** What brings a grey sample to the range 0..255. */
  function GreyScale(depth: nat): nat
    requires depth in {1, 2, 4}
  {
    if depth == 1 then 0xFF else if depth == 2 then 0x55 else 0x11
  }

  /** Sample t of a byte, the leftmost first, scaled. */
  function Sample(v: byte, depth: nat, scale: nat, t: nat): (r: byte)
    requires depth in {1, 2, 4} && t < PerByte(depth) && (scale == 1 || scale == GreyScale(depth))
  {
    var s := v / Pow2(8 - depth * (t + 1)) % Pow2(depth);
    Pow2Values();
    assert s <= (if depth == 1 then 1 else if depth == 2 then 3 else 15);
    s * scale
  }

  /** The first n samples of a byte. */
  function Samples(v: byte, depth: nat, scale: nat, n: nat): (r: seq<byte>)
    requires depth in {1, 2, 4} && n <= PerByte(depth) && (scale == 1 || scale == GreyScale(depth))
    ensures |r| == n
  {
    seq(n, t requires 0 <= t < n => Sample(v, depth, scale, t))
  }

  /** The first n samples of a packed row. */
  ghost function Unpacked(packed: seq<byte>, depth: nat, scale: nat, n: nat): (r: seq<byte>)
    requires depth in {1, 2, 4} && n <= PerByte(depth) * |packed| && (scale == 1 || scale == GreyScale(depth))
    ensures |r| == n
    decreases n
  {
    var k := PerByte(depth);
    if n == 0 then []
    else if n <= k then Samples(packed[0], depth, scale, n)
    else Samples(packed[0], depth, scale, k) + Unpacked(packed[1..], depth, scale, n - k)
  }

  lemma UnpackedStep(packed: seq<byte>, depth: nat, scale: nat, n: nat, i: nat)
    requires depth in {1, 2, 4} && i < n <= PerByte(depth) * |packed| && (scale == 1 || scale == GreyScale(depth))
    ensures var k := PerByte(depth);
            Unpacked(packed, depth, scale, n)[i] ==
            if i < k then Sample(packed[0], depth, scale, i) else Unpacked(packed[1..], depth, scale, n - k)[i - k]
  {
    hide Sample, GreyScale, PerByte;
  }

  lemma {:induction false} UnpackedAt(packed: seq<byte>, depth: nat, scale: nat, n: nat, i: nat)
    requires depth in {1, 2, 4} && i < n <= PerByte(depth) * |packed| && (scale == 1 || scale == GreyScale(depth))
    ensures var k := PerByte(depth);
            0 <= i / k < |packed| && Unpacked(packed, depth, scale, n)[i] == Sample(packed[i / k], depth, scale, i % k)
    decreases n
  {
    hide Sample, GreyScale, PerByte, Unpacked;
    var k := PerByte(depth);
    UnpackedStep(packed, depth, scale, n, i);
    if i >= k {
      UnpackedAt(packed[1..], depth, scale, n - k, i - k);
      NextGroup(i, k);
    } else {
      DivMod(i, k, 0, i);
    }
  }

  lemma NextGroup(i: nat, k: nat)
    requires 0 < k <= i
    ensures i / k == (i - k) / k + 1 && i % k == (i - k) % k
  {
    var q, r := (i - k) / k, (i - k) % k;
    MulAdd(q, 1, k);
    DivMod(i, k, q + 1, r);
  }

  /** Bytes that n samples take. */
  function PackedSize(n: nat, depth: nat): nat
    requires depth in {1, 2, 4}
  {
    (n * depth + 7) / 8
  }

  lemma PackedSizes(n: nat, depth: nat)
    requires depth in {1, 2, 4}
    ensures var k, m := PerByte(depth), PackedSize(n, depth);
            && n <= k * m && m <= n && (n >= 1 ==> m >= 1)
            && (n >= k ==> PackedSize(n - k, depth) == m - 1 && n - m >= k - 1)
            && (1 <= n <= k ==> m == 1)
  {
    if depth == 1 { assert PackedSize(n, depth) == (n + 7) / 8; }
    if depth == 2 { assert PackedSize(n, depth) == (2 * n + 7) / 8; }
    if depth == 4 { assert PackedSize(n, depth) == (4 * n + 7) / 8; }
  }

  lemma NoSamples(v: byte, depth: nat, scale: nat)
    requires depth in {1, 2, 4} && (scale == 1 || scale == GreyScale(depth))
    ensures Samples(v, depth, scale, 0) == []
  {
  }

  lemma SamplesNext(before: seq<byte>, mid: seq<byte>, now: seq<byte>, cur: nat, v: byte, depth: nat, scale: nat, n: nat, t: nat)
    requires depth in {1, 2, 4} && t < n <= PerByte(depth) && (scale == 1 || scale == GreyScale(depth)) && cur + n <= |before|
    requires mid == before[..cur] + Samples(v, depth, scale, t) + before[cur + t..]
    requires now == mid[cur + t := Sample(v, depth, scale, t)]
    ensures now == before[..cur] + Samples(v, depth, scale, t + 1) + before[cur + (t + 1)..]
  {
    hide Sample, PerByte, GreyScale;
    var xs := Samples(v, depth, scale, n);
    assert xs[..t] == Samples(v, depth, scale, t) && xs[..t + 1] == Samples(v, depth, scale, t + 1);
    WriteNext(before, mid, now, cur, xs, t);
  }

  /** Expands n samples of the byte at `from` to position cur; the byte itself may be
      overwritten, but only by its last sample. */
  method ExpandByte(out: array<byte>, cur: nat, from: nat, depth: nat, scale: nat, n: nat)
    requires depth in {1, 2, 4} && 1 <= n <= PerByte(depth) && (scale == 1 || scale == GreyScale(depth))
    requires cur + n - 1 <= from < out.Length
    modifies out
    ensures out[..] == old(out[..cur]) + Samples(old(out[from]), depth, scale, n) + old(out[cur + n..])
  {
    hide Sample, Samples, GreyScale, PerByte;
    ghost var before := out[..];
    ghost var v := out[from];
    NoSamples(v, depth, scale);
    var t := 0;
    while t < n
      invariant 0 <= t <= n && (t < n ==> out[from] == v)
      invariant out[..] == before[..cur] + Samples(v, depth, scale, t) + before[cur + t..]
    {
      ghost var mid := out[..];
      out[cur + t] := Sample(out[from], depth, scale, t);
      SamplesNext(before, mid, out[..], cur, v, depth, scale, n, t);
      t := t + 1;
    }
  }

  /** Expanding one more byte of a row, seen on the contents of the buffer. */
  lemma ExpandedByte(was: seq<byte>, now: seq<byte>, base: nat, stride: nat, depth: nat, scale: nat, k: nat, cur: nat, from: nat, n: nat)
    requires depth in {1, 2, 4} && (scale == 1 || scale == GreyScale(depth))
    requires 1 <= n <= k && (n == k || n == PerByte(depth)) && n <= PerByte(depth)
    requires base <= cur && cur + n - 1 <= from < base + stride <= |was|
    requires k <= PerByte(depth) * (base + stride - from)
    requires |now| == |was| && now == was[..cur] + Samples(was[from], depth, scale, n) + was[cur + n..]
    ensures now[..base] == was[..base] && now[base + stride..] == was[base + stride..]
    ensures k - n <= PerByte(depth) * (base + stride - from - 1)
    ensures was[base..cur] + Unpacked(was[from..base + stride], depth, scale, k) ==
            now[base..cur + n] + Unpacked(now[from + 1..base + stride], depth, scale, k - n)
  {
    hide Samples, GreyScale;
    var end := base + stride;
    var rest := was[from..end];
    assert now[base..cur + n] == was[base..cur] + Samples(was[from], depth, scale, n);
    assert now[from + 1..end] == was[from + 1..end] == rest[1..];
    assert rest[0] == was[from];
    if n == k {
      assert Unpacked(rest, depth, scale, k) == Samples(rest[0], depth, scale, k);
      assert Unpacked(rest[1..], depth, scale, 0) == [];
    }
  }

  /** While a row is expanded: k samples are still packed at `from`, and what has been
      expanded, followed by what they expand to, is the whole row. */
  ghost predicate Expanding(out: seq<byte>, base: nat, stride: nat, depth: nat, scale: nat, x: nat, k: nat, cur: nat, from: nat,
                            want: seq<byte>)
    requires depth in {1, 2, 4} && (scale == 1 || scale == GreyScale(depth))
  {
    && k <= x <= stride && base + stride <= |out| && cur == base + (x - k)
    && PackedSize(k, depth) <= k <= PerByte(depth) * PackedSize(k, depth)
    && from == base + stride - PackedSize(k, depth)
    && want == out[base..cur] + Unpacked(out[from..base + stride], depth, scale, k)
  }

  lemma ExpandingStart(out: seq<byte>, base: nat, stride: nat, depth: nat, scale: nat, x: nat)
    requires depth in {1, 2, 4} && (scale == 1 || scale == GreyScale(depth)) && x <= stride && base + stride <= |out|
    ensures PackedSize(x, depth) <= x <= PerByte(depth) * PackedSize(x, depth)
    ensures var from := base + stride - PackedSize(x, depth);
            Expanding(out, base, stride, depth, scale, x, x, base, from, Unpacked(out[from..base + stride], depth, scale, x))
  {
    hide PackedSize, Unpacked, GreyScale;
    PackedSizes(x, depth);
    assert out[base..base] == [];
  }

  /** There is room for the samples of the next byte up to that byte. */
  lemma ExpandingRoom(out: seq<byte>, base: nat, stride: nat, depth: nat, scale: nat, x: nat, k: nat, cur: nat, from: nat,
                      want: seq<byte>, n: nat)
    requires depth in {1, 2, 4} && (scale == 1 || scale == GreyScale(depth))
    requires Expanding(out, base, stride, depth, scale, x, k, cur, from, want)
    requires 1 <= n <= k && n == if k < PerByte(depth) then k else PerByte(depth)
    ensures base <= cur && cur + n - 1 <= from < base + stride <= |out|
  {
    hide PackedSize, Unpacked, GreyScale;
    PackedSizes(k, depth);
  }

  lemma ExpandingStep(was: seq<byte>, now: seq<byte>, base: nat, stride: nat, depth: nat, scale: nat, x: nat, k: nat, cur: nat,
                      from: nat, want: seq<byte>, n: nat)
    requires depth in {1, 2, 4} && (scale == 1 || scale == GreyScale(depth))
    requires Expanding(was, base, stride, depth, scale, x, k, cur, from, want)
    requires 1 <= n <= k && n == if k < PerByte(depth) then k else PerByte(depth)
    requires from < |was| == |now| && cur + n - 1 <= from && now == was[..cur] + Samples(was[from], depth, scale, n) + was[cur + n..]
    ensures Expanding(now, base, stride, depth, scale, x, k - n, cur + n, from + 1, want)
    ensures now[..base] == was[..base] && now[base + stride..] == was[base + stride..]
  {
    hide PackedSize, Unpacked, Samples, GreyScale;
    PackedSizes(k, depth);
    PackedSizes(k - n, depth);
    if k < PerByte(depth) { NothingLeft(depth); }
    ExpandedByte(was, now, base, stride, depth, scale, k, cur, from, n);
  }

  lemma NothingLeft(depth: nat)
    requires depth in {1, 2, 4}
    ensures PackedSize(0, depth) == 0
  {
  }

  /** Expands a packed row that stands at the right end of its stride. Every packed byte is
      read before it is overwritten: sample i ends up at position i. */
  method ExpandRow(out: array<byte>, base: nat, stride: nat, depth: nat, scale: nat, x: nat)
    requires depth in {1, 2, 4} && (scale == 1 || scale == GreyScale(depth))
    requires x <= stride && base + stride <= out.Length
    requires PackedSize(x, depth) <= x <= PerByte(depth) * PackedSize(x, depth)
    modifies out
    ensures var packed := old(out[base + stride - PackedSize(x, depth)..base + stride]);
            out[base..base + x] == Unpacked(packed, depth, scale, x)
    ensures out[..base] == old(out[..base]) && out[base + stride..] == old(out[base + stride..])
  {
    hide Samples, Sample, PackedSize, GreyScale, Unpacked, Expanding, PerByte;
    ghost var before := out[..];
    ghost var front, back := before[..base], before[base + stride..];
    ghost var packed := out[base + stride - PackedSize(x, depth)..base + stride];
    var k: nat, cur: nat, from: nat := x, base, base + stride - PackedSize(x, depth);
    assert before[from..base + stride] == packed;
    ExpandingStart(before, base, stride, depth, scale, x);
    ghost var want := Unpacked(before[from..base + stride], depth, scale, x);
    while k > 0
      invariant Expanding(out[..], base, stride, depth, scale, x, k, cur, from, want)
      invariant out[..][..base] == front && out[..][base + stride..] == back
      decreases k
    {
      var n := if k < PerByte(depth) then k else PerByte(depth);
      ghost var was := out[..];
      ExpandingRoom(was, base, stride, depth, scale, x, k, cur, from, want, n);
      ExpandByte(out, cur, from, depth, scale, n);
      ExpandingStep(was, out[..], base, stride, depth, scale, x, k, cur, from, want, n);
      cur, from, k := cur + n, from + 1, k - n;
    }
    ExpandingEnd(out[..], base, stride, depth, scale, x, cur, from, want);
    assert out[base..base + x] == out[..][base..base + x];
  }

  lemma ExpandingEnd(out: seq<byte>, base: nat, stride: nat, depth: nat, scale: nat, x: nat, cur: nat, from: nat, want: seq<byte>)
    requires depth in {1, 2, 4} && (scale == 1 || scale == GreyScale(depth))
    requires Expanding(out, base, stride, depth, scale, x, 0, cur, from, want)
    ensures base + x <= |out| && out[base..base + x] == want
  {
    hide GreyScale;
    assert Unpacked(out[from..base + stride], depth, scale, 0) == [];
  }

  /** Makes room for alpha after every sample, from the right end to the left. */
  method InsertAlpha(out: array<byte>, base: nat, x: nat)
    requires base + 2 * x <= out.Length
    modifies out
    ensures out[base..base + 2 * x] == Spread(old(out[base..base + x]), 1, 2)
    ensures out[..base] == old(out[..base]) && out[base + 2 * x..] == old(out[base + 2 * x..])
  {
    hide Spread;
    ghost var s := out[base..base + x];
    ghost var before := out[..];
    var q := x;
    assert s[x..] == [] && out[base + 2 * x..base + 2 * x] == [];
    EmptyRow();
    while q > 0
      invariant 0 <= q <= x
      invariant out[base..base + q] == s[..q]
      invariant out[base + 2 * q..base + 2 * x] == Spread(s[q..], 1, 2)
      invariant out[..base] == before[..base] && out[base + 2 * x..] == before[base + 2 * x..]
    {
      ghost var was := out[..];
      q := q - 1;
      out[base + 2 * q + 1] := 255;
      out[base + 2 * q] := out[base + q];
      assert was[base + q] == was[base..base + (q + 1)][q] == s[q];
      AlphaStep(was, out[..], base, x, q, s);
      assert out[base..base + q] == out[..][base..base + q] && out[base + 2 * q..base + 2 * x] == out[..][base + 2 * q..base + 2 * x];
      assert out[..base] == out[..][..base] && out[base + 2 * x..] == out[..][base + 2 * x..];
    }
    assert s[0..] == s;
  }

  lemma EmptyRow()
    ensures Spread([], 1, 2) == []
  {
  }

  lemma AlphaStep(was: seq<byte>, now: seq<byte>, base: nat, x: nat, q: nat, s: seq<byte>)
    requires q < x == |s| && base + 2 * x <= |was| && was[base + q] == s[q]
    requires now == was[base + 2 * q + 1 := 255][base + 2 * q := s[q]]
    requires was[base..base + (q + 1)] == s[..q + 1] && was[base + 2 * (q + 1)..base + 2 * x] == Spread(s[q + 1..], 1, 2)
    ensures now[base..base + q] == s[..q] && now[base + 2 * q..base + 2 * x] == Spread(s[q..], 1, 2)
    ensures now[..base] == was[..base] && now[base + 2 * x..] == was[base + 2 * x..]
  {
    var t := s[q..];
    assert t[..1] == [s[q]] && t[1..] == s[q + 1..];
    assert Spread(t, 1, 2) == [s[q]] + Opaque(1) + Spread(s[q + 1..], 1, 2);
    assert now[base + 2 * q..base + 2 * x] == [s[q]] + [255] + was[base + 2 * (q + 1)..base + 2 * x];
    forall p | 0 <= p < q ensures now[base + p] == s[p] {
      assert was[base..base + (q + 1)][p] == s[..q + 1][p];
    }
  }

  // ----- Packing

  /** Samples of depth bits each side by side in a number, the first one leftmost. */
  ghost function SideBySide(s: seq<nat>, depth: nat): nat {
    if s == [] then 0 else SideBySide(s[..|s| - 1], depth) * Pow2(depth) + s[|s| - 1]
  }

  ghost predicate Samplewise(s: seq<nat>, depth: nat) {
    forall i :: 0 <= i < |s| ==> s[i] < Pow2(depth)
  }

  lemma {:induction false} SideBySideSplit(s: seq<nat>, depth: nat, m: nat) returns (r: nat)
    requires m <= |s| && Samplewise(s, depth)
    ensures SideBySide(s, depth) == SideBySide(s[..|s| - m], depth) * Pow2(depth * m) + r && r < Pow2(depth * m)
    decreases m
  {
    hide Pow2, Samplewise;
    if m == 0 {
      assert s[..|s|] == s && depth * 0 == 0;
      Pow2Values();
      return 0;
    }
    var last := |s| - 1;
    ShorterPrefix(s, depth, m);
    var t := SideBySideSplit(s[..last], depth, m - 1);
    r := t * Pow2(depth) + s[last];
    TimesPred(depth, m);
    OneMore(SideBySide(s[..|s| - m], depth), t, s[last], depth, depth * (m - 1), depth * m);
  }

  lemma ShorterPrefix(s: seq<nat>, depth: nat, m: nat)
    requires 0 < m <= |s| && Samplewise(s, depth)
    ensures var last := |s| - 1;
            && Samplewise(s[..last], depth) && s[last] < Pow2(depth)
            && s[..last][..last - (m - 1)] == s[..|s| - m]
  {
    hide Pow2;
  }

  lemma OneMore(h: nat, t: nat, x: nat, depth: nat, k: nat, n: nat)
    requires n == k + depth && t < Pow2(k) && x < Pow2(depth)
    ensures (h * Pow2(k) + t) * Pow2(depth) + x == h * Pow2(n) + (t * Pow2(depth) + x)
    ensures t * Pow2(depth) + x < Pow2(n)
  {
    hide Pow2;
    Pow2Add(k, depth);
    MoveLeft(h, Pow2(k), t, Pow2(depth), x);
    BelowProduct(t, Pow2(k), x, Pow2(depth));
  }

  lemma TimesPred(d: nat, m: nat)
    requires m > 0
    ensures d * m == d * (m - 1) + d
  {
  }

  lemma MoveLeft(h: nat, p: nat, t: nat, d: nat, x: nat)
    ensures (h * p + t) * d + x == h * (p * d) + (t * d + x)
  {
    MulAdd(h * p, t, d);
    Regroup(h, p, d);
  }

  lemma Regroup(h: nat, p: nat, d: nat)
    ensures h * p * d == h * (p * d)
  {
  }

  lemma BelowProduct(t: nat, p: nat, r: nat, d: nat)
    requires t < p && r < d
    ensures t * d + r < p * d
  {
    MulMono(t + 1, p, d);
    MulAdd(t, 1, d);
  }

  lemma {:induction false} SideBySideBound(s: seq<nat>, depth: nat)
    requires Samplewise(s, depth)
    ensures SideBySide(s, depth) < Pow2(depth * |s|)
  {
    var r := SideBySideSplit(s, depth, |s|);
    assert s[..0] == [];
  }

  /** A byte holding these samples. */
  ghost function PackedByte(s: seq<nat>, depth: nat): byte
    requires depth in {1, 2, 4} && |s| == PerByte(depth) && Samplewise(s, depth)
  {
    SideBySideBound(s, depth);
    Pow2Values();
    assert depth * |s| == 8;
    SideBySide(s, depth)
  }

  lemma SampleOfPacked(s: seq<nat>, depth: nat, scale: nat, t: nat)
    requires depth in {1, 2, 4} && |s| == PerByte(depth) && Samplewise(s, depth) && t < |s|
    requires scale == 1 || scale == GreyScale(depth)
    ensures Sample(PackedByte(s, depth), depth, scale, t) == s[t] * scale
  {
    hide GreyScale, SideBySide;
    var m := |s| - 1 - t;
    var r := SideBySideSplit(s, depth, m);
    assert s[..|s| - m] == s[..t] + [s[t]];
    Groups(depth, |s|, t);
    DivMod(SideBySide(s, depth), Pow2(depth * m), SideBySide(s[..t + 1], depth), r);
    LastSample(s, depth, t);
  }

  lemma Groups(depth: nat, k: nat, t: nat)
    requires depth * k == 8 && t < k
    ensures 8 - depth * (t + 1) == depth * (k - 1 - t)
  {
  }

  lemma LastSample(s: seq<nat>, depth: nat, t: nat)
    requires t < |s| && Samplewise(s, depth)
    ensures SideBySide(s[..t + 1], depth) % Pow2(depth) == s[t]
  {
    var u := s[..t + 1];
    assert u[..|u| - 1] == s[..t];
    DivMod(SideBySide(u, depth), Pow2(depth), SideBySide(s[..t], depth), s[t]);
  }

  ghost function Padded(s: seq<nat>, n: nat): (r: seq<nat>)
    ensures |s| <= n ==> |r| == n
  {
    if |s| < n then s + seq(n - |s|, _ => 0) else s
  }

  /** A row of samples packed into bytes, the last byte filled up with zeros. */
  ghost function Packed(s: seq<nat>, depth: nat): (r: seq<byte>)
    requires depth in {1, 2, 4} && Samplewise(s, depth)
    ensures |s| <= PerByte(depth) * |r|
    decreases |s|
  {
    var k := PerByte(depth);
    Pow2Values();
    if s == [] then []
    else if |s| <= k then [PackedByte(Padded(s, k), depth)]
    else [PackedByte(s[..k], depth)] + Packed(s[k..], depth)
  }

  /** Unpacking undoes packing, for every number of samples: sample i comes out scaled at position i. */
  lemma {:induction false} UnpackedPacked(s: seq<nat>, depth: nat, scale: nat, i: nat)
    requires depth in {1, 2, 4} && Samplewise(s, depth) && (scale == 1 || scale == GreyScale(depth)) && i < |s|
    ensures Unpacked(Packed(s, depth), depth, scale, |s|)[i] == s[i] * scale
    decreases |s|
  {
    hide PackedByte, GreyScale, Sample, PerByte, Unpacked, Packed;
    var k := PerByte(depth);
    UnpackedStep(Packed(s, depth), depth, scale, |s|, i);
    PackedStep(s, depth);
    if i >= k {
      UnpackedPacked(s[k..], depth, scale, i - k);
    } else {
      var group := if |s| <= k then Padded(s, k) else s[..k];
      SampleOfPacked(group, depth, scale, i);
    }
  }

  /** The first byte holds the first group of samples, the other bytes the others. */
  lemma PackedStep(s: seq<nat>, depth: nat)
    requires depth in {1, 2, 4} && Samplewise(s, depth) && s != []
    ensures var k := PerByte(depth); var group := if |s| <= k then Padded(s, k) else s[..k];
            && Packed(s, depth) != [] && |group| == k && Samplewise(group, depth) && (forall i :: 0 <= i < |s| && i < k ==> group[i] == s[i])
            && Packed(s, depth)[0] == PackedByte(group, depth)
            && (|s| > k ==> Packed(s, depth)[1..] == Packed(s[k..], depth))
  {
    hide PackedByte, PerByte;
    Pow2Values();
  }
}
