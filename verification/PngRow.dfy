/** Reconstructing one row of a PNG image in the output buffer, with or without room
    for an added alpha channel. */
module PngRow {
  import opened Bytes
  import opened PngFilter

  /** The filters that look at the row above. */
  predicate NeedsAbove(filter: nat) {
    filter in {2, 3, 4}
  }

  lemma UndoIgnores(filter: nat, raw: byte, a: byte, b: byte, c: byte, b': byte, c': byte)
    requires !NeedsAbove(filter)
    ensures Undo(filter, raw, a, b, c) == Undo(filter, raw, a, b', c')
  {
  }

  /** The row above lies before this one in the buffer, if the filter needs it. */
  ghost predicate AboveAt(out: seq<byte>, prior: nat, base: nat, filter: nat, above: seq<byte>, fb: nat, ob: nat)
    requires 0 < fb <= ob
  {
    NeedsAbove(filter) ==>
      var stored := Spread(above, fb, ob);
      prior + |stored| <= base <= |out| && out[prior..prior + |stored|] == stored
  }

  /** Byte k of pixel i, which starts at byte n of the row, as found in the buffer. */
  lemma SpreadByte(row: seq<byte>, fb: nat, ob: nat, i: nat, n: nat, k: nat)
    requires 0 < fb <= ob && n == i * fb && n + fb <= |row| && k < fb
    ensures i * ob + k < |Spread(row, fb, ob)| && Spread(row, fb, ob)[i * ob + k] == row[n + k]
  {
    SpreadSplit(row, fb, ob, i, n);
    SpreadSize(row[..n], fb, ob, i);
    var rest := row[n..];
    assert Spread(rest, fb, ob) == rest[..fb] + Opaque(ob - fb) + Spread(rest[fb..], fb, ob);
    assert Spread(rest, fb, ob)[k] == rest[k];
  }

  /** Pixel i starts at byte n of the row and at cur in the buffer. */
  ghost predicate Aligned(i: nat, fb: nat, ob: nat, n: nat, base: nat, cur: nat) {
    n == i * fb && cur == base + i * ob
  }

  /** The row so far: pixel i starts at byte n of the row and at cur in the buffer, and the
      pixel before it, if any, is reconstructed. */
  ghost predicate RowReady(out: seq<byte>, base: nat, prior: nat, raw: seq<byte>, filter: nat, fb: nat, ob: nat,
                           above: seq<byte>, i: nat, n: nat, cur: nat)
  {
    && 0 < fb <= ob && |above| == |raw| && Aligned(i, fb, ob, n, base, cur) && n + fb <= |raw|
    && base <= cur && cur + ob <= |out|
    && AboveAt(out, prior, base, filter, above, fb, ob)
    && (n > 0 ==> cur >= base + ob && n >= fb
                  && out[cur - ob..cur - ob + fb] == Recon(filter, fb, above, raw)[n - fb..n])
  }

  /** Byte k of the pixel at cur. */
  method PixelByte(out: array<byte>, ghost base: nat, pr: nat, raw: seq<byte>, filter: nat, fb: nat, ob: nat,
                   ghost above: seq<byte>, ghost prior: nat, ghost i: nat, n: nat, cur: nat, k: nat) returns (v: byte)
    requires RowReady(out[..], base, prior, raw, filter, fb, ob, above, i, n, cur) && k < fb
    requires pr == prior + i * ob
    ensures v == Recon(filter, fb, above, raw)[n + k]
  {
    hide ReconAt, Predicted, Undo, Spread, Recon;
    var a: byte, b: byte, c: byte := 0, 0, 0;
    if n > 0 {
      a := out[cur - ob + k];
      assert a == out[..][cur - ob..cur - ob + fb][k];
    }
    if NeedsAbove(filter) {
      AboveByte(out[..], prior, base, filter, above, fb, ob, i, n, k);
      b := out[pr + k];
      if n > 0 { c := out[pr - ob + k]; }
    } else {
      UndoIgnores(filter, raw[n + k], a, b, c, above[n + k], Left(above, fb, n + k));
    }
    ReconStep(filter, fb, above, raw, n + k);
    StepValues(i, n, k, fb);
    v := Undo(filter, raw[n + k], a, b, c);
  }

  lemma RowReadyKept(out: seq<byte>, out': seq<byte>, base: nat, prior: nat, raw: seq<byte>, filter: nat, fb: nat, ob: nat,
                     above: seq<byte>, i: nat, n: nat, cur: nat)
    requires RowReady(out, base, prior, raw, filter, fb, ob, above, i, n, cur)
    requires |out'| == |out| && out'[..cur] == out[..cur]
    ensures RowReady(out', base, prior, raw, filter, fb, ob, above, i, n, cur)
  {
    hide Spread, Recon, Aligned;
    if NeedsAbove(filter) {
      var m := prior + |Spread(above, fb, ob)|;
      SamePart(out, out', cur, prior, m);
    }
    if n > 0 { SamePart(out, out', cur, cur - ob, cur - ob + fb); }
  }

  /** One pixel: raw bytes n..n + fb of the row become the pixel at cur. */
  method Pixel(out: array<byte>, ghost base: nat, pr: nat, raw: seq<byte>, filter: nat, fb: nat, ob: nat,
               ghost above: seq<byte>, ghost prior: nat, ghost i: nat, n: nat, cur: nat)
    requires RowReady(out[..], base, prior, raw, filter, fb, ob, above, i, n, cur)
    requires pr == prior + i * ob
    modifies out
    ensures out[..] == old(out[..cur]) + Recon(filter, fb, above, raw)[n..n + fb] + old(out[cur + fb..])
  {
    hide RowReady, Recon;
    ghost var before := out[..];
    RowBounds(before, base, prior, raw, filter, fb, ob, above, i, n, cur);
    ghost var x := Recon(filter, fb, above, raw);
    var k := 0;
    while k < fb
      invariant 0 <= k <= fb
      invariant out[..] == before[..cur] + x[n..n + k] + before[cur + k..]
    {
      FrontKept(before, x[n..n + k], before[cur + k..], out[..], cur);
      ghost var mid := out[..];
      RowReadyKept(before, mid, base, prior, raw, filter, fb, ob, above, i, n, cur);
      var v := PixelByte(out, base, pr, raw, filter, fb, ob, above, prior, i, n, cur, k);
      out[cur + k] := v;
      PixelNext(before, mid, out[..], cur, x, n, fb, k);
      k := k + 1;
    }
  }

  lemma FrontKept(before: seq<byte>, x: seq<byte>, rest: seq<byte>, now: seq<byte>, cur: nat)
    requires cur <= |before| && now == before[..cur] + x + rest && |now| == |before|
    ensures |now| == |before| && now[..cur] == before[..cur]
  {
  }

  lemma PixelNext(before: seq<byte>, mid: seq<byte>, now: seq<byte>, cur: nat, x: seq<byte>, n: nat, fb: nat, k: nat)
    requires k < fb && n + fb <= |x| && cur + fb <= |before|
    requires mid == before[..cur] + x[n..n + k] + before[cur + k..] && now == mid[cur + k := x[n + k]]
    ensures now == before[..cur] + x[n..n + (k + 1)] + before[cur + (k + 1)..]
  {
    var xs := x[n..n + fb];
    assert xs[..k] == x[n..n + k] && xs[..k + 1] == x[n..n + (k + 1)];
    WriteNext(before, mid, now, cur, xs, k);
  }

  lemma RowBounds(out: seq<byte>, base: nat, prior: nat, raw: seq<byte>, filter: nat, fb: nat, ob: nat,
                  above: seq<byte>, i: nat, n: nat, cur: nat)
    requires RowReady(out, base, prior, raw, filter, fb, ob, above, i, n, cur)
    ensures 0 < fb <= ob && |above| == |raw| && n + fb <= |raw| && base <= cur && cur + ob <= |out|
  {
  }

  lemma FirstStart(i: nat, fb: nat, ob: nat, n: nat)
    requires n == i * fb && n > 0
    ensures i > 0
  {
  }

  lemma StepValues(i: nat, n: nat, k: nat, fb: nat)
    requires n == i * fb && k < fb
    ensures n + k < fb <==> n == 0
    ensures n > 0 ==> n >= fb
  {
    if i > 0 { TimesLess(i, fb); }
  }

  lemma ReconStep(filter: nat, fb: nat, above: seq<byte>, raw: seq<byte>, m: nat)
    requires fb > 0 && |above| == |raw| && m < |raw|
    ensures Recon(filter, fb, above, raw)[m] ==
            Undo(filter, raw[m], if m < fb then 0 else Recon(filter, fb, above, raw)[m - fb], above[m], Left(above, fb, m))
  {
  }

  /** The bytes of the row above that a pixel refers to, in the buffer. */
  lemma AboveByte(out: seq<byte>, prior: nat, base: nat, filter: nat, above: seq<byte>, fb: nat, ob: nat, i: nat, n: nat, k: nat)
    requires 0 < fb <= ob && n == i * fb && n + fb <= |above| && k < fb
    requires NeedsAbove(filter) && AboveAt(out, prior, base, filter, above, fb, ob)
    ensures prior + i * ob + k < base <= |out| && out[prior + i * ob + k] == above[n + k]
    ensures n > 0 ==> i * ob >= ob && n >= fb && out[prior + i * ob - ob + k] == above[n - fb + k]
  {
    hide Spread;
    var stored := Spread(above, fb, ob);
    SpreadByte(above, fb, ob, i, n, k);
    assert out[prior + i * ob + k] == out[prior..prior + |stored|][i * ob + k];
    if n > 0 {
      FirstStart(i, fb, ob, n);
      TimesLess(i, fb);
      TimesLess(i, ob);
      SpreadByte(above, fb, ob, i - 1, n - fb, k);
      assert out[prior + (i - 1) * ob + k] == out[prior..prior + |stored|][(i - 1) * ob + k];
    }
  }

  /** The pixels so far, with their alpha, and one more. */
  lemma SpreadMore(row: seq<byte>, fb: nat, ob: nat, i: nat, n: nat)
    requires 0 < fb <= ob && n == i * fb && n + fb <= |row|
    ensures Spread(row[..n + fb], fb, ob) == Spread(row[..n], fb, ob) + row[n..n + fb] + Opaque(ob - fb)
    ensures |Spread(row[..n], fb, ob)| == i * ob && |Spread(row[..n + fb], fb, ob)| == i * ob + ob
  {
    var t := row[..n + fb];
    SpreadSplit(t, fb, ob, i, n);
    SpreadOne(t[n..], fb, ob);
    assert t[..n] == row[..n] && t[n..] == row[n..n + fb];
    SpreadSize(row[..n], fb, ob, i);
  }

  /** After i pixels, the next one finds its left neighbour and the row above in place. */
  lemma ReadyForPixel(before: seq<byte>, out: seq<byte>, base: nat, prior: nat, raw: seq<byte>, filter: nat, fb: nat, ob: nat,
                      above: seq<byte>, i: nat, n: nat, cur: nat)
    requires 0 < fb <= ob && |above| == |raw| && n == i * fb && n + fb <= |raw| && cur == base + i * ob && cur + ob <= |before|
    requires AboveAt(before, prior, base, filter, above, fb, ob)
    requires out == before[..base] + Spread(Recon(filter, fb, above, raw)[..n], fb, ob) + before[cur..]
    requires |out| == |before|
    ensures RowReady(out, base, prior, raw, filter, fb, ob, above, i, n, cur)
  {
    hide Spread, Recon;
    var x := Recon(filter, fb, above, raw);
    if NeedsAbove(filter) {
      var m := prior + |Spread(above, fb, ob)|;
      assert out[..base] == before[..base];
      assert out[prior..m] == out[..base][prior..m] == before[..base][prior..m] == before[prior..m];
    }
    if n > 0 {
      FirstStart(i, fb, ob, n);
      TimesLess(i, fb);
      TimesLess(i, ob);
      SpreadMore(x, fb, ob, i - 1, n - fb);
      LastPixel(before, out, base, cur, Spread(x[..n - fb], fb, ob), x[n - fb..n], fb, ob);
    }
  }

  lemma LastPixel(before: seq<byte>, out: seq<byte>, base: nat, cur: nat, head: seq<byte>, px: seq<byte>, fb: nat, ob: nat)
    requires 0 < fb <= ob && |px| == fb && base <= |before| && cur <= |before|
    requires cur == base + |head| + ob && out == before[..base] + (head + px + Opaque(ob - fb)) + before[cur..]
    ensures out[cur - ob..cur - ob + fb] == px
  {
  }

  lemma StoredAlpha(before: seq<byte>, mid: seq<byte>, base: nat, cur: nat, head: seq<byte>, px: seq<byte>, after: seq<byte>, fb: nat, ob: nat)
    requires 0 < fb <= ob && |px| == fb && cur == base + |head| && cur + ob <= |before|
    requires mid == before[..base] + head + px + before[cur + fb..]
    requires |after| == |mid| && after == mid[..cur + fb] + Opaque(ob - fb) + mid[cur + ob..]
    ensures after == before[..base] + (head + px + Opaque(ob - fb)) + before[cur + ob..]
  {
  }

  /** Writes opaque alpha after a pixel. */
  method Alpha(out: array<byte>, at: nat, n: nat)
    requires at + n <= out.Length
    modifies out
    ensures out[..] == old(out[..at]) + Opaque(n) + old(out[at + n..])
  {
    var j := 0;
    while j < n
      invariant 0 <= j <= n && out[..] == old(out[..at]) + Opaque(j) + old(out[at + j..])
    {
      ghost var mid := out[..];
      out[at + j] := 255;
      assert Opaque(n)[..j] == Opaque(j) && Opaque(n)[..j + 1] == Opaque(j + 1);
      WriteNext(old(out[..]), mid, out[..], at, Opaque(n), j);
      j := j + 1;
    }
  }

  /** One row: the raw bytes, reconstructed, stored pixel by pixel with opaque alpha if
      the output has one channel more. Nothing else in the buffer changes. */
  method Row(out: array<byte>, base: nat, prior: nat, raw: seq<byte>, filter: nat, fb: nat, ob: nat, x: nat, ghost above: seq<byte>)
    requires 0 < fb <= ob && |above| == |raw| == x * fb && base + x * ob <= out.Length
    requires AboveAt(out[..], prior, base, filter, above, fb, ob)
    modifies out
    ensures out[..] == old(out[..base]) + Spread(Recon(filter, fb, above, raw), fb, ob) + old(out[base + x * ob..])
    ensures |Spread(Recon(filter, fb, above, raw), fb, ob)| == x * ob
  {
    hide Spread, Recon, RowReady, AboveAt;
    ghost var before := out[..];
    ghost var r := Recon(filter, fb, above, raw);
    var i, n, cur, pr := 0, 0, base, prior;
    EmptySpread(r, fb, ob);
    while i < x
      invariant 0 <= i <= x && n == i * fb && cur == base + i * ob && pr == prior + i * ob
      invariant n <= |raw| && cur <= base + x * ob
      invariant |Spread(r[..n], fb, ob)| == i * ob
      invariant out[..] == before[..base] + Spread(r[..n], fb, ob) + before[cur..]
    {
      TimesNext(i, x, fb);
      TimesNext(i, x, ob);
      ReadyForPixel(before, out[..], base, prior, raw, filter, fb, ob, above, i, n, cur);
      Pixel(out, base, pr, raw, filter, fb, ob, above, prior, i, n, cur);
      ghost var mid := out[..];
      ghost var head := Spread(r[..n], fb, ob);
      PixelStored(before, mid, base, cur, head, r[n..n + fb], fb);
      Alpha(out, cur + fb, ob - fb);
      StoredAlpha(before, mid, base, cur, head, r[n..n + fb], out[..], fb, ob);
      SpreadMore(r, fb, ob, i, n);
      i, n, cur, pr := i + 1, n + fb, cur + ob, pr + ob;
    }
    assert r[..n] == r;
  }

  lemma EmptySpread(row: seq<byte>, fb: nat, ob: nat)
    requires 0 < fb <= ob
    ensures Spread(row[..0], fb, ob) == []
  {
  }

  lemma TimesNext(i: nat, x: nat, d: nat)
    requires i < x
    ensures (i + 1) * d == i * d + d <= x * d
  {
    TimesLess(i + 1, d);
    if i + 1 < x { TimesGrow(i + 1, x, d); }
  }

  lemma TimesGrow(i: nat, x: nat, d: nat)
    requires i <= x
    ensures i * d <= x * d
  {
  }

  lemma PixelStored(before: seq<byte>, mid: seq<byte>, base: nat, cur: nat, head: seq<byte>, px: seq<byte>, fb: nat)
    requires cur == base + |head| && |px| == fb && cur + fb <= |before|
    requires var was := before[..base] + head + before[cur..]; mid == was[..cur] + px + was[cur + fb..]
    ensures mid == before[..base] + head + px + before[cur + fb..]
  {
  }
}
