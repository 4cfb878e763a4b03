/** PNG row filters (section 6 of RFC 2083): filtering, reconstruction, and stb_image's
    reconstruction of one row in its output buffer. */
module PngFilter {
  import opened Bits
  import opened Bytes

  function Abs(x: int): nat {
    if x < 0 then -x else x
  }

  /** The Paeth predictor: whichever of a, b, c is closest to a + b - c, ties to a, then b. */
  function Paeth(a: int, b: int, c: int): (r: int)
    ensures r in {a, b, c}
    ensures forall v {:trigger Abs(a + b - c - v)} :: v in {a, b, c} ==> Abs(a + b - c - r) <= Abs(a + b - c - v)
  {
    var p := a + b - c;
    var pa, pb, pc := Abs(p - a), Abs(p - b), Abs(p - c);
    if pa <= pb && pa <= pc then a else if pb <= pc then b else c
  }

  const AVG_FIRST := 5
  const PAETH_FIRST := 6

  /** The filter used instead in the first row, which has no row above. */
  function FirstRow(filter: nat): nat
    requires filter <= 4
  {
    [0, 1, 0, AVG_FIRST, PAETH_FIRST][filter]
  }

  /** What a filter predicts from the byte to the left, the one above, and the one above that to the left. */
  function Predicted(filter: nat, a: byte, b: byte, c: byte): (r: byte) {
    match filter
    case 1 => a
    case 2 => b
    case 3 => (b as int + a) / 2
    case 4 => Paeth(a, b, c)
    case 5 => a / 2
    case 6 => Paeth(a, 0, 0)
    case _ => 0
  }

  function Undo(filter: nat, raw: byte, a: byte, b: byte, c: byte): byte {
    (raw as int + Predicted(filter, a, b, c)) % 256
  }

  /** The synthetic first-row filters are the ordinary ones under a row of zeros. */
  lemma FirstRowIsZeroRow(filter: nat, raw: byte, a: byte, b: byte, c: byte)
    requires filter <= 4
    ensures Undo(FirstRow(filter), raw, a, b, c) == Undo(filter, raw, a, 0, 0)
  {
  }

  // ----- Filtering and reconstructing a row; bpp is the distance to the byte on the left

  ghost function Left(row: seq<byte>, bpp: nat, i: nat): byte
    requires i < |row| + bpp && bpp > 0
  {
    if i < bpp then 0 else row[i - bpp]
  }

  ghost function Filtered(filter: nat, bpp: nat, prior: seq<byte>, row: seq<byte>): (r: seq<byte>)
    requires bpp > 0 && |prior| == |row|
    ensures |r| == |row|
  {
    seq(|row|, i requires 0 <= i < |row| =>
      (row[i] as int - Predicted(filter, Left(row, bpp, i), prior[i], Left(prior, bpp, i))) % 256)
  }

  ghost function ReconAt(filter: nat, bpp: nat, prior: seq<byte>, raw: seq<byte>, i: nat): byte
    requires bpp > 0 && |prior| == |raw| && i < |raw|
    decreases i
  {
    Undo(filter, raw[i], if i < bpp then 0 else ReconAt(filter, bpp, prior, raw, i - bpp), prior[i], Left(prior, bpp, i))
  }

  ghost function Recon(filter: nat, bpp: nat, prior: seq<byte>, raw: seq<byte>): (r: seq<byte>)
    requires bpp > 0 && |prior| == |raw|
    ensures |r| == |raw|
  {
    seq(|raw|, i requires 0 <= i < |raw| => ReconAt(filter, bpp, prior, raw, i))
  }

  lemma AddBack(x: byte, p: byte)
    ensures ((x as int - p) % 256 + p) % 256 == x
  {
  }

  lemma {:induction false} ReconFilteredAt(filter: nat, bpp: nat, prior: seq<byte>, row: seq<byte>, i: nat)
    requires bpp > 0 && |prior| == |row| && i < |row|
    ensures ReconAt(filter, bpp, prior, Filtered(filter, bpp, prior, row), i) == row[i]
    decreases i
  {
    hide Predicted;
    if i >= bpp { ReconFilteredAt(filter, bpp, prior, row, i - bpp); }
    AddBack(row[i], Predicted(filter, Left(row, bpp, i), prior[i], Left(prior, bpp, i)));
  }

  /** Reconstruction undoes filtering, for every filter and every row above. */
  lemma ReconUndoesFilter(filter: nat, bpp: nat, prior: seq<byte>, row: seq<byte>)
    requires bpp > 0 && |prior| == |row|
    ensures Recon(filter, bpp, prior, Filtered(filter, bpp, prior, row)) == row
  {
    hide ReconAt, Filtered;
    var r := Recon(filter, bpp, prior, Filtered(filter, bpp, prior, row));
    forall i | 0 <= i < |row| ensures r[i] == row[i] {
      ReconFilteredAt(filter, bpp, prior, row, i);
    }
  }

  // ----- What the filters mean

  /** Byte i of a reconstructed row and of the row above it; zero left of the row. */
  ghost function At(row: seq<byte>, i: int): int
    requires i < |row|
  {
    if i < 0 then 0 else row[i] as int
  }

  /** Of three neighbours, v is the one the Paeth filter takes: the closest to left + above - corner, and of
      those equally close the left one before the one above before the corner. */
  ghost predicate Nearest(v: int, left: int, above: int, corner: int) {
    var p := left + above - corner;
    && v in {left, above, corner}
    && Abs(p - v) <= Abs(p - left) && Abs(p - v) <= Abs(p - above) && Abs(p - v) <= Abs(p - corner)
    && (Abs(p - left) == Abs(p - v) ==> v == left)
    && (Abs(p - above) == Abs(p - v) && v != left ==> v == above)
  }

  /** There is only one such neighbour. */
  lemma NearestOnce(v: int, w: int, left: int, above: int, corner: int)
    requires Nearest(v, left, above, corner) && Nearest(w, left, above, corner)
    ensures v == w
  {
  }

  /** Section 6 of RFC 2083: what each filter type predicts. */
  ghost predicate Predicts(filter: nat, v: int, left: int, above: int, corner: int) {
    match filter
    case 0 => v == 0
    case 1 => v == left
    case 2 => v == above
    case 3 => 2 * v <= left + above <= 2 * v + 1
    case 4 => Nearest(v, left, above, corner)
    case _ => false
  }

  ghost predicate PredictsAt(filter: nat, v: int, bpp: nat, prior: seq<byte>, row: seq<byte>, i: nat)
    requires |prior| == |row| && i < |row|
  {
    Predicts(filter, v, At(row, i - bpp), At(prior, i), At(prior, i - bpp))
  }

  /** A reconstructed byte is the sum of the stored byte and what the filter type predicts from the bytes
      already reconstructed: the one a pixel to the left, the one above, and the one above that to the left. */
  lemma FilterMeaning(filter: nat, bpp: nat, prior: seq<byte>, raw: seq<byte>, i: nat)
    requires bpp > 0 && |prior| == |raw| && i < |raw| && filter <= 4
    ensures var row := Recon(filter, bpp, prior, raw);
            exists v: int :: PredictsAt(filter, v, bpp, prior, row, i) && row[i] as int == (raw[i] as int + v) % 256
  {
    hide Predicts, Predicted;
    var row := Recon(filter, bpp, prior, raw);
    var left: byte := if i < bpp then 0 else ReconAt(filter, bpp, prior, raw, i - bpp);
    PredictedMeaning(filter, left, prior[i], Left(prior, bpp, i));
    assert At(row, i - bpp) == left as int && At(prior, i - bpp) == Left(prior, bpp, i) as int;
    assert PredictsAt(filter, Predicted(filter, left, prior[i], Left(prior, bpp, i)), bpp, prior, row, i);
  }

  lemma PredictedMeaning(filter: nat, a: byte, b: byte, c: byte)
    requires filter <= 4
    ensures Predicts(filter, Predicted(filter, a, b, c), a, b, c)
  {
  }

  /** And the filter types predict one value only. */
  lemma PredictsOnce(filter: nat, v: int, w: int, left: int, above: int, corner: int)
    requires Predicts(filter, v, left, above, corner) && Predicts(filter, w, left, above, corner)
    ensures v == w
  {
    if filter == 4 { NearestOnce(v, w, left, above, corner); }
  }

  /** Filter 1 with nothing but zeros after the first pixel repeats that pixel. */
  lemma {:induction false} SubRepeats(bpp: nat, prior: seq<byte>, raw: seq<byte>, i: nat)
    requires bpp > 0 && |prior| == |raw| && i < |raw| && forall k :: bpp <= k < |raw| ==> raw[k] == 0
    ensures Recon(1, bpp, prior, raw)[i] == raw[i % bpp]
    decreases i
  {
    if i >= bpp {
      SubRepeats(bpp, prior, raw, i - bpp);
      assert i % bpp == (i - bpp) % bpp by { ModLess(i, bpp); }
    } else {
      ModSmall(i, bpp);
    }
  }

  lemma ModSmall(i: nat, d: nat)
    requires i < d
    ensures i % d == i
  {
  }

  lemma ModLess(i: nat, d: nat)
    requires 0 < d <= i
    ensures i % d == (i - d) % d
  {
    var q, r := (i - d) / d, (i - d) % d;
    assert i == (q + 1) * d + r;
    DivMod(i, d, q + 1, r);
  }

  /** Filter 2 with nothing but zeros repeats the row above. */
  lemma UpRepeats(bpp: nat, prior: seq<byte>, raw: seq<byte>)
    requires bpp > 0 && |prior| == |raw| && forall k :: 0 <= k < |raw| ==> raw[k] == 0
    ensures Recon(2, bpp, prior, raw) == prior
  {
  }

  // ----- Rows in the output buffer

  /** n bytes of an opaque alpha channel. */
  function Opaque(n: nat): (r: seq<byte>)
    ensures |r| == n && forall i :: 0 <= i < n ==> r[i] == 255
  {
    seq(n, _ => 255)
  }

  /** A row as stored: pixels of fb bytes, each followed by ob - fb bytes of alpha. */
  ghost function Spread(row: seq<byte>, fb: nat, ob: nat): seq<byte>
    requires 0 < fb <= ob
  {
    if |row| < fb then [] else row[..fb] + Opaque(ob - fb) + Spread(row[fb..], fb, ob)
  }

  lemma {:induction false} SpreadSize(row: seq<byte>, fb: nat, ob: nat, x: nat)
    requires 0 < fb <= ob && |row| == x * fb
    ensures |Spread(row, fb, ob)| == x * ob
  {
    if x == 0 {
    } else {
      TimesLess(x, fb);
      TimesLess(x, ob);
      SpreadSize(row[fb..], fb, ob, x - 1);
    }
  }

  lemma TimesLess(x: nat, d: nat)
    requires x > 0
    ensures x * d == (x - 1) * d + d >= d
  {
  }

  /** The pixels before position n and those from there on, n = x * fb. */
  lemma {:induction false} SpreadSplit(row: seq<byte>, fb: nat, ob: nat, x: nat, n: nat)
    requires 0 < fb <= ob && n == x * fb <= |row|
    ensures Spread(row, fb, ob) == Spread(row[..n], fb, ob) + Spread(row[n..], fb, ob)
  {
    if x == 0 {
      assert row[..0] == [] && row[0..] == row;
    } else {
      TimesLess(x, fb);
      SpreadSplit(row[fb..], fb, ob, x - 1, n - fb);
      SpreadHead(row, fb, ob, n);
    }
  }

  lemma SpreadHead(row: seq<byte>, fb: nat, ob: nat, n: nat)
    requires 0 < fb <= ob && fb <= n <= |row|
    requires Spread(row[fb..], fb, ob) == Spread(row[fb..][..n - fb], fb, ob) + Spread(row[fb..][n - fb..], fb, ob)
    ensures Spread(row, fb, ob) == Spread(row[..n], fb, ob) + Spread(row[n..], fb, ob)
  {
    assert row[..n][..fb] == row[..fb] && row[..n][fb..] == row[fb..][..n - fb] && row[fb..][n - fb..] == row[n..];
  }

  lemma SpreadOne(px: seq<byte>, fb: nat, ob: nat)
    requires 0 < fb <= ob && |px| == fb
    ensures Spread(px, fb, ob) == px + Opaque(ob - fb)
  {
    assert px[..fb] == px && px[fb..] == [];
  }

  /** Without alpha a row is stored as it is. */
  lemma {:induction false} SpreadSame(row: seq<byte>, fb: nat, x: nat)
    requires 0 < fb && |row| == x * fb
    ensures Spread(row, fb, fb) == row
  {
    if x > 0 {
      TimesLess(x, fb);
      SpreadSame(row[fb..], fb, x - 1);
      assert row == row[..fb] + Opaque(0) + row[fb..];
    }
  }
}
