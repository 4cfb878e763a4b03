/** Adam7 interlacing (section 2.6 of RFC 2083): seven reduced images whose pixels
    together are the whole image, and putting them back in place. */
module Adam7 {
  import opened Bytes
  import opened Bits
  import opened PngImage
  import opened PngDecode

  // ----- The seven passes

  function XOrig(p: nat): nat
    requires p < 7
  {
    [0, 4, 0, 2, 0, 1, 0][p]
  }

  function YOrig(p: nat): nat
    requires p < 7
  {
    [0, 0, 4, 0, 2, 0, 1][p]
  }

  function XSpacing(p: nat): nat
    requires p < 7
  {
    [8, 8, 4, 4, 2, 2, 1][p]
  }

  function YSpacing(p: nat): nat
    requires p < 7
  {
    [8, 8, 8, 4, 4, 2, 2][p]
  }

  function Width(p: nat, imgX: nat): nat
    requires p < 7 && imgX > 0
  {
    (imgX - XOrig(p) + XSpacing(p) - 1) / XSpacing(p)
  }

  function Height(p: nat, imgY: nat): nat
    requires p < 7 && imgY > 0
  {
    (imgY - YOrig(p) + YSpacing(p) - 1) / YSpacing(p)
  }

  /** A pixel of a pass: column i and row j of pass p. */
  datatype Spot = Spot(p: nat, i: nat, j: nat)

  function PassOf(x: nat, y: nat): (p: nat)
    ensures p < 7
  {
    if y % 2 == 1 then 6
    else if x % 2 == 1 then 5
    else if y % 4 == 2 then 4
    else if x % 4 == 2 then 3
    else if y % 8 == 4 then 2
    else if x % 8 == 4 then 1
    else 0
  }

  /** The pixel of a pass that becomes pixel (x, y) of the image. */
  function Owner(x: nat, y: nat): (s: Spot)
    ensures s.p < 7
  {
    var p := PassOf(x, y);
    Spot(p, x / XSpacing(p), y / YSpacing(p))
  }

  /** On one axis: how the residues hang together. */
  lemma AxisResidues(c: nat)
    ensures c % 8 == 0 <==> c % 4 == 0 && c % 8 != 4
    ensures c % 8 == 4 ==> c % 4 == 0
    ensures c % 4 == 0 <==> c % 2 == 0 && c % 4 != 2
    ensures c % 4 == 2 ==> c % 2 == 0
    ensures c % 2 == 0 || c % 2 == 1
    ensures c % 4 == c % 8 % 4 && c % 2 == c % 8 % 2
  {
    var q, r := c / 8, c % 8;
    DivMod(c, 4, 2 * q + r / 4, r % 4);
    DivMod(c, 2, 4 * q + r / 2, r % 2);
  }

  /** The residues that tell the passes apart. */
  lemma Residues(x: nat, y: nat, p: nat)
    requires p < 7
    ensures x % XSpacing(p) == XOrig(p) && y % YSpacing(p) == YOrig(p) <==> PassOf(x, y) == p
  {
    AxisResidues(x);
    AxisResidues(y);
    PassResidues(x % 2, x % 4, x % 8, y % 2, y % 4, y % 8, p);
    assert PassOf(x, y) == Passes(x % 2, x % 4, x % 8, y % 2, y % 4, y % 8);
  }

  /** The pass of a pixel, told from the residues of its column and row. */
  function Passes(x2: nat, x4: nat, x8: nat, y2: nat, y4: nat, y8: nat): nat {
    if y2 == 1 then 6
    else if x2 == 1 then 5
    else if y4 == 2 then 4
    else if x4 == 2 then 3
    else if y8 == 4 then 2
    else if x8 == 4 then 1
    else 0
  }

  function Residue(spacing: nat, c2: nat, c4: nat, c8: nat): nat {
    if spacing == 2 then c2 else if spacing == 4 then c4 else if spacing == 8 then c8 else 0
  }

  lemma PassResidues(x2: nat, x4: nat, x8: nat, y2: nat, y4: nat, y8: nat, p: nat)
    requires p < 7
    requires (x8 == 0 <==> x4 == 0 && x8 != 4) && (x8 == 4 ==> x4 == 0) && (x4 == 0 <==> x2 == 0 && x4 != 2) && (x4 == 2 ==> x2 == 0)
    requires (y8 == 0 <==> y4 == 0 && y8 != 4) && (y8 == 4 ==> y4 == 0) && (y4 == 0 <==> y2 == 0 && y4 != 2) && (y4 == 2 ==> y2 == 0)
    requires x2 < 2 && y2 < 2
    ensures Residue(XSpacing(p), x2, x4, x8) == XOrig(p) && Residue(YSpacing(p), y2, y4, y8) == YOrig(p)
            <==> Passes(x2, x4, x8, y2, y4, y8) == p
  {
  }

  /** The pass of each pixel of an 8 by 8 block, counted from 1 (section 2.6 of RFC 2083). */
  const PATTERN: seq<seq<nat>> := [
    [1, 6, 4, 6, 2, 6, 4, 6],
    [7, 7, 7, 7, 7, 7, 7, 7],
    [5, 6, 5, 6, 5, 6, 5, 6],
    [7, 7, 7, 7, 7, 7, 7, 7],
    [3, 6, 4, 6, 3, 6, 4, 6],
    [7, 7, 7, 7, 7, 7, 7, 7],
    [5, 6, 5, 6, 5, 6, 5, 6],
    [7, 7, 7, 7, 7, 7, 7, 7]]

  /** The passes repeat the pattern all over the image. */
  lemma PassPattern(x: nat, y: nat)
    ensures PassOf(x, y) + 1 == PATTERN[y % 8][x % 8]
  {
    AxisResidues(x);
    AxisResidues(y);
    PatternCell(x % 8, y % 8);
    assert PassOf(x, y) == Passes(x % 2, x % 4, x % 8, y % 2, y % 4, y % 8);
  }

  lemma PatternCell(x: nat, y: nat)
    requires x < 8 && y < 8
    ensures Passes(x % 2, x % 4, x, y % 2, y % 4, y) + 1 == PATTERN[y][x]
  {
  }

  /** On one axis: the place of a pixel within its pass. */
  lemma AxisCovered(c: nat, n: nat, origin: nat, d: nat)
    requires c < n && d > 0 && c % d == origin
    ensures c / d < (n - origin + d - 1) / d && c == c / d * d + origin
  {
    var q := c / d;
    assert c == q * d + origin;
    AtLeast(n - origin + d - 1, d, q + 1);
  }

  lemma AtLeast(a: nat, d: nat, k: nat)
    requires d > 0 && (k - 1) * d + d <= a
    ensures a / d >= k
  {
    var q, r := a / d, a % d;
    assert a == q * d + r;
    if q < k {
      MulMono(q, k - 1, d);
    }
  }

  /** On one axis: the place in the image of a pixel of a pass. */
  lemma AxisPlace(n: nat, origin: nat, d: nat, i: nat)
    requires n > 0 && origin < d && i < (n - origin + d - 1) / d
    ensures i * d + origin < n && (i * d + origin) / d == i && (i * d + origin) % d == origin
  {
    var a := n - origin + d - 1;
    DivMod(i * d + origin, d, i, origin);
    MulMono(i + 1, a / d, d);
    MulAdd(i, 1, d);
  }

  /** Every pixel of the image, however small, comes from a pixel within one of the passes. */
  lemma Covered(imgX: nat, imgY: nat, x: nat, y: nat)
    requires x < imgX && y < imgY
    ensures var s := Owner(x, y);
            && s.p < 7 && s.i < Width(s.p, imgX) && s.j < Height(s.p, imgY)
            && x == s.i * XSpacing(s.p) + XOrig(s.p) && y == s.j * YSpacing(s.p) + YOrig(s.p)
  {
    hide PassOf;
    var p := PassOf(x, y);
    Residues(x, y, p);
    AxisCovered(x, imgX, XOrig(p), XSpacing(p));
    AxisCovered(y, imgY, YOrig(p), YSpacing(p));
  }

  /** Every pixel of a pass belongs inside the image, and to a place of its own. */
  lemma OwnPlace(imgX: nat, imgY: nat, p: nat, i: nat, j: nat)
    requires imgX > 0 && imgY > 0 && p < 7 && i < Width(p, imgX) && j < Height(p, imgY)
    ensures var x, y := i * XSpacing(p) + XOrig(p), j * YSpacing(p) + YOrig(p);
            x < imgX && y < imgY && Owner(x, y) == Spot(p, i, j)
  {
    hide PassOf;
    AxisPlace(imgX, XOrig(p), XSpacing(p), i);
    AxisPlace(imgY, YOrig(p), YSpacing(p), j);
    Residues(i * XSpacing(p) + XOrig(p), j * YSpacing(p) + YOrig(p), p);
  }

  // ----- Pixels in a buffer

  /** Where pixel (x, y) stands, counted in pixels. */
  function Index(imgX: nat, x: nat, y: nat): nat {
    y * imgX + x
  }

  lemma IndexOnce(imgX: nat, x: nat, y: nat, x': nat, y': nat)
    requires x < imgX && x' < imgX && Index(imgX, x, y) == Index(imgX, x', y')
    ensures x == x' && y == y'
  {
    DivMod(y * imgX + x, imgX, y, x);
    DivMod(y' * imgX + x', imgX, y', x');
  }

  lemma IndexBound(imgX: nat, imgY: nat, x: nat, y: nat)
    requires x < imgX && y < imgY
    ensures Index(imgX, x, y) < imgX * imgY
  {
    TimesUp(imgX, y, imgY);
    assert y * imgX == imgX * y;
  }

  /** Pixel k of n bytes each. */
  ghost function PixelOf(s: seq<byte>, k: nat, n: nat): seq<byte> {
    if k * n + n <= |s| then s[k * n..k * n + n] else []
  }

  lemma PixelFits(k: nat, count: nat, n: nat)
    requires k < count
    ensures 0 <= k * n && k * n + n <= n * count
  {
    TimesUp(n, k, count);
    assert n * k == k * n;
  }

  /** Storing one pixel leaves the others as they are. */
  lemma PixelStored(was: seq<byte>, now: seq<byte>, k: nat, n: nat, px: seq<byte>)
    requires k * n + n <= |was| && |px| == n && now == was[..k * n] + px + was[k * n + n..]
    ensures |now| == |was| && PixelOf(now, k, n) == px
  {
  }

  lemma PixelKept(was: seq<byte>, now: seq<byte>, k: nat, n: nat, px: seq<byte>, m: nat)
    requires k * n + n <= |was| && |px| == n && now == was[..k * n] + px + was[k * n + n..] && m != k
    ensures PixelOf(now, m, n) == PixelOf(was, m, n)
  {
    if m < k {
      PixelFits(m, k, n);
      assert n * k == k * n;
    } else {
      PixelFits(k, m, n);
      assert n * m == m * n;
    }
  }

  /** memcpy of one pixel. */
  method CopyPixel(out: array<byte>, k: nat, img: seq<byte>, m: nat, n: nat)
    requires k * n + n <= out.Length && m * n + n <= |img|
    modifies out
    ensures out[..] == old(out[..k * n]) + PixelOf(img, m, n) + old(out[k * n + n..])
  {
    MovePixel(out, k * n, img[m * n..m * n + n]);
  }

  method MovePixel(out: array<byte>, b: nat, px: seq<byte>)
    requires b + |px| <= out.Length
    modifies out
    ensures out[..] == old(out[..b]) + px + old(out[b + |px|..])
  {
    ghost var before := out[..];
    var t := 0;
    while t < |px|
      invariant 0 <= t <= |px| && out[..] == before[..b] + px[..t] + before[b + t..]
    {
      ghost var mid := out[..];
      out[b + t] := px[t];
      WriteNext(before, mid, out[..], b, px, t);
      t := t + 1;
    }
    assert px[..t] == px;
  }

  // ----- The interlaced stream

  /** Bytes of the stream that a pass takes. */
  function PassBytes(f: Format, p: nat, imgX: nat, imgY: nat): nat
    requires p < 7 && imgX > 0 && imgY > 0
  {
    (f.RowBytes(Width(p, imgX)) + 1) * Height(p, imgY)
  }

  /** The images of passes p and later; a pass without pixels takes no bytes. */
  ghost function PassImages(raw: seq<byte>, f: Format, imgX: nat, imgY: nat, p: nat): Option<seq<seq<byte>>>
    requires f.Valid() && imgX > 0 && imgY > 0 && p <= 7
    decreases 7 - p, raw
  {
    if p == 7 then Some([])
    else
      var w, h := Width(p, imgX), Height(p, imgY);
      if w == 0 || h == 0 then Joined([[]], PassImages(raw, f, imgX, imgY, p + 1))
      else
        var n, image := PassBytes(f, p, imgX, imgY), Decoded(raw, f, w, h);
        if |raw| < n || image.None? then None
        else Joined([image.value], PassImages(raw[n..], f, imgX, imgY, p + 1))
  }

  // ----- Which pixels are in place

  /** Pixels of a pass are copied row by row. */
  predicate Earlier(s: Spot, p: nat, i: nat, j: nat) {
    s.p < p || (s.p == p && (s.j < j || (s.j == j && s.i < i)))
  }

  /** Pixel (x, y) of the image is the pixel of the pass it belongs to. */
  ghost predicate InPlace(out: seq<byte>, images: seq<seq<byte>>, imgX: nat, n: nat, x: nat, y: nat)
    requires imgX > 0
  {
    var s := Owner(x, y);
    s.p < |images| && PixelOf(out, Index(imgX, x, y), n) == PixelOf(images[s.p], Index(Width(s.p, imgX), s.i, s.j), n)
  }

  /** All pixels are in place that are copied before pixel (i, j) of pass p. */
  ghost predicate Placed(out: seq<byte>, images: seq<seq<byte>>, imgX: nat, imgY: nat, n: nat, p: nat, i: nat, j: nat)
    requires imgX > 0
  {
    forall x: nat, y: nat {:trigger InPlace(out, images, imgX, n, x, y)} ::
      x < imgX && y < imgY && Earlier(Owner(x, y), p, i, j) ==> InPlace(out, images, imgX, n, x, y)
  }

  /** The whole image is put together from the passes. */
  ghost predicate Assembled(out: seq<byte>, images: seq<seq<byte>>, imgX: nat, imgY: nat, n: nat)
    requires imgX > 0
  {
    |out| == n * (imgX * imgY)
    && forall x: nat, y: nat :: x < imgX && y < imgY ==> InPlace(out, images, imgX, n, x, y)
  }

  lemma PlacedPixel(was: seq<byte>, now: seq<byte>, images: seq<seq<byte>>, imgX: nat, imgY: nat, n: nat, p: nat, i: nat, j: nat,
                    k: nat, px: seq<byte>)
    requires imgX > 0 && imgY > 0 && p < 7 && p < |images| && i < Width(p, imgX) && j < Height(p, imgY)
    requires Placed(was, images, imgX, imgY, n, p, i, j)
    requires k == Index(imgX, i * XSpacing(p) + XOrig(p), j * YSpacing(p) + YOrig(p))
    requires px == PixelOf(images[p], Index(Width(p, imgX), i, j), n) && |px| == n
    requires k * n + n <= |was| && now == was[..k * n] + px + was[k * n + n..]
    ensures Placed(now, images, imgX, imgY, n, p, i + 1, j)
  {
    hide Owner, PixelOf, Index, Width, Height, XSpacing, YSpacing, XOrig, YOrig;
    var cx, cy := i * XSpacing(p) + XOrig(p), j * YSpacing(p) + YOrig(p);
    OwnPlace(imgX, imgY, p, i, j);
    PixelStored(was, now, k, n, px);
    forall x: nat, y: nat | x < imgX && y < imgY && Earlier(Owner(x, y), p, i + 1, j) ensures InPlace(now, images, imgX, n, x, y) {
      Covered(imgX, imgY, x, y);
      if Owner(x, y) != Spot(p, i, j) {
        assert InPlace(was, images, imgX, n, x, y);
        if Index(imgX, x, y) == k { IndexOnce(imgX, x, y, cx, cy); }
        PixelKept(was, now, k, n, px, Index(imgX, x, y));
      }
    }
  }

  lemma PlacedRow(out: seq<byte>, images: seq<seq<byte>>, imgX: nat, imgY: nat, n: nat, p: nat, j: nat)
    requires imgX > 0 && imgY > 0 && p < 7 && Placed(out, images, imgX, imgY, n, p, Width(p, imgX), j)
    ensures Placed(out, images, imgX, imgY, n, p, 0, j + 1)
  {
    hide Owner, InPlace, Width, Height, XSpacing, YSpacing, XOrig, YOrig;
    forall x: nat, y: nat | x < imgX && y < imgY && Earlier(Owner(x, y), p, 0, j + 1) ensures InPlace(out, images, imgX, n, x, y) {
      Covered(imgX, imgY, x, y);
    }
  }

  /** A pass is finished after its last row, and right away if it has no pixels. */
  lemma PlacedPass(out: seq<byte>, images: seq<seq<byte>>, imgX: nat, imgY: nat, n: nat, p: nat, j: nat)
    requires imgX > 0 && imgY > 0 && p < 7 && Placed(out, images, imgX, imgY, n, p, 0, j)
    requires j == Height(p, imgY) || Width(p, imgX) == 0
    ensures Placed(out, images, imgX, imgY, n, p + 1, 0, 0)
  {
    hide Owner, InPlace, Width, Height, XSpacing, YSpacing, XOrig, YOrig;
    forall x: nat, y: nat | x < imgX && y < imgY && Earlier(Owner(x, y), p + 1, 0, 0) ensures InPlace(out, images, imgX, n, x, y) {
      Covered(imgX, imgY, x, y);
    }
  }

  lemma PlacedMore(out: seq<byte>, images: seq<seq<byte>>, image: seq<byte>, imgX: nat, imgY: nat, n: nat)
    requires imgX > 0 && Placed(out, images, imgX, imgY, n, |images|, 0, 0)
    ensures Placed(out, images + [image], imgX, imgY, n, |images|, 0, 0)
  {
    hide Owner, PixelOf, Index, Width;
    forall x: nat, y: nat | x < imgX && y < imgY && Earlier(Owner(x, y), |images|, 0, 0)
      ensures InPlace(out, images + [image], imgX, n, x, y)
    {
      assert InPlace(out, images, imgX, n, x, y);
    }
  }

  lemma PlacedAll(out: seq<byte>, images: seq<seq<byte>>, imgX: nat, imgY: nat, n: nat)
    requires imgX > 0 && |out| == n * (imgX * imgY) && Placed(out, images, imgX, imgY, n, 7, 0, 0)
    ensures Assembled(out, images, imgX, imgY, n)
  {
    hide InPlace;
  }

  // ----- De-interlacing

  lemma PassRanges(imgX: nat, imgY: nat, p: nat, i: nat, j: nat, n: nat)
    requires imgX > 0 && imgY > 0 && p < 7 && i < Width(p, imgX) && j < Height(p, imgY)
    ensures var k := Index(imgX, i * XSpacing(p) + XOrig(p), j * YSpacing(p) + YOrig(p)); k * n + n <= n * (imgX * imgY)
    ensures var m := Index(Width(p, imgX), i, j); m * n + n <= n * (Width(p, imgX) * Height(p, imgY))
  {
    hide Owner, Index, Width, Height, XSpacing, YSpacing, XOrig, YOrig;
    OwnPlace(imgX, imgY, p, i, j);
    IndexBound(imgX, imgY, i * XSpacing(p) + XOrig(p), j * YSpacing(p) + YOrig(p));
    PixelFits(Index(imgX, i * XSpacing(p) + XOrig(p), j * YSpacing(p) + YOrig(p)), imgX * imgY, n);
    IndexBound(Width(p, imgX), Height(p, imgY), i, j);
    PixelFits(Index(Width(p, imgX), i, j), Width(p, imgX) * Height(p, imgY), n);
  }

  /** Copies the pixels of row j of a pass to their places. */
  method PlaceRow(out: array<byte>, image: seq<byte>, imgX: nat, imgY: nat, n: nat, p: nat, j: nat, ghost images: seq<seq<byte>>)
    requires imgX > 0 && imgY > 0 && p < 7 && j < Height(p, imgY) && p < |images| && images[p] == image
    requires |image| == n * (Width(p, imgX) * Height(p, imgY)) && out.Length == n * (imgX * imgY)
    requires Placed(out[..], images, imgX, imgY, n, p, 0, j)
    modifies out
    ensures Placed(out[..], images, imgX, imgY, n, p, 0, j + 1)
  {
    hide Placed, PixelOf, Index, Width, Height, XSpacing, YSpacing, XOrig, YOrig;
    var w := Width(p, imgX);
    var i: nat := 0;
    while i < w
      invariant 0 <= i <= w && Placed(out[..], images, imgX, imgY, n, p, i, j)
    {
      ghost var was := out[..];
      var k, m := Index(imgX, i * XSpacing(p) + XOrig(p), j * YSpacing(p) + YOrig(p)), Index(w, i, j);
      PassRanges(imgX, imgY, p, i, j, n);
      PixelSize(image, m, n);
      CopyPixel(out, k, image, m, n);
      PlacedPixel(was, out[..], images, imgX, imgY, n, p, i, j, k, PixelOf(image, m, n));
      i := i + 1;
    }
    PlacedRow(out[..], images, imgX, imgY, n, p, j);
  }

  lemma PixelSize(s: seq<byte>, k: nat, n: nat)
    requires k * n + n <= |s|
    ensures |PixelOf(s, k, n)| == n
  {
  }

  /** Copies the pixels of a pass to their places. */
  method PlacePass(out: array<byte>, image: seq<byte>, imgX: nat, imgY: nat, n: nat, p: nat, ghost images: seq<seq<byte>>)
    requires imgX > 0 && imgY > 0 && p < 7 && p < |images| && images[p] == image
    requires |image| == n * (Width(p, imgX) * Height(p, imgY)) && out.Length == n * (imgX * imgY)
    requires Placed(out[..], images, imgX, imgY, n, p, 0, 0)
    modifies out
    ensures Placed(out[..], images, imgX, imgY, n, p + 1, 0, 0)
  {
    hide Placed, Width, Height;
    var j: nat, h := 0, Height(p, imgY);
    while j < h
      invariant 0 <= j <= h && Placed(out[..], images, imgX, imgY, n, p, 0, j)
    {
      PlaceRow(out, image, imgX, imgY, n, p, j, images);
      j := j + 1;
    }
    PlacedPass(out[..], images, imgX, imgY, n, p, j);
  }

  lemma DecodedSize(raw: seq<byte>, f: Format, x: nat, y: nat)
    requires f.Valid() && Decoded(raw, f, x, y).Some?
    ensures |Decoded(raw, f, x, y).value| == f.PixelBytes() * (x * y) && |raw| >= (f.RowBytes(x) + 1) * y
  {
    hide Rows, Lines, Format.RowBytes, Format.PixelBytes, Format.FilterBytes;
    var rb, fb := f.RowBytes(x), f.FilterBytes();
    FilterBytesPositive(f);
    RowsEven(raw, 0, y, rb, fb, Zeros(rb));
    LinesSize(Rows(raw, 0, y, rb, fb, Zeros(rb)).value, f, x);
    Rearrange(x, f.PixelBytes(), y);
  }

  lemma Rearrange(x: nat, n: nat, y: nat)
    ensures x * n * y == n * (x * y)
  {
  }

  lemma JoinedTwice(a: seq<seq<byte>>, b: seq<seq<byte>>, rest: Option<seq<seq<byte>>>)
    ensures Joined(a, Joined(b, rest)) == Joined(a + b, rest)
  {
    if rest.Some? { assert a + b + rest.value == a + (b + rest.value); }
  }

  /** Decodes an interlaced image: it fails exactly when one of the passes does. */
  method Deinterlace(raw: seq<byte>, f: Format, imgX: nat, imgY: nat) returns (ok: bool, out: array<byte>)
    requires f.Valid() && imgX > 0 && imgY > 0
    ensures fresh(out)
    ensures match PassImages(raw, f, imgX, imgY, 0)
            case None => !ok
            case Some(images) => ok && Assembled(out[..], images, imgX, imgY, f.PixelBytes())
  {
    hide Placed, Decoded, Assembled, Width, Height, PassBytes, Format.PixelBytes;
    var n, data := f.PixelBytes(), raw;
    out := new byte[n * (imgX * imgY)];
    ghost var images: seq<seq<byte>> := [];
    var p: nat := 0;
    PlacedNone(out[..], imgX, imgY, n);
    JoinedNone(PassImages(raw, f, imgX, imgY, 0));
    while p < 7
      invariant 0 <= p <= 7 && |images| == p && fresh(out) && out.Length == n * (imgX * imgY)
      invariant Placed(out[..], images, imgX, imgY, n, p, 0, 0)
      invariant PassImages(raw, f, imgX, imgY, 0) == Joined(images, PassImages(data, f, imgX, imgY, p))
    {
      var w, h := Width(p, imgX), Height(p, imgY);
      if w > 0 && h > 0 {
        var done, image := CreateImageRaw(data, f, w, h);
        if !done { return false, out; }
        DecodedSize(data, f, w, h);
        PassSize(f, p, imgX, imgY);
        PlacedMore(out[..], images, image[..], imgX, imgY, n);
        PlacePass(out, image[..], imgX, imgY, n, p, images + [image[..]]);
        JoinedTwice(images, [image[..]], PassImages(data[PassBytes(f, p, imgX, imgY)..], f, imgX, imgY, p + 1));
        images, data := images + [image[..]], data[PassBytes(f, p, imgX, imgY)..];
      } else {
        PlacedMore(out[..], images, [], imgX, imgY, n);
        PlacedPass(out[..], images + [[]], imgX, imgY, n, p, 0);
        JoinedTwice(images, [[]], PassImages(data, f, imgX, imgY, p + 1));
        images := images + [[]];
      }
      p := p + 1;
    }
    assert images + [] == images;
    PlacedAll(out[..], images, imgX, imgY, n);
    ok := true;
  }

  /** Decodes an image, interlaced or not. */
  method CreateImage(raw: seq<byte>, f: Format, imgX: nat, imgY: nat, interlaced: bool) returns (ok: bool, out: array<byte>)
    requires f.Valid() && imgX > 0 && imgY > 0
    ensures fresh(out)
    ensures !interlaced ==> Decoded(raw, f, imgX, imgY) == if ok then Some(out[..]) else None
    ensures interlaced ==>
              match PassImages(raw, f, imgX, imgY, 0)
              case None => !ok
              case Some(images) => ok && Assembled(out[..], images, imgX, imgY, f.PixelBytes())
  {
    hide Decoded, PassImages, Assembled;
    if !interlaced {
      ok, out := CreateImageRaw(raw, f, imgX, imgY);
    } else {
      ok, out := Deinterlace(raw, f, imgX, imgY);
    }
  }

  lemma PlacedNone(out: seq<byte>, imgX: nat, imgY: nat, n: nat)
    requires imgX > 0
    ensures Placed(out, [], imgX, imgY, n, 0, 0, 0)
  {
    hide Owner;
  }

  lemma JoinedNone(rest: Option<seq<seq<byte>>>)
    ensures Joined([], rest) == rest
  {
    if rest.Some? { assert [] + rest.value == rest.value; }
  }

  lemma PassSize(f: Format, p: nat, imgX: nat, imgY: nat)
    requires p < 7 && imgX > 0 && imgY > 0
    ensures PassBytes(f, p, imgX, imgY) == (f.RowBytes(Width(p, imgX)) + 1) * Height(p, imgY)
  {
  }

  // ----- Interlacing and de-interlacing

  /** The image of pass p taken from a picture. */
  ghost predicate TakenFrom(image: seq<byte>, picture: seq<byte>, imgX: nat, imgY: nat, n: nat, p: nat)
    requires imgX > 0 && imgY > 0 && p < 7
  {
    forall i: nat, j: nat {:trigger Index(Width(p, imgX), i, j)} :: i < Width(p, imgX) && j < Height(p, imgY) ==>
      PixelOf(image, Index(Width(p, imgX), i, j), n)
        == PixelOf(picture, Index(imgX, i * XSpacing(p) + XOrig(p), j * YSpacing(p) + YOrig(p)), n)
  }

  /** The passes determine every byte of the image. */
  lemma AssembledOnce(out: seq<byte>, out': seq<byte>, images: seq<seq<byte>>, imgX: nat, imgY: nat, n: nat)
    requires imgX > 0 && Assembled(out, images, imgX, imgY, n) && Assembled(out', images, imgX, imgY, n)
    ensures out == out'
  {
    hide InPlace;
    forall b | 0 <= b < |out| ensures out[b] == out'[b] {
      ByteOfPixel(b, imgX, imgY, n);
      var k := b / n;
      SamePixel(out, out', images, imgX, n, k % imgX, k / imgX);
      SameByte(out, out', k, n, b);
    }
  }

  lemma ByteOfPixel(b: nat, imgX: nat, imgY: nat, n: nat)
    requires imgX > 0 && b < n * (imgX * imgY)
    ensures n > 0 && 0 <= b / n && 0 <= b / n % imgX < imgX && 0 <= b / n / imgX < imgY
    ensures Index(imgX, b / n % imgX, b / n / imgX) == b / n
    ensures b / n * n <= b < b / n * n + n <= n * (imgX * imgY)
  {
    Within(b, n, imgX * imgY);
    Within(b / n, imgX, imgY);
    PixelFits(b / n, imgX * imgY, n);
  }

  lemma Within(b: nat, n: nat, count: nat)
    requires b < n * count
    ensures n > 0 && 0 <= b / n < count && 0 <= b % n < n && b == b / n * n + b % n
  {
    if b / n >= count { MulMono(count, b / n, n); }
  }

  lemma SamePixel(out: seq<byte>, out': seq<byte>, images: seq<seq<byte>>, imgX: nat, n: nat, x: nat, y: nat)
    requires imgX > 0 && InPlace(out, images, imgX, n, x, y) && InPlace(out', images, imgX, n, x, y)
    ensures PixelOf(out, Index(imgX, x, y), n) == PixelOf(out', Index(imgX, x, y), n)
  {
  }

  lemma SameByte(out: seq<byte>, out': seq<byte>, k: nat, n: nat, b: nat)
    requires |out| == |out'| && k * n <= b < k * n + n <= |out| && PixelOf(out, k, n) == PixelOf(out', k, n)
    ensures out[b] == out'[b]
  {
    assert out[b] == PixelOf(out, k, n)[b - k * n] && out'[b] == PixelOf(out', k, n)[b - k * n];
  }

  /** De-interlacing undoes interlacing: if the passes are taken from a picture, that picture is put together. */
  lemma AssembledIsPicture(out: seq<byte>, picture: seq<byte>, images: seq<seq<byte>>, imgX: nat, imgY: nat, n: nat)
    requires imgX > 0 && imgY > 0 && |images| == 7 && |picture| == n * (imgX * imgY)
    requires forall p :: 0 <= p < 7 ==> TakenFrom(images[p], picture, imgX, imgY, n, p)
    requires Assembled(out, images, imgX, imgY, n)
    ensures out == picture
  {
    hide TakenFrom, Assembled, InPlace;
    forall x: nat, y: nat | x < imgX && y < imgY ensures InPlace(picture, images, imgX, n, x, y) {
      PictureInPlace(picture, images, imgX, imgY, n, x, y);
    }
    IsAssembled(picture, images, imgX, imgY, n);
    AssembledOnce(out, picture, images, imgX, imgY, n);
  }

  lemma IsAssembled(out: seq<byte>, images: seq<seq<byte>>, imgX: nat, imgY: nat, n: nat)
    requires imgX > 0 && |out| == n * (imgX * imgY)
    requires forall x: nat, y: nat :: x < imgX && y < imgY ==> InPlace(out, images, imgX, n, x, y)
    ensures Assembled(out, images, imgX, imgY, n)
  {
  }

  lemma PictureInPlace(picture: seq<byte>, images: seq<seq<byte>>, imgX: nat, imgY: nat, n: nat, x: nat, y: nat)
    requires imgX > 0 && imgY > 0 && |images| == 7 && x < imgX && y < imgY
    requires forall p :: 0 <= p < 7 ==> TakenFrom(images[p], picture, imgX, imgY, n, p)
    ensures InPlace(picture, images, imgX, n, x, y)
  {
    hide Owner, PixelOf, Index, Width, Height, XSpacing, YSpacing, XOrig, YOrig;
    Covered(imgX, imgY, x, y);
    var s := Owner(x, y);
    assert TakenFrom(images[s.p], picture, imgX, imgY, n, s.p);
    var m := Index(Width(s.p, imgX), s.i, s.j);
  }

  // ----- The interlaced stream of filtered rows

  /** Rows and filter types for the passes from p on, of the sizes the passes have. */
  ghost predicate Interlaceable(filters: seq<seq<nat>>, rows: seq<seq<seq<byte>>>, f: Format, imgX: nat, imgY: nat, p: nat)
    requires imgX > 0 && imgY > 0 && p <= 7
  {
    && |filters| == |rows| == 7 - p
    && forall q: nat :: q < |rows| ==>
         && |filters[q]| == |rows[q]| == Height(p + q, imgY) && Even(rows[q], f.RowBytes(Width(p + q, imgX)))
         && forall m: nat :: m < |filters[q]| ==> filters[q][m] <= 4
  }

  ghost function EncodedPasses(filters: seq<seq<nat>>, rows: seq<seq<seq<byte>>>, f: Format, imgX: nat, imgY: nat, p: nat): seq<byte>
    requires f.Valid() && imgX > 0 && imgY > 0 && p <= 7 && Interlaceable(filters, rows, f, imgX, imgY, p)
    decreases 7 - p, rows
  {
    if p == 7 then []
    else
      var w, rest := Width(p, imgX), EncodedPasses(filters[1..], rows[1..], f, imgX, imgY, p + 1);
      if w == 0 || Height(p, imgY) == 0 then rest
      else
        FilterBytesPositive(f);
        Encoded(filters[0], rows[0], f.RowBytes(w), f.FilterBytes(), Zeros(f.RowBytes(w))) + rest
  }

  /** What the passes look like when decoded. */
  ghost function PassLines(rows: seq<seq<seq<byte>>>, filters: seq<seq<nat>>, f: Format, imgX: nat, imgY: nat, p: nat): (r: seq<seq<byte>>)
    requires f.Valid() && imgX > 0 && imgY > 0 && p <= 7 && Interlaceable(filters, rows, f, imgX, imgY, p)
    ensures |r| == 7 - p
    decreases 7 - p, rows
  {
    if p == 7 then []
    else
      var w, rest := Width(p, imgX), PassLines(rows[1..], filters[1..], f, imgX, imgY, p + 1);
      [if w == 0 || Height(p, imgY) == 0 then [] else Lines(rows[0], f, w)] + rest
  }

  /** Every pass of an interlaced stream is decoded from its own part of it. */
  lemma {:induction false} PassesUndoEncoding(filters: seq<seq<nat>>, rows: seq<seq<seq<byte>>>, f: Format, imgX: nat, imgY: nat,
                                              p: nat, trailing: seq<byte>)
    requires f.Valid() && imgX > 0 && imgY > 0 && p <= 7 && Interlaceable(filters, rows, f, imgX, imgY, p)
    ensures PassImages(EncodedPasses(filters, rows, f, imgX, imgY, p) + trailing, f, imgX, imgY, p)
            == Some(PassLines(rows, filters, f, imgX, imgY, p))
    decreases 7 - p
  {
    hide Lines, Encoded, Decoded, Width, Height, Format.RowBytes, Format.FilterBytes;
    if p < 7 {
      PassesUndoEncoding(filters[1..], rows[1..], f, imgX, imgY, p + 1, trailing);
      var w, h := Width(p, imgX), Height(p, imgY);
      if w > 0 && h > 0 {
        var rest := EncodedPasses(filters[1..], rows[1..], f, imgX, imgY, p + 1);
        FilterBytesPositive(f);
        DecodedUndoesEncoding(f, w, filters[0], rows[0], rest + trailing);
        var first := Encoded(filters[0], rows[0], f.RowBytes(w), f.FilterBytes(), Zeros(f.RowBytes(w)));
        Parts(first, rest, trailing);
      }
    }
  }

  lemma Parts(first: seq<byte>, rest: seq<byte>, trailing: seq<byte>)
    ensures first + rest + trailing == first + (rest + trailing)
    ensures (first + (rest + trailing))[|first|..] == rest + trailing
  {
  }

  /** The decoded image of a pass that is not empty. */
  lemma {:induction false} PassLinesAt(rows: seq<seq<seq<byte>>>, filters: seq<seq<nat>>, f: Format, imgX: nat, imgY: nat, p: nat, q: nat)
    requires f.Valid() && imgX > 0 && imgY > 0 && p <= q < 7 && Interlaceable(filters, rows, f, imgX, imgY, p)
    requires Width(q, imgX) > 0 && Height(q, imgY) > 0
    ensures PassLines(rows, filters, f, imgX, imgY, p)[q - p] == Lines(rows[q - p], f, Width(q, imgX))
    decreases 7 - p
  {
    hide Lines, Width, Height, Format.RowBytes;
    if p < q { PassLinesAt(rows[1..], filters[1..], f, imgX, imgY, p + 1, q); }
  }

  /** Interlaced images come back: whatever picture the rows of the passes were taken from, however
      each row was filtered and whatever follows the data, decoding the stream gives that picture. */
  lemma InterlacedRoundTrip(filters: seq<seq<nat>>, rows: seq<seq<seq<byte>>>, f: Format, imgX: nat, imgY: nat,
                            trailing: seq<byte>, picture: seq<byte>)
    requires f.Valid() && imgX > 0 && imgY > 0 && Interlaceable(filters, rows, f, imgX, imgY, 0)
    requires |picture| == f.PixelBytes() * (imgX * imgY)
    requires forall p :: 0 <= p < 7 ==>
               TakenFrom(PassLines(rows, filters, f, imgX, imgY, 0)[p], picture, imgX, imgY, f.PixelBytes(), p)
    ensures var images := PassImages(EncodedPasses(filters, rows, f, imgX, imgY, 0) + trailing, f, imgX, imgY, 0);
            images.Some? && forall out :: Assembled(out, images.value, imgX, imgY, f.PixelBytes()) ==> out == picture
  {
    hide Assembled, TakenFrom, PassLines, PassImages, EncodedPasses, Interlaceable, Format.PixelBytes;
    PassesUndoEncoding(filters, rows, f, imgX, imgY, 0, trailing);
    var images := PassLines(rows, filters, f, imgX, imgY, 0);
    forall out | Assembled(out, images, imgX, imgY, f.PixelBytes()) ensures out == picture {
      AssembledIsPicture(out, picture, images, imgX, imgY, f.PixelBytes());
    }
  }

  /** The result of decoding an interlaced stream, if it decodes. */
  ghost predicate DecodedFrom(stream: seq<byte>, f: Format, imgX: nat, imgY: nat, out: seq<byte>)
    requires f.Valid() && imgX > 0 && imgY > 0
  {
    match PassImages(stream, f, imgX, imgY, 0)
    case None => true
    case Some(images) => Assembled(out, images, imgX, imgY, f.PixelBytes())
  }

  /** Byte k of pixel (x, y) shows the sample that was encoded for it in its pass. */
  ghost predicate PixelShows(out: seq<byte>, rows: seq<seq<seq<byte>>>, f: Format, imgX: nat, x: nat, y: nat, k: nat)
    requires f.Valid()
  {
    var s, at := Owner(x, y), Index(imgX, x, y) * f.PixelBytes() + k;
    s.p < |rows| && s.j < |rows[s.p]| && at < |out| && Shows(out[at], rows[s.p][s.j], f, s.i, k)
  }

  /** Every byte of every pixel of an interlaced image shows the sample that was encoded for it in its pass. */
  lemma InterlacedPixelsRestored(filters: seq<seq<nat>>, rows: seq<seq<seq<byte>>>, f: Format, imgX: nat, imgY: nat,
                                 trailing: seq<byte>, out: seq<byte>, x: nat, y: nat, k: nat)
    requires f.Valid() && imgX > 0 && imgY > 0 && Interlaceable(filters, rows, f, imgX, imgY, 0)
    requires x < imgX && y < imgY && k < f.PixelBytes()
    requires DecodedFrom(EncodedPasses(filters, rows, f, imgX, imgY, 0) + trailing, f, imgX, imgY, out)
    ensures PixelShows(out, rows, f, imgX, x, y, k)
  {
    hide Assembled, PassLines, PassImages, EncodedPasses, Lines, Shows, Owner, Index, PixelOf, Width, Height,
         Format.PixelBytes, Format.RowBytes, Format.FilterBytes, Encoded, Decoded;
    PassesUndoEncoding(filters, rows, f, imgX, imgY, 0, trailing);
    Covered(imgX, imgY, x, y);
    var s, n := Owner(x, y), f.PixelBytes();
    var w, images := Width(s.p, imgX), PassLines(rows, filters, f, imgX, imgY, 0);
    PassLinesAt(rows, filters, f, imgX, imgY, 0, s.p);
    FilterBytesPositive(f);
    var line, at := w * n * s.j, s.i * n + k;
    PixelsRestored(f, w, filters[s.p], rows[s.p], [], s.j, s.i, k, line, at);
    DecodedUndoesEncoding(f, w, filters[s.p], rows[s.p], []);
    LinePlace(w, n, s.i, s.j);
    AssembledAt(out, images, imgX, imgY, n, x, y);
    PlacedByte(out, Index(imgX, x, y), images[s.p], Index(w, s.i, s.j), n, k, imgX, imgY, x, y);
  }

  lemma LinePlace(w: nat, n: nat, i: nat, j: nat)
    ensures Index(w, i, j) * n == w * n * j + i * n
  {
  }

  lemma AssembledAt(out: seq<byte>, images: seq<seq<byte>>, imgX: nat, imgY: nat, n: nat, x: nat, y: nat)
    requires imgX > 0 && x < imgX && y < imgY && Assembled(out, images, imgX, imgY, n)
    ensures |out| == n * (imgX * imgY) && InPlace(out, images, imgX, n, x, y)
  {
    hide InPlace;
  }

  lemma PlacedByte(out: seq<byte>, a: nat, image: seq<byte>, b: nat, n: nat, k: nat, imgX: nat, imgY: nat, x: nat, y: nat)
    requires x < imgX && y < imgY && a == Index(imgX, x, y) && |out| == n * (imgX * imgY)
    requires PixelOf(out, a, n) == PixelOf(image, b, n) && k < n && b * n + k < |image|
    ensures a * n + k < |out| && out[a * n + k] == image[b * n + k]
  {
    IndexBound(imgX, imgY, x, y);
    PixelFits(a, imgX * imgY, n);
    assert out[a * n + k] == PixelOf(out, a, n)[k];
  }
}
