/**
  An abstract RGBA raster and the handful of image-library operations the
  snapshot comparator relies on: creating a filled canvas, pasting an image
  onto a canvas with its own alpha band as the mask, the per-channel absolute
  difference of two images, and the "is there a bounding box" test.
 */
module Raster {

  /** One 8-bit colour channel. */
  type Channel = c: int | 0 <= c < 256

  /** An RGBA pixel; `a` is the alpha band (0 = fully transparent, 255 = opaque). */
  datatype Pixel = Pixel(r: Channel, g: Channel, b: Channel, a: Channel)

  /** The background of a fresh padding canvas. */
  const Transparent: Pixel := Pixel(0, 0, 0, 0)

  /** A grid of pixels stored row by row: `rows[y][x]` is the pixel at column x, row y. */
  datatype Grid = Grid(width: nat, height: nat, rows: seq<seq<Pixel>>) {
    predicate Valid() {
      |rows| == height && forall y :: 0 <= y < |rows| ==> |rows[y]| == width
    }
  }

  /** An RGBA image: a grid whose rows all have the stated width. */
  type Image = g: Grid | g.Valid() witness Grid(0, 0, [])

  function At(img: Image, x: nat, y: nat): Pixel
    requires x < img.width && y < img.height
  {
    img.rows[y][x]
  }

  predicate InBounds(img: Image, x: nat, y: nat) {
    x < img.width && y < img.height
  }

  /** The image of the given size whose pixel at (x, y) is `f(x, y)`. */
  function Build(width: nat, height: nat, f: (nat, nat) -> Pixel): (r: Image)
    ensures r.width == width && r.height == height
  {
    Grid(width, height, seq(height, (y: int) requires 0 <= y => seq(width, (x: int) requires 0 <= x => f(x, y))))
  }

  lemma BuildAt(width: nat, height: nat, f: (nat, nat) -> Pixel, x: nat, y: nat)
    requires x < width && y < height
    ensures At(Build(width, height, f), x, y) == f(x, y)
  {
  }

  /** `Image.new("RGBA", (width, height), colour)`. */
  function New(width: nat, height: nat, colour: Pixel): (r: Image)
    ensures r.width == width && r.height == height
  {
    Build(width, height, (x: nat, y: nat) => colour)
  }

  /** Every pixel of a new image is the colour it was created with. */
  lemma NewAt(width: nat, height: nat, colour: Pixel, x: nat, y: nat)
    requires x < width && y < height
    ensures At(New(width, height, colour), x, y) == colour
  {
    BuildAt(width, height, (x: nat, y: nat) => colour, x, y);
  }

  // ---------------------------------------------------------------------------
  // Compositing, as the image library does it for a paste through an RGBA mask

  /** Integer division by 255 rounded to nearest, computed with shifts: ((t + 128) >> 8 + t + 128) >> 8. */
  function Div255(t: nat): nat {
    ((t + 128) / 256 + t + 128) / 256
  }

  lemma Div255Bound(t: nat)
    requires t <= 255 * 255
    ensures Div255(t) <= 255
  {
    assert (t + 128) / 256 <= 254;
  }

  /** Dividing an exact multiple of 255 loses nothing. */
  lemma Div255Exact(c: Channel)
    ensures Div255(c * 255) == c
  {
    var t := c * 255 + 128;
    if c <= 128 {
      assert t == 256 * c + (128 - c);
      assert t / 256 == c;
      assert c + t == 256 * c + 128;
    } else {
      assert t == 256 * (c - 1) + (384 - c);
      assert t / 256 == c - 1;
      assert c - 1 + t == 256 * c + 127;
    }
  }

  lemma {:induction false} MulMonotone(a: nat, b: nat, k: nat)
    requires a <= b
    ensures 0 <= a * k <= b * k
  {
    if k > 0 {
      MulMonotone(a, b, k - 1);
      assert a * k == a * (k - 1) + a;
      assert b * k == b * (k - 1) + b;
    }
  }

  lemma WeightedSumBound(mask: Channel, under: Channel, over: Channel)
    ensures 0 <= under * (255 - mask) + over * mask <= 255 * 255
  {
    MulMonotone(under, 255, 255 - mask);
    MulMonotone(over, 255, mask);
    assert 255 * (255 - mask) + 255 * mask == 255 * 255;
  }

  /** One channel of `over` laid onto `under` with weight `mask` / 255. */
  function BlendChannel(mask: Channel, under: Channel, over: Channel): (c: Channel)
    ensures mask == 255 ==> c == over
    ensures mask == 0 ==> c == under
  {
    WeightedSumBound(mask, under, over);
    var t := under * (255 - mask) + over * mask;
    Div255Bound(t);
    if mask == 255 then Div255Exact(over); assert t == over * 255; Div255(t)
    else if mask == 0 then Div255Exact(under); assert t == under * 255; Div255(t)
    else Div255(t)
  }

  /**
    The pixel that results from pasting `over` onto `under` when `over`'s own
    alpha is the mask: all four bands, alpha included, are blended.
   */
  function Composite(under: Pixel, over: Pixel): (p: Pixel)
    ensures over.a == 255 ==> p == over
    ensures over.a == 0 ==> p == under
  {
    Pixel(BlendChannel(over.a, under.r, over.r),
          BlendChannel(over.a, under.g, over.g),
          BlendChannel(over.a, under.b, over.b),
          BlendChannel(over.a, under.a, over.a))
  }

  /**
    `canvas.paste(src, (0, 0), src)`: `src` is placed at the origin, clipped to
    the canvas, and composited through its own alpha band; the canvas keeps
    its size and every pixel `src` does not cover.
   */
  function Paste(canvas: Image, src: Image): (r: Image)
    ensures r.width == canvas.width && r.height == canvas.height
  {
    Build(canvas.width, canvas.height, (x: nat, y: nat) =>
      if !InBounds(canvas, x, y) then Transparent
      else if InBounds(src, x, y) then Composite(At(canvas, x, y), At(src, x, y))
      else At(canvas, x, y))
  }

  /**
    Each pixel of a paste: where `src` reaches, `src` composited over the
    canvas; elsewhere the canvas as it was.
   */
  lemma PasteAt(canvas: Image, src: Image, x: nat, y: nat)
    requires InBounds(canvas, x, y)
    ensures InBounds(src, x, y) ==> At(Paste(canvas, src), x, y) == Composite(At(canvas, x, y), At(src, x, y))
    ensures !InBounds(src, x, y) ==> At(Paste(canvas, src), x, y) == At(canvas, x, y)
  {
    BuildAt(canvas.width, canvas.height, (x: nat, y: nat) =>
      if !InBounds(canvas, x, y) then Transparent
      else if InBounds(src, x, y) then Composite(At(canvas, x, y), At(src, x, y))
      else At(canvas, x, y), x, y);
  }

  // ---------------------------------------------------------------------------
  // Difference and bounding box

  function AbsDiff(c: Channel, d: Channel): (e: Channel)
    ensures e == 0 <==> c == d
  {
    if c < d then d - c else c - d
  }

  /** The per-channel absolute difference of two pixels, alpha included. */
  function PixelDiff(p: Pixel, q: Pixel): (d: Pixel)
    ensures d == Transparent <==> p == q
    ensures d.a == 0 <==> p.a == q.a
  {
    Pixel(AbsDiff(p.r, q.r), AbsDiff(p.g, q.g), AbsDiff(p.b, q.b), AbsDiff(p.a, q.a))
  }

  /**
    `ImageChops.difference(img1, img2)`: per-channel absolute difference over
    the region the two images share (the top-left min-width by min-height area).
   */
  function Difference(img1: Image, img2: Image): (r: Image)
    ensures r.width == if img1.width < img2.width then img1.width else img2.width
    ensures r.height == if img1.height < img2.height then img1.height else img2.height
  {
    var w := if img1.width < img2.width then img1.width else img2.width;
    var h := if img1.height < img2.height then img1.height else img2.height;
    Build(w, h, (x: nat, y: nat) =>
      if x < w && y < h then PixelDiff(At(img1, x, y), At(img2, x, y)) else Transparent)
  }

  /** Each pixel of the difference is the channel-wise difference of the two pixels there. */
  lemma DifferenceAt(img1: Image, img2: Image, x: nat, y: nat)
    requires InBounds(img1, x, y) && InBounds(img2, x, y)
    ensures InBounds(Difference(img1, img2), x, y)
    ensures At(Difference(img1, img2), x, y) == PixelDiff(At(img1, x, y), At(img2, x, y))
  {
    var w := if img1.width < img2.width then img1.width else img2.width;
    var h := if img1.height < img2.height then img1.height else img2.height;
    BuildAt(w, h, (x: nat, y: nat) =>
      if x < w && y < h then PixelDiff(At(img1, x, y), At(img2, x, y)) else Transparent, x, y);
  }

  /**
    Whether a pixel lies inside the bounding box search: with `alphaOnly` (the
    library's default for an image with an alpha band) a pixel counts when its
    alpha is non-zero; otherwise when any of its channels is non-zero.
   */
  predicate Counted(p: Pixel, alphaOnly: bool) {
    if alphaOnly then p.a != 0 else p != Transparent
  }

  function RowHasCounted(row: seq<Pixel>, alphaOnly: bool): bool {
    if row == [] then false else Counted(row[0], alphaOnly) || RowHasCounted(row[1..], alphaOnly)
  }

  function RowsHaveCounted(rows: seq<seq<Pixel>>, alphaOnly: bool): bool {
    if rows == [] then false else RowHasCounted(rows[0], alphaOnly) || RowsHaveCounted(rows[1..], alphaOnly)
  }

  /**
    `img.getbbox(alpha_only=alphaOnly)` is not None: a scan of the rows finds a
    counted pixel.
   */
  function HasBBox(img: Image, alphaOnly: bool): (found: bool)
    ensures found <==> exists x: nat, y: nat :: InBounds(img, x, y) && Counted(At(img, x, y), alphaOnly)
  {
    RowsHaveCountedIff(img.rows, alphaOnly);
    if RowsHaveCounted(img.rows, alphaOnly) then
      var y :| 0 <= y < |img.rows| && RowHasCounted(img.rows[y], alphaOnly);
      RowHasCountedIff(img.rows[y], alphaOnly);
      var x :| 0 <= x < |img.rows[y]| && Counted(img.rows[y][x], alphaOnly);
      assert InBounds(img, x, y) && Counted(At(img, x, y), alphaOnly);
      true
    else
      forall x: nat, y: nat | InBounds(img, x, y) ensures !Counted(At(img, x, y), alphaOnly) {
        RowHasCountedIff(img.rows[y], alphaOnly);
      }
      false
  }

  lemma {:induction false} RowHasCountedIff(row: seq<Pixel>, alphaOnly: bool)
    ensures RowHasCounted(row, alphaOnly) <==> exists i :: 0 <= i < |row| && Counted(row[i], alphaOnly)
  {
    if row != [] {
      RowHasCountedIff(row[1..], alphaOnly);
      if RowHasCounted(row, alphaOnly) && !Counted(row[0], alphaOnly) {
        var i :| 0 <= i < |row[1..]| && Counted(row[1..][i], alphaOnly);
        assert Counted(row[i + 1], alphaOnly);
      }
      if exists i :: 0 <= i < |row| && Counted(row[i], alphaOnly) {
        var i :| 0 <= i < |row| && Counted(row[i], alphaOnly);
        if i > 0 {
          assert Counted(row[1..][i - 1], alphaOnly);
        }
      }
    }
  }

  lemma {:induction false} RowsHaveCountedIff(rows: seq<seq<Pixel>>, alphaOnly: bool)
    ensures RowsHaveCounted(rows, alphaOnly) <==> exists j :: 0 <= j < |rows| && RowHasCounted(rows[j], alphaOnly)
  {
    if rows != [] {
      RowsHaveCountedIff(rows[1..], alphaOnly);
      if RowsHaveCounted(rows, alphaOnly) && !RowHasCounted(rows[0], alphaOnly) {
        var j :| 0 <= j < |rows[1..]| && RowHasCounted(rows[1..][j], alphaOnly);
        assert RowHasCounted(rows[j + 1], alphaOnly);
      }
      if exists j :: 0 <= j < |rows| && RowHasCounted(rows[j], alphaOnly) {
        var j :| 0 <= j < |rows| && RowHasCounted(rows[j], alphaOnly);
        if j > 0 {
          assert RowHasCounted(rows[1..][j - 1], alphaOnly);
        }
      }
    }
  }
}
