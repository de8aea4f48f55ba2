/** The pixel grid of the working image and the mask arithmetic of the
    "peel" step: a quad is rasterised into an 8-bit mask, the mask is
    inverted with bitwise not, and the image is and-ed with itself under
    that mask. */
module Raster {
  import opened Geometry

  /** The channel values of one pixel (one value for a grey image, three
      for a colour one). */
  type Pixel = seq<bv8>

  /** Rows of pixels; `rows[y][x]` is the pixel at column x of row y. */
  datatype Image = Image(rows: seq<seq<Pixel>>)

  /** An 8-bit single-channel mask over an image's pixel grid. */
  type Mask = seq<seq<bv8>>

  /** The mask covers exactly the pixel grid of `img`. */
  predicate Covers(m: Mask, img: Image)
  {
    |m| == |img.rows| && forall y :: 0 <= y < |m| ==> |m[y]| == |img.rows[y]|
  }

  /** Two images have the same grid and the same channel count per pixel. */
  predicate SameShape(a: Image, b: Image)
  {
    && |a.rows| == |b.rows|
    && (forall y :: 0 <= y < |a.rows| ==> |a.rows[y]| == |b.rows[y]|)
    && (forall y, x :: 0 <= y < |a.rows| && 0 <= x < |a.rows[y]| ==> |a.rows[y][x]| == |b.rows[y][x]|)
  }

  /** A zero mask on the grid of `img` with `value` written on every pixel
      the rasteriser `inside` places inside the quad. */
  function FillConvexPoly(img: Image, q: Quad, value: bv8, inside: (Quad, int, int) -> bool): (m: Mask)
    ensures Covers(m, img)
    ensures forall y, x :: 0 <= y < |m| && 0 <= x < |m[y]| && inside(q, x, y) ==> m[y][x] == value
    ensures forall y, x :: 0 <= y < |m| && 0 <= x < |m[y]| && !inside(q, x, y) ==> m[y][x] == 0
  {
    seq(|img.rows|, y requires 0 <= y < |img.rows| =>
      seq(|img.rows[y]|, x => if inside(q, x, y) then value else 0))
  }

  /** Bitwise not of every mask entry. */
  function Invert(m: Mask): (r: Mask)
    ensures |r| == |m| && forall y :: 0 <= y < |m| ==> |r[y]| == |m[y]|
    ensures forall y, x :: 0 <= y < |m| && 0 <= x < |m[y]| ==> r[y][x] as int == 255 - m[y][x] as int
  {
    seq(|m|, y requires 0 <= y < |m| =>
      seq(|m[y]|, x requires 0 <= x < |m[y]| => !m[y][x]))
  }

  /** Channel-wise and of two pixels. */
  function AndPixel(p: Pixel, q: Pixel): (r: Pixel)
    requires |p| == |q|
    ensures |r| == |p|
  {
    seq(|p|, i requires 0 <= i < |p| => p[i] & q[i])
  }

  /** A pixel with every channel zero. */
  function Black(channels: nat): (r: Pixel)
    ensures |r| == channels && forall i :: 0 <= i < channels ==> r[i] == 0
  {
    seq(channels, i => 0)
  }

  /** `bitwise_and(a, b, mask=m)` into a fresh image: the and of the two
      sources wherever the mask is nonzero, zero elsewhere. */
  function BitwiseAndMasked(a: Image, b: Image, m: Mask): (r: Image)
    requires SameShape(a, b) && Covers(m, a)
    ensures SameShape(r, a)
  {
    Image(seq(|a.rows|, y requires 0 <= y < |a.rows| =>
      seq(|a.rows[y]|, x requires 0 <= x < |a.rows[y]| =>
        if m[y][x] != 0 then AndPixel(a.rows[y][x], b.rows[y][x]) else Black(|a.rows[y][x]|))))
  }

  /** The peel step as the program writes it: fill the quad with 1 in a zero
      mask, invert the mask, and and the image with itself under it. */
  function Peel(img: Image, q: Quad, inside: (Quad, int, int) -> bool): Image
  {
    BitwiseAndMasked(img, img, Invert(FillConvexPoly(img, q, 1, inside)))
  }

  /** The inverted mask is 254 inside the quad and 255 outside: it is never
      zero, so the masked and selects every pixel. */
  lemma InvertedMaskNeverZero(img: Image, q: Quad, inside: (Quad, int, int) -> bool)
    ensures var m := Invert(FillConvexPoly(img, q, 1, inside));
            forall y, x :: 0 <= y < |m| && 0 <= x < |m[y]| ==>
              m[y][x] == (if inside(q, x, y) then 254 else 255) && m[y][x] != 0
  {
    var f := FillConvexPoly(img, q, 1, inside);
    var m := Invert(f);
    forall y, x | 0 <= y < |m| && 0 <= x < |m[y]|
      ensures m[y][x] == (if inside(q, x, y) then 254 else 255)
    {
      assert f[y][x] == (if inside(q, x, y) then 1 else 0);
    }
  }

  lemma AndPixelSelf(p: Pixel)
    ensures AndPixel(p, p) == p
  {
    var r := AndPixel(p, p);
    forall i | 0 <= i < |p|
      ensures r[i] == p[i]
    {
      assert p[i] & p[i] == p[i];
    }
  }

  /** Peeling leaves the working image exactly as it was, whatever the quad
      and however it is rasterised. */
  lemma PeelLeavesImageUnchanged(img: Image, q: Quad, inside: (Quad, int, int) -> bool)
    ensures Peel(img, q, inside) == img
  {
    var m := Invert(FillConvexPoly(img, q, 1, inside));
    InvertedMaskNeverZero(img, q, inside);
    var r := Peel(img, q, inside);
    assert |r.rows| == |img.rows|;
    forall y | 0 <= y < |img.rows|
      ensures r.rows[y] == img.rows[y]
    {
      forall x | 0 <= x < |img.rows[y]|
        ensures r.rows[y][x] == img.rows[y][x]
      {
        assert m[y][x] != 0;
        AndPixelSelf(img.rows[y][x]);
      }
    }
  }
}
