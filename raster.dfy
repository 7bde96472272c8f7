/** Pixels and rasters: the part of Go's image and image/draw packages that
    the packer relies on. Every image here has its bounds at the origin. An
    image that is only read (an image.Image, seen through Bounds and At) is a
    value holding its columns of pixels; a buffer that is written in place
    (an image.NRGBA) is an array2 indexed [x, y]. */
module Raster {

  /** One 8-bit channel of a non-premultiplied RGBA colour. */
  type Channel = c: int | 0 <= c < 256

  /** A pixel as image.NRGBA stores it. Pixels are copied, never converted. */
  datatype Pixel = Pixel(r: Channel, g: Channel, b: Channel, a: Channel)

  /** The zero colour: what a fresh buffer holds and what a read outside the
      bounds returns. */
  const Transparent: Pixel := Pixel(0, 0, 0, 0)

  /** An image value as its columns: img[x][y] is the pixel at (x, y). */
  type Image = seq<seq<Pixel>>

  function Max(a: int, b: int): int { if a < b then b else a }

  function Min(a: int, b: int): int { if a < b then a else b }

  function Width(img: Image): nat { |img| }

  function Height(img: Image): nat { if |img| == 0 then 0 else |img[0]| }

  /** img measures exactly w columns by h rows. */
  predicate HasSize(img: Image, w: int, h: int) {
    |img| == w && forall x :: 0 <= x < |img| ==> |img[x]| == h
  }

  /** Every column has the same height. */
  predicate IsRaster(img: Image) {
    HasSize(img, Width(img), Height(img))
  }

  /** image.Image.At: the pixel at (x, y), or the zero colour outside the bounds. */
  function At(img: Image, x: int, y: int): Pixel {
    if 0 <= x < |img| && 0 <= y < |img[x]| then img[x][y] else Transparent
  }

  /** A w by h image of zero pixels, as image.NewNRGBA allocates it. */
  function Blank(w: nat, h: nat): (r: Image)
    ensures HasSize(r, w, h)
  {
    seq(w, x => seq(h, y => Transparent))
  }

  /** The image value a buffer currently holds. */
  function Snapshot(a: array2<Pixel>): (r: Image)
    reads a
    ensures HasSize(r, a.Length0, a.Length1)
  {
    seq(a.Length0, x requires 0 <= x < a.Length0 reads a =>
      seq(a.Length1, y requires 0 <= y < a.Length1 reads a => a[x, y]))
  }

  /** A buffer that agrees with t pixel by pixel holds t. */
  lemma SnapshotEquals(a: array2<Pixel>, t: Image)
    requires HasSize(t, a.Length0, a.Length1)
    requires forall x, y :: 0 <= x < a.Length0 && 0 <= y < a.Length1 ==> a[x, y] == t[x][y]
    ensures Snapshot(a) == t
  {
    var s := Snapshot(a);
    forall x | 0 <= x < a.Length0
      ensures s[x] == t[x]
    {
    }
  }

  /** img.Set(x, y, c) on an NRGBA buffer: a write outside the bounds does nothing. */
  method SetPixel(img: array2<Pixel>, x: int, y: int, c: Pixel)
    modifies img
    ensures forall i, j :: 0 <= i < img.Length0 && 0 <= j < img.Length1 ==>
      img[i, j] == (if i == x && j == y then c else old(img[i, j]))
  {
    if 0 <= x < img.Length0 && 0 <= y < img.Length1 {
      img[x, y] := c;
    }
  }

  /** (x, y) lies in the rectangle that src covers once its origin is moved to (ox, oy). */
  predicate Covers(src: Image, ox: int, oy: int, x: int, y: int) {
    ox <= x < ox + Width(src) && oy <= y < oy + Height(src)
  }

  /** What draw.Draw(dst, src.Bounds().Add(o), src, image.ZP, draw.Src) leaves
      in dst: inside the moved rectangle the source pixel, elsewhere dst as it
      was; nothing outside dst's bounds. */
  function DrawImage(dst: Image, src: Image, ox: int, oy: int): (r: Image)
    ensures |r| == |dst| && forall x :: 0 <= x < |r| ==> |r[x]| == |dst[x]|
  {
    seq(|dst|, x requires 0 <= x < |dst| =>
      seq(|dst[x]|, y requires 0 <= y < |dst[x]| =>
        if Covers(src, ox, oy, x, y) then At(src, x - ox, y - oy) else dst[x][y]))
  }

  /** One pixel of DrawImage's result: an unfolding of its definition, stated
      so that callers can reason pixel by pixel. */
  lemma DrawImageAt(dst: Image, src: Image, ox: int, oy: int, x: int, y: int)
    requires 0 <= x < |dst| && 0 <= y < |dst[x]|
    ensures DrawImage(dst, src, ox, oy)[x][y]
      == if Covers(src, ox, oy, x, y) then At(src, x - ox, y - oy) else dst[x][y]
  {
  }

  /** draw.Draw with the Src operator onto a buffer, with the source's origin
      placed at (ox, oy): the rectangle is first clipped to the buffer. */
  method Draw(dst: array2<Pixel>, src: Image, ox: int, oy: int)
    modifies dst
    ensures Snapshot(dst) == DrawImage(old(Snapshot(dst)), src, ox, oy)
  {
    ghost var before := Snapshot(dst);
    var x0, x1 := Max(ox, 0), Min(ox + Width(src), dst.Length0);
    var y0, y1 := Max(oy, 0), Min(oy + Height(src), dst.Length1);
    var x := x0;
    while x < x1
      invariant x0 <= x <= Max(x0, x1)
      invariant forall i, j :: 0 <= i < dst.Length0 && 0 <= j < dst.Length1 ==>
        dst[i, j] == if x0 <= i < x && y0 <= j < y1 then At(src, i - ox, j - oy) else before[i][j]
    {
      var y := y0;
      while y < y1
        invariant y0 <= y <= Max(y0, y1)
        invariant forall i, j :: 0 <= i < dst.Length0 && 0 <= j < dst.Length1 ==>
          dst[i, j] == if (x0 <= i < x && y0 <= j < y1) || (i == x && y0 <= j < y)
                       then At(src, i - ox, j - oy) else before[i][j]
      {
        dst[x, y] := At(src, x - ox, y - oy);
        y := y + 1;
      }
      x := x + 1;
    }
    ghost var after := DrawImage(before, src, ox, oy);
    forall i, j | 0 <= i < dst.Length0 && 0 <= j < dst.Length1
      ensures dst[i, j] == after[i][j]
    {
      assert Covers(src, ox, oy, i, j) <==> x0 <= i < x1 && y0 <= j < y1;
    }
    SnapshotEquals(dst, after);
  }
}
