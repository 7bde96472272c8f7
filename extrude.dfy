/** Border extrusion (main.go ExtrudeImageOnce and ExtrudeImage): a sprite is
    grown by one pixel on every side, and the new border repeats the sprite's
    edge pixels. The right-hand column is filled by a loop that runs over the
    sprite's WIDTH rather than its height (main.go:158); the model keeps that
    loop as written, so its clean properties hold for square sprites, and the
    non-square cases are stated as they are. */
module Extrude {
  import opened Raster

  /** The index of 0..n-1 nearest to v. */
  function Clamp(v: int, n: int): int {
    if v < 0 then 0 else if v >= n then n - 1 else v
  }

  /** The pixel that nearest-edge replication by p puts at (x, y): the source
      pixel nearest to (x - p, y - p). */
  function EdgeAt(s: Image, p: int, x: int, y: int): Pixel {
    At(s, Clamp(x - p, Width(s)), Clamp(y - p, Height(s)))
  }

  /** Reference extrusion by p: the image grown by p pixels on every side,
      every border pixel repeating the nearest edge pixel, every corner region
      filled with the nearest corner pixel. */
  function NearestEdge(s: Image, p: nat): (r: Image)
    ensures IsRaster(r) && Width(r) == Width(s) + 2 * p && Height(r) == Height(s) + 2 * p
  {
    seq(Width(s) + 2 * p, x => seq(Height(s) + 2 * p, y => EdgeAt(s, p, x, y)))
  }

  /** The pixel ExtrudeImageOnce leaves at (x, y) of the grown image. Column
      w + 1 below the top corner is whatever the right-column loop wrote into
      rows 1..w (a read outside the source gives the zero colour), and the rows
      of that column the loop never reaches keep the buffer's zero colour;
      every other pixel is the nearest edge pixel. */
  function OnceAt(s: Image, x: int, y: int): Pixel {
    var w, h := Width(s), Height(s);
    if x == w + 1 && 1 <= y <= w then At(s, w - 1, y - 1)
    else if x == w + 1 && w < y <= h then Transparent
    else EdgeAt(s, 1, x, y)
  }

  /** The image ExtrudeImageOnce returns for s. */
  function ExtrudedOnce(s: Image): (r: Image)
    ensures IsRaster(r) && Width(r) == Width(s) + 2 && Height(r) == Height(s) + 2
  {
    seq(Width(s) + 2, x => seq(Height(s) + 2, y => OnceAt(s, x, y)))
  }

  /** The image ExtrudeImage returns for s and p: ExtrudeImageOnce applied p times. */
  function Extruded(s: Image, p: int): (r: Image)
    ensures p > 0 ==> IsRaster(r) && Width(r) == Width(s) + 2 * p && Height(r) == Height(s) + 2 * p
    decreases p
  {
    if p <= 0 then s else ExtrudedOnce(Extruded(s, p - 1))
  }

  // ---------------------------------------------------------------------
  // One application

  /** The source sits in the interior at offset (1, 1). */
  lemma ExtrudedOnceCopiesInterior(s: Image, x: int, y: int)
    requires IsRaster(s) && 0 <= x < Width(s) && 0 <= y < Height(s)
    ensures ExtrudedOnce(s)[x + 1][y + 1] == s[x][y]
  {
  }

  /** The top and bottom bands repeat the first and last rows; the left band
      repeats the first column. */
  lemma ExtrudedOnceBands(s: Image)
    requires IsRaster(s) && Width(s) >= 1 && Height(s) >= 1
    ensures forall x :: 0 <= x < Width(s) ==>
      ExtrudedOnce(s)[x + 1][0] == s[x][0] && ExtrudedOnce(s)[x + 1][Height(s) + 1] == s[x][Height(s) - 1]
    ensures forall y :: 0 <= y < Height(s) ==> ExtrudedOnce(s)[0][y + 1] == s[0][y]
  {
  }

  /** Row y of the right band, as the loop bounded by the width fills it:
      rows 1..min(w, h) repeat the last column, rows w+1..h of a tall sprite
      keep the zero colour, and on a wide sprite the loop's read below the
      source overwrites the bottom-right corner with the zero colour. */
  lemma ExtrudedOnceRightColumn(s: Image, y: int)
    requires IsRaster(s) && Width(s) >= 1 && Height(s) >= 1 && 1 <= y <= Height(s) + 1
    ensures var r, w, h := ExtrudedOnce(s), Width(s), Height(s);
      y <= Min(w, h) ==> r[w + 1][y] == s[w - 1][y - 1]
    ensures var r, w, h := ExtrudedOnce(s), Width(s), Height(s);
      w < y <= h ==> r[w + 1][y] == Transparent
    ensures var r, w, h := ExtrudedOnce(s), Width(s), Height(s);
      w > h && y == h + 1 ==> r[w + 1][y] == Transparent
  {
  }

  /** Three corners repeat the matching source corner; the bottom-right one
      does so whenever the sprite is not wider than it is tall (for a wider
      sprite ExtrudedOnceRightColumn shows it is overwritten with zero). */
  lemma ExtrudedOnceCorners(s: Image)
    requires IsRaster(s) && Width(s) >= 1 && Height(s) >= 1
    ensures var r, w, h := ExtrudedOnce(s), Width(s), Height(s);
      r[0][0] == s[0][0] && r[w + 1][0] == s[w - 1][0] && r[0][h + 1] == s[0][h - 1]
    ensures var r, w, h := ExtrudedOnce(s), Width(s), Height(s);
      w <= h ==> r[w + 1][h + 1] == s[w - 1][h - 1]
  {
  }

  /** On a square sprite one application is exactly nearest-edge replication by 1. */
  lemma ExtrudedOnceSquare(s: Image)
    requires IsRaster(s) && Width(s) == Height(s) >= 1
    ensures ExtrudedOnce(s) == NearestEdge(s, 1)
  {
    var r, e := ExtrudedOnce(s), NearestEdge(s, 1);
    forall x | 0 <= x < |r|
      ensures r[x] == e[x]
    {
    }
  }

  /** On a sprite that is not square and has no zero pixel, one application is
      not nearest-edge replication: the right band loses a pixel. */
  lemma ExtrudedOnceNotSquare(s: Image)
    requires IsRaster(s) && Width(s) >= 1 && Height(s) >= 1 && Width(s) != Height(s)
    requires forall x, y :: 0 <= x < Width(s) && 0 <= y < Height(s) ==> s[x][y] != Transparent
    ensures ExtrudedOnce(s) != NearestEdge(s, 1)
  {
    var w, h := Width(s), Height(s);
    var y := if w < h then w + 1 else h + 1;
    assert ExtrudedOnce(s)[w + 1][y] == Transparent;
    assert NearestEdge(s, 1)[w + 1][y] == s[w - 1][Min(y, h) - 1];
  }

  // ---------------------------------------------------------------------
  // p applications

  /** After p >= 0 applications the source pixel (x, y) sits at (x + p, y + p). */
  lemma {:induction false} ExtrudedInterior(s: Image, p: int, x: int, y: int)
    requires IsRaster(s) && p >= 0 && 0 <= x < Width(s) && 0 <= y < Height(s)
    ensures Extruded(s, p)[x + p][y + p] == s[x][y]
    decreases p
  {
    if p > 0 {
      ExtrudedInterior(s, p - 1, x, y);
      ExtrudedShape(s, p - 1);
      InteriorStep(s, Extruded(s, p - 1), p, x, y);
    }
  }

  /** The size of Extruded for every p >= 0, including the unchanged p = 0. */
  lemma ExtrudedShape(s: Image, p: int)
    requires IsRaster(s) && p >= 0
    ensures IsRaster(Extruded(s, p))
    ensures Width(Extruded(s, p)) == Width(s) + 2 * p && Height(Extruded(s, p)) == Height(s) + 2 * p
  {
  }

  /** Application number p moves a source pixel that the image e after p - 1
      applications shows at (x + p - 1, y + p - 1) to (x + p, y + p). */
  lemma InteriorStep(s: Image, e: Image, p: int, x: int, y: int)
    requires IsRaster(s) && p >= 1 && 0 <= x < Width(s) && 0 <= y < Height(s)
    requires IsRaster(e) && Width(e) == Width(s) + 2 * (p - 1) && Height(e) == Height(s) + 2 * (p - 1)
    requires e[x + (p - 1)][y + (p - 1)] == s[x][y]
    ensures ExtrudedOnce(e)[x + p][y + p] == s[x][y]
  {
    ExtrudedOnceCopiesInterior(e, x + (p - 1), y + (p - 1));
  }

  /** After p >= 1 applications the four outer corners repeat the source
      corners, the bottom-right one only when the sprite is not wider than it
      is tall; on a wider sprite that corner is zero after every application. */
  lemma {:induction false} ExtrudedCorners(s: Image, p: int)
    requires IsRaster(s) && Width(s) >= 1 && Height(s) >= 1 && p >= 1
    ensures var r, w, h := Extruded(s, p), Width(s), Height(s);
      r[0][0] == s[0][0] && r[w + 2 * p - 1][0] == s[w - 1][0] && r[0][h + 2 * p - 1] == s[0][h - 1]
    ensures var r, w, h := Extruded(s, p), Width(s), Height(s);
      w <= h ==> r[w + 2 * p - 1][h + 2 * p - 1] == s[w - 1][h - 1]
    ensures var r, w, h := Extruded(s, p), Width(s), Height(s);
      w > h ==> r[w + 2 * p - 1][h + 2 * p - 1] == Transparent
    decreases p
  {
    if p > 1 {
      ExtrudedCorners(s, p - 1);
    }
    ExtrudedShape(s, p - 1);
    CornersStep(s, Extruded(s, p - 1), p - 1);
  }

  /** One more application keeps the corners of an image e grown by k from s. */
  lemma CornersStep(s: Image, e: Image, k: int)
    requires IsRaster(s) && Width(s) >= 1 && Height(s) >= 1 && k >= 0
    requires IsRaster(e) && Width(e) == Width(s) + 2 * k && Height(e) == Height(s) + 2 * k
    requires var w, h := Width(s), Height(s);
      e[0][0] == s[0][0] && e[w + 2 * k - 1][0] == s[w - 1][0] && e[0][h + 2 * k - 1] == s[0][h - 1]
      && (w <= h ==> e[w + 2 * k - 1][h + 2 * k - 1] == s[w - 1][h - 1])
    ensures var r, w, h := ExtrudedOnce(e), Width(s), Height(s);
      r[0][0] == s[0][0] && r[w + 2 * k + 1][0] == s[w - 1][0] && r[0][h + 2 * k + 1] == s[0][h - 1]
    ensures var r, w, h := ExtrudedOnce(e), Width(s), Height(s);
      w <= h ==> r[w + 2 * k + 1][h + 2 * k + 1] == s[w - 1][h - 1]
    ensures var r, w, h := ExtrudedOnce(e), Width(s), Height(s);
      w > h ==> r[w + 2 * k + 1][h + 2 * k + 1] == Transparent
  {
    ExtrudedOnceCorners(e);
    if Width(s) > Height(s) {
      ExtrudedOnceRightColumn(e, Height(e) + 1);
    }
  }

  /** Clamping into a range grown by k on both sides, then shifting back by k,
      clamps the shifted value. */
  lemma ClampShift(v: int, n: int, k: nat)
    requires n >= 1
    ensures Clamp(Clamp(v, n + 2 * k) - k, n) == Clamp(v - k, n)
  {
  }

  /** Replicating the edge of an image already replicated by k adds one more
      pixel of replication. */
  lemma NearestEdgeGrows(s: Image, k: nat)
    requires IsRaster(s) && Width(s) >= 1 && Height(s) >= 1
    ensures NearestEdge(NearestEdge(s, k), 1) == NearestEdge(s, k + 1)
  {
    var a, b := NearestEdge(NearestEdge(s, k), 1), NearestEdge(s, k + 1);
    forall x | 0 <= x < |a|
      ensures a[x] == b[x]
    {
      forall y | 0 <= y < |a[x]|
        ensures a[x][y] == b[x][y]
      {
        NearestEdgeGrowsAt(s, k, x, y);
      }
    }
  }

  /** One pixel of NearestEdgeGrows. */
  lemma NearestEdgeGrowsAt(s: Image, k: nat, x: int, y: int)
    requires IsRaster(s) && Width(s) >= 1 && Height(s) >= 1
    requires 0 <= x < Width(s) + 2 * k + 2 && 0 <= y < Height(s) + 2 * k + 2
    ensures EdgeAt(NearestEdge(s, k), 1, x, y) == EdgeAt(s, k + 1, x, y)
  {
    var e := NearestEdge(s, k);
    var cx, cy := Clamp(x - 1, Width(e)), Clamp(y - 1, Height(e));
    assert EdgeAt(e, 1, x, y) == e[cx][cy];
    assert e[cx][cy] == EdgeAt(s, k, cx, cy);
    ClampShift(x - 1, Width(s), k);
    ClampShift(y - 1, Height(s), k);
  }

  /** On a square sprite, p applications are exactly nearest-edge replication
      by p: the iterative definition and the one-pass definition agree. */
  lemma {:induction false} ExtrudedSquare(s: Image, p: int)
    requires IsRaster(s) && Width(s) == Height(s) >= 1 && p >= 0
    ensures Extruded(s, p) == NearestEdge(s, p)
    decreases p
  {
    if p == 0 {
      var e := NearestEdge(s, 0);
      forall x | 0 <= x < |s|
        ensures e[x] == s[x]
      {
      }
    } else {
      ExtrudedSquare(s, p - 1);
      var e := NearestEdge(s, p - 1);
      ExtrudedOnceSquare(e);
      NearestEdgeGrows(s, p - 1);
    }
  }

  // ---------------------------------------------------------------------
  // The buffers

  /** The pixel ExtrudeImageOnce's buffer holds at (i, j) once its first k
      write phases are done: phase 0 draws the sprite at (1, 1), phases 1 and
      2 copy the top and bottom rows, 3 the corners, 4 the left column and 5
      the right column. Pixels no phase has reached yet are still zero. */
  function Phase(s: Image, k: int, i: int, j: int): Pixel {
    var w, h := Width(s), Height(s);
    if k >= 5 then OnceAt(s, i, j)
    else if Inner(w, h, i, j) || (k >= 1 && Top(w, h, i, j)) || (k >= 2 && Bottom(w, h, i, j))
         || (k >= 3 && Corner(w, h, i, j)) || (k >= 4 && Left(w, h, i, j))
    then EdgeAt(s, 1, i, j)
    else Transparent
  }

  /** Buffer b is the grown buffer for s with its first k phases done. */
  ghost predicate HoldsPhase(b: array2<Pixel>, s: Image, k: int)
    reads b
  {
    b.Length0 == Width(s) + 2 && b.Length1 == Height(s) + 2 &&
    forall i, j :: 0 <= i < b.Length0 && 0 <= j < b.Length1 ==> b[i, j] == Phase(s, k, i, j)
  }

  /** Drawing the sprite at (1, 1) onto the zero buffer completes phase 0. */
  lemma DrawnPhase(b: array2<Pixel>, s: Image)
    requires IsRaster(s) && Width(s) >= 1 && Height(s) >= 1
    requires Snapshot(b) == DrawImage(Blank(Width(s) + 2, Height(s) + 2), s, 1, 1)
    ensures HoldsPhase(b, s, 0)
  {
    var d := DrawImage(Blank(Width(s) + 2, Height(s) + 2), s, 1, 1);
    assert |d[0]| == Height(s) + 2;
    forall i, j | 0 <= i < b.Length0 && 0 <= j < b.Length1
      ensures b[i, j] == Phase(s, 0, i, j)
    {
      assert b[i, j] == d[i][j];
    }
  }

  /** After the last phase the buffer holds ExtrudedOnce(s). */
  lemma FinalPhase(b: array2<Pixel>, s: Image)
    requires HoldsPhase(b, s, 5)
    ensures Snapshot(b) == ExtrudedOnce(s)
  {
    SnapshotEquals(b, ExtrudedOnce(s));
  }

  /** The top outer-row loop of main.go ExtrudeImageOnce: row 0 of the
      source is copied into row 0 of the buffer, one column to the right. */
  method OuterRowTop(newImg: array2<Pixel>, img: Image)
    requires IsRaster(img) && HoldsPhase(newImg, img, 0)
    modifies newImg
    ensures HoldsPhase(newImg, img, 1)
  {
    var ySrc, yDst := 0, 0;
    var xSrc := 0;
    while xSrc < Width(img)
      invariant 0 <= xSrc <= Width(img)
      invariant forall i, j :: 0 <= i < newImg.Length0 && 0 <= j < newImg.Length1 ==>
        newImg[i, j] == if j == yDst && 1 <= i <= xSrc then Phase(img, 1, i, j) else Phase(img, 0, i, j)
    {
      var xDst := xSrc + 1;
      SetPixel(newImg, xDst, yDst, At(img, xSrc, ySrc));
      xSrc := xSrc + 1;
    }
  }

  /** The bottom outer-row loop: the last source row is copied into the last
      row of the buffer, one column to the right. */
  method OuterRowBottom(newImg: array2<Pixel>, img: Image)
    requires IsRaster(img) && HoldsPhase(newImg, img, 1)
    modifies newImg
    ensures HoldsPhase(newImg, img, 2)
  {
    var ySrc, yDst := Height(img) - 1, newImg.Length1 - 1;
    var xSrc := 0;
    while xSrc < Width(img)
      invariant 0 <= xSrc <= Width(img)
      invariant forall i, j :: 0 <= i < newImg.Length0 && 0 <= j < newImg.Length1 ==>
        newImg[i, j] == if j == yDst && 1 <= i <= xSrc then Phase(img, 2, i, j) else Phase(img, 1, i, j)
    {
      var xDst := xSrc + 1;
      SetPixel(newImg, xDst, yDst, At(img, xSrc, ySrc));
      xSrc := xSrc + 1;
    }
  }

  /** The four corner writes: each corner of the buffer takes the matching
      corner pixel of the source. */
  method CopyCorners(newImg: array2<Pixel>, img: Image)
    requires IsRaster(img) && HoldsPhase(newImg, img, 2)
    requires Width(img) >= 1 && Height(img) >= 1
    modifies newImg
    ensures HoldsPhase(newImg, img, 3)
  {
    var dw, dh := newImg.Length0, newImg.Length1;
    var w, h := Width(img), Height(img);
    SetPixel(newImg, 0, 0, At(img, 0, 0));
    SetPixel(newImg, dw - 1, 0, At(img, w - 1, 0));
    SetPixel(newImg, 0, dh - 1, At(img, 0, h - 1));
    SetPixel(newImg, dw - 1, dh - 1, At(img, w - 1, h - 1));
  }

  /** The left outer-column loop: column 0 of the source is copied into
      column 0 of the buffer, one row down. */
  method OuterColumnLeft(newImg: array2<Pixel>, img: Image)
    requires IsRaster(img) && HoldsPhase(newImg, img, 3)
    modifies newImg
    ensures HoldsPhase(newImg, img, 4)
  {
    var xSrc, xDst := 0, 0;
    var ySrc := 0;
    while ySrc < Height(img)
      invariant 0 <= ySrc <= Height(img)
      invariant forall i, j :: 0 <= i < newImg.Length0 && 0 <= j < newImg.Length1 ==>
        newImg[i, j] == if i == xDst && 1 <= j <= ySrc then Phase(img, 4, i, j) else Phase(img, 3, i, j)
    {
      var yDst := ySrc + 1;
      SetPixel(newImg, xDst, yDst, At(img, xSrc, ySrc));
      ySrc := ySrc + 1;
    }
  }

  /** The right outer-column loop: the last source column is copied into the
      last column of the buffer, one row down, for as many rows as the sprite
      is WIDE. Reads below the source give the zero colour and writes below
      the buffer are dropped. */
  method OuterColumnRight(newImg: array2<Pixel>, img: Image)
    requires IsRaster(img) && HoldsPhase(newImg, img, 4)
    requires Width(img) >= 1 && Height(img) >= 1
    modifies newImg
    ensures HoldsPhase(newImg, img, 5)
  {
    var xSrc, xDst := Width(img) - 1, newImg.Length0 - 1;
    var ySrc := 0;
    while ySrc < Width(img)
      invariant 0 <= ySrc <= Width(img)
      invariant forall i, j :: 0 <= i < newImg.Length0 && 0 <= j < newImg.Length1 ==>
        newImg[i, j] == if i == xDst && 1 <= j <= ySrc then Phase(img, 5, i, j) else Phase(img, 4, i, j)
    {
      var yDst := ySrc + 1;
      SetPixel(newImg, xDst, yDst, At(img, xSrc, ySrc));
      ySrc := ySrc + 1;
    }
  }

  /** main.go ExtrudeImageOnce: a buffer two pixels larger each way, the
      source drawn at (1, 1), then the outer rows, the four corners and the
      outer columns. The source is only read, through At. */
  method ExtrudeImageOnce(img: Image) returns (newImg: array2<Pixel>)
    requires IsRaster(img) && Width(img) >= 1 && Height(img) >= 1
    ensures fresh(newImg)
    ensures newImg.Length0 == Width(img) + 2 && newImg.Length1 == Height(img) + 2
    ensures Snapshot(newImg) == ExtrudedOnce(img)
  {
    var w, h := Width(img), Height(img);
    newImg := new Pixel[w + 2, h + 2]((_, _) => Transparent);
    SnapshotEquals(newImg, Blank(w + 2, h + 2));
    Draw(newImg, img, 1, 1);
    DrawnPhase(newImg, img);
    OuterRowTop(newImg, img);
    OuterRowBottom(newImg, img);
    CopyCorners(newImg, img);
    OuterColumnLeft(newImg, img);
    OuterColumnRight(newImg, img);
    FinalPhase(newImg, img);
  }

  /** main.go ExtrudeImage: ExtrudeImageOnce applied extrude times, each
      round reading the buffer the previous round filled; for extrude <= 0
      the very same image comes back. */
  method ExtrudeImage(img: Image, extrude: int) returns (r: Image)
    requires IsRaster(img) && (extrude <= 0 || (Width(img) >= 1 && Height(img) >= 1))
    ensures extrude <= 0 ==> r == img
    ensures r == Extruded(img, extrude)
  {
    r := img;
    var i := 0;
    while i < extrude
      invariant 0 <= i <= Max(extrude, 0)
      invariant r == Extruded(img, i)
    {
      var grown := ExtrudeImageOnce(r);
      r := Snapshot(grown);
      i := i + 1;
    }
  }

  // Regions of the grown (w + 2) by (h + 2) buffer, as the loops above fill them.

  predicate Inner(w: int, h: int, i: int, j: int) { 1 <= i <= w && 1 <= j <= h }

  predicate Top(w: int, h: int, i: int, j: int) { j == 0 && 1 <= i <= w }

  predicate Bottom(w: int, h: int, i: int, j: int) { j == h + 1 && 1 <= i <= w }

  predicate Corner(w: int, h: int, i: int, j: int) { (i == 0 || i == w + 1) && (j == 0 || j == h + 1) }

  predicate Left(w: int, h: int, i: int, j: int) { i == 0 && 1 <= j <= h }
}
