/** The strip packer (main.go Pack): images are extruded and blitted onto a
    fixed canvas left to right along the top edge, and each sprite's frame
    in the manifest locates its original pixels inside its extruded block. */
module Packer {
  import opened Raster
  import opened Extrude
  import opened Manifest

  /** A loaded image and the file name it came from. Pack only reads the
      image, through its bounds and At, so it is an image value. */
  datatype ImageData = ImageData(img: Image, filename: string)

  /** The block blitted for a sprite: the sprite extruded by p. */
  function Block(d: ImageData, p: int): Image {
    Extruded(d.img, p)
  }

  /** The size of a sprite's block: 2p wider and taller for p > 0, the
      sprite's own size otherwise (BlockSize proves it). */
  function BlockW(d: ImageData, p: int): nat {
    Width(d.img) + 2 * Max(p, 0)
  }

  function BlockH(d: ImageData, p: int): nat {
    Height(d.img) + 2 * Max(p, 0)
  }

  /** The cursor before sprite n: the widths of the first n blocks, summed. */
  function Offset(images: seq<ImageData>, p: int, n: nat): (x: nat)
    requires n <= |images|
  {
    if n == 0 then 0 else Offset(images, p, n - 1) + BlockW(images[n - 1], p)
  }

  /** The frame recorded for sprite k: the block's top-left corner moved by
      (p, p), with the sprite's original size. */
  function FrameOf(images: seq<ImageData>, p: int, k: nat): SerializedFrame
    requires k < |images|
  {
    FrameAt(Offset(images, p, k) + p, p, Width(images[k].img), Height(images[k].img))
  }

  /** The frame map after the first n images: one insertion per sprite, a
      later sprite's name replacing an earlier entry. */
  function FramesAfter(images: seq<ImageData>, p: int, n: nat): map<string, SerializedFrame>
    requires n <= |images|
  {
    if n == 0 then map[] else FramesAfter(images, p, n - 1)[images[n - 1].filename := FrameOf(images, p, n - 1)]
  }

  /** Where a block goes on the canvas: its pixels, and the column of its
      left edge on row 0. */
  datatype Placement = Placement(block: Image, x: int)

  /** The blocks Pack blits, in order, each at the cursor it is drawn at. */
  function Placements(images: seq<ImageData>, p: int): seq<Placement> {
    seq(|images|, k requires 0 <= k < |images| => Placement(Block(images[k], p), Offset(images, p, k)))
  }

  /** A blank width by height canvas after the first n placements are
      blitted onto it, in order, each clipped to the canvas. */
  function Paint(ps: seq<Placement>, width: nat, height: nat, n: nat): (r: Image)
    requires n <= |ps|
    ensures HasSize(r, width, height)
  {
    if n == 0 then Blank(width, height)
    else DrawImage(Paint(ps, width, height, n - 1), ps[n - 1].block, ps[n - 1].x, 0)
  }

  /** Placement k's rectangle contains canvas point (x, y). */
  predicate Hits(ps: seq<Placement>, k: nat, x: int, y: int)
    requires k < |ps|
  {
    Covers(ps[k].block, ps[k].x, 0, x, y)
  }

  /** Canvas point (x, y) lies in the rectangle where block k is blitted. It
      is the rectangle Hits tests, written with the size formulas BlockW and
      BlockH instead of the extruded block itself, so that the lemmas about
      the cursor never unfold the extrusion; HitsInBlock connects the two. */
  predicate InBlock(images: seq<ImageData>, p: int, k: nat, x: int, y: int)
    requires k < |images|
  {
    var o := Offset(images, p, k);
    o <= x < o + BlockW(images[k], p) && 0 <= y < BlockH(images[k], p)
  }

  /** The manifest Pack returns. */
  function PackSheet(images: seq<ImageData>, p: int): SerializedSpritesheet {
    SerializedSpritesheet(FramesAfter(images, p, |images|), map[ProtocolKey := Protocol])
  }

  /** The atlas Pack returns. */
  function PackCanvas(images: seq<ImageData>, p: int, width: nat, height: nat): Image {
    Paint(Placements(images, p), width, height, |images|)
  }

  // ---------------------------------------------------------------------
  // The cursor

  /** Sum of the original widths of the first n images. */
  function WidthSum(images: seq<ImageData>, n: nat): nat
    requires n <= |images|
  {
    if n == 0 then 0 else WidthSum(images, n - 1) + Width(images[n - 1].img)
  }

  /** A block is 2p wider and 2p taller than its sprite for p >= 0, and the
      sprite itself when p <= 0 (the image comes back unextruded). */
  lemma BlockSize(d: ImageData, p: int)
    ensures Width(Block(d, p)) == BlockW(d, p) && Height(Block(d, p)) == BlockH(d, p)
  {
  }

  /** For p >= 0 the block shows the sprite's pixel (x, y) at (x + p, y + p). */
  lemma BlockShowsSprite(d: ImageData, p: int, x: int, y: int)
    requires IsRaster(d.img) && p >= 0 && 0 <= x < Width(d.img) && 0 <= y < Height(d.img)
    ensures Covers(Block(d, p), 0, 0, x + p, y + p)
    ensures At(Block(d, p), x + p, y + p) == d.img[x][y]
  {
    BlockSize(d, p);
    ExtrudedInterior(d.img, p, x, y);
  }

  /** The cursor before sprite n is the sum of the widths w_k + 2p of the
      blocks before it (w_k for p <= 0); it starts at 0. */
  lemma {:induction false} OffsetSum(images: seq<ImageData>, p: int, n: nat)
    requires n <= |images|
    ensures Offset(images, p, n) == WidthSum(images, n) + 2 * Max(p, 0) * n
  {
    if n > 0 {
      OffsetSum(images, p, n - 1);
      assert 2 * Max(p, 0) * n == 2 * Max(p, 0) * (n - 1) + 2 * Max(p, 0);
    }
  }

  /** The cursor only moves right: block j ends where or before block k starts. */
  lemma {:induction false} BlocksDisjoint(images: seq<ImageData>, p: int, j: nat, k: nat)
    requires j < k <= |images|
    ensures Offset(images, p, j) + BlockW(images[j], p) <= Offset(images, p, k)
    decreases k
  {
    if j + 1 < k {
      BlocksDisjoint(images, p, j, k - 1);
    }
  }

  /** The cursor never moves left. */
  lemma {:induction false} OffsetGrows(images: seq<ImageData>, p: int, m: nat, n: nat)
    requires m <= n <= |images|
    ensures Offset(images, p, m) <= Offset(images, p, n)
    decreases n
  {
    if m < n {
      OffsetGrows(images, p, m, n - 1);
    }
  }

  // ---------------------------------------------------------------------
  // The frame map

  /** The frame map's keys are exactly the names of the images seen so far. */
  lemma {:induction false} FramesKeys(images: seq<ImageData>, p: int, n: nat)
    requires n <= |images|
    ensures FramesAfter(images, p, n).Keys == set k | 0 <= k < n :: images[k].filename
  {
    if n > 0 {
      FramesKeys(images, p, n - 1);
      assert (set k | 0 <= k < n :: images[k].filename)
          == (set k | 0 <= k < n - 1 :: images[k].filename) + {images[n - 1].filename};
    }
  }

  /** Under each name the map holds the frame of the LAST sprite so named. */
  lemma {:induction false} FramesLastWins(images: seq<ImageData>, p: int, n: nat, k: nat)
    requires k < n <= |images|
    requires forall j :: k < j < n ==> images[j].filename != images[k].filename
    ensures images[k].filename in FramesAfter(images, p, n)
    ensures FramesAfter(images, p, n)[images[k].filename] == FrameOf(images, p, k)
  {
    if k < n - 1 {
      FramesLastWins(images, p, n - 1, k);
    }
  }

  /** Every frame in the map leaves rotation, trimming, source size and pivot
      at their zero values. */
  lemma {:induction false} FramesUnfilled(images: seq<ImageData>, p: int, n: nat)
    requires n <= |images|
    ensures forall name :: name in FramesAfter(images, p, n) ==> Unfilled(FramesAfter(images, p, n)[name])
  {
    if n > 0 {
      FramesUnfilled(images, p, n - 1);
    }
  }

  /** Sprite k's frame sits p to the right of the cursor and p below the top
      edge, and has the sprite's original size. */
  lemma FramePlacement(images: seq<ImageData>, p: int, k: nat)
    requires k < |images|
    ensures var f := FrameOf(images, p, k).frame;
      f.x == WidthSum(images, k) + 2 * Max(p, 0) * k + p && f.y == p
      && f.w == Width(images[k].img) && f.h == Height(images[k].img)
  {
    OffsetSum(images, p, k);
  }

  /** The manifest's frames are keyed by exactly the input file names, and
      its meta holds the one protocol entry. */
  lemma SheetKeys(images: seq<ImageData>, p: int)
    ensures PackSheet(images, p).frames.Keys == set k | 0 <= k < |images| :: images[k].filename
    ensures PackSheet(images, p).meta.Keys == {ProtocolKey} && PackSheet(images, p).meta[ProtocolKey] == Protocol
  {
    FramesKeys(images, p, |images|);
  }

  /** Two 2 by 2 images extruded by 1: the first frame is at (1, 1), the
      second at (5, 1), both 2 by 2, since each block is 4 pixels wide. */
  lemma TwoSprites(a: Image, b: Image)
    requires HasSize(a, 2, 2) && HasSize(b, 2, 2)
    ensures PackSheet([ImageData(a, "a.png"), ImageData(b, "b.png")], 1).frames
      == map["a.png" := FrameAt(1, 1, 2, 2), "b.png" := FrameAt(5, 1, 2, 2)]
  {
    var images := [ImageData(a, "a.png"), ImageData(b, "b.png")];
    assert Offset(images, 1, 1) == 4;
    assert FramesAfter(images, 1, 1) == map["a.png" := FrameAt(1, 1, 2, 2)];
    assert FramesAfter(images, 1, 2) == FramesAfter(images, 1, 1)["b.png" := FrameAt(5, 1, 2, 2)];
  }

  // ---------------------------------------------------------------------
  // The canvas

  /** One blit: pixel (x, y) after placement n is drawn is the block's pixel
      inside its rectangle and the earlier pixel elsewhere. This only unfolds
      Paint once; it is stated so that the lemmas below work pixel by pixel. */
  lemma PaintStep(ps: seq<Placement>, width: nat, height: nat, n: nat, x: int, y: int)
    requires n < |ps| && 0 <= x < width && 0 <= y < height
    ensures Paint(ps, width, height, n + 1)[x][y]
      == if Hits(ps, n, x, y) then At(ps[n].block, x - ps[n].x, y) else Paint(ps, width, height, n)[x][y]
  {
  }

  /** A pixel that none of placements m..n-1 hits keeps the value it had
      after the first m. */
  lemma {:induction false} PaintKeeps(ps: seq<Placement>, width: nat, height: nat, m: nat, n: nat, x: int, y: int)
    requires m <= n <= |ps| && 0 <= x < width && 0 <= y < height
    requires forall k :: m <= k < n ==> !Hits(ps, k, x, y)
    ensures Paint(ps, width, height, n)[x][y] == Paint(ps, width, height, m)[x][y]
    decreases n
  {
    if m < n {
      PaintKeeps(ps, width, height, m, n - 1, x, y);
      assert !Hits(ps, n - 1, x, y);
      PaintStep(ps, width, height, n - 1, x, y);
    }
  }

  /** Placement k hits exactly the points of block k's rectangle. */
  lemma HitsInBlock(images: seq<ImageData>, p: int, k: nat, x: int, y: int)
    requires k < |images|
    ensures Hits(Placements(images, p), k, x, y) <==> InBlock(images, p, k, x, y)
  {
    BlockSize(images[k], p);
  }

  /** A canvas pixel inside block k's rectangle holds the block's matching
      pixel: the later blocks all lie to its right. */
  lemma CanvasShowsBlock(images: seq<ImageData>, p: int, width: nat, height: nat, k: nat, x: int, y: int)
    requires k < |images| && 0 <= x < width && 0 <= y < height
    requires InBlock(images, p, k, x, y)
    ensures PackCanvas(images, p, width, height)[x][y] == At(Block(images[k], p), x - Offset(images, p, k), y)
  {
    var ps := Placements(images, p);
    HitsInBlock(images, p, k, x, y);
    PaintStep(ps, width, height, k, x, y);
    forall j | k + 1 <= j < |ps|
      ensures !Hits(ps, j, x, y)
    {
      OffsetGrows(images, p, k + 1, j);
    }
    PaintKeeps(ps, width, height, k + 1, |ps|, x, y);
  }

  /** A canvas pixel that no block's rectangle contains still holds the zero
      colour. */
  lemma CanvasUncovered(images: seq<ImageData>, p: int, width: nat, height: nat, x: int, y: int)
    requires 0 <= x < width && 0 <= y < height
    requires forall k :: 0 <= k < |images| ==> !InBlock(images, p, k, x, y)
    ensures PackCanvas(images, p, width, height)[x][y] == Transparent
  {
    var ps := Placements(images, p);
    forall k | 0 <= k < |ps|
      ensures !Hits(ps, k, x, y)
    {
      HitsInBlock(images, p, k, x, y);
    }
    PaintKeeps(ps, width, height, 0, |ps|, x, y);
  }

  /** For p >= 0, the atlas shows sprite k's pixel (x, y) at (x, y) of the
      frame recorded for it, wherever that point lies inside the canvas:
      clipped parts read as the zero colour. */
  lemma FrameShowsSprite(images: seq<ImageData>, p: int, width: nat, height: nat, k: nat, x: int, y: int)
    requires k < |images| && IsRaster(images[k].img) && p >= 0
    requires 0 <= x < Width(images[k].img) && 0 <= y < Height(images[k].img)
    ensures var f := FrameOf(images, p, k).frame;
      At(PackCanvas(images, p, width, height), f.x + x, f.y + y)
      == if f.x + x < width && f.y + y < height then images[k].img[x][y] else Transparent
  {
    var d, o := images[k], Offset(images, p, k);
    var cx, cy := o + p + x, p + y;
    var canvas := PackCanvas(images, p, width, height);
    assert FrameOf(images, p, k).frame.x == cx - x && FrameOf(images, p, k).frame.y == cy - y;
    if cx < width && cy < height {
      BlockShowsSprite(d, p, x, y);
      CanvasShowsBlock(images, p, width, height, k, cx, cy);
      assert At(canvas, cx, cy) == canvas[cx][cy];
    } else {
      assert At(canvas, cx, cy) == Transparent;
    }
  }

  /** The manifest and the atlas agree: the frame stored under a sprite's
      name, for the last sprite with that name, shows that sprite's pixels. */
  lemma SheetShowsSprite(images: seq<ImageData>, p: int, width: nat, height: nat, k: nat, x: int, y: int)
    requires k < |images| && IsRaster(images[k].img) && p >= 0
    requires forall j :: k < j < |images| ==> images[j].filename != images[k].filename
    requires 0 <= x < Width(images[k].img) && 0 <= y < Height(images[k].img)
    ensures images[k].filename in PackSheet(images, p).frames
    ensures var f := PackSheet(images, p).frames[images[k].filename].frame;
      At(PackCanvas(images, p, width, height), f.x + x, f.y + y)
      == if f.x + x < width && f.y + y < height then images[k].img[x][y] else Transparent
  {
    FramesLastWins(images, p, |images|, k);
    FrameShowsSprite(images, p, width, height, k, x, y);
  }

  // ---------------------------------------------------------------------
  // Pack

  /** One round of main.go Pack's loop, without the bookkeeping: the image
      is extruded and blitted with its top-left corner at the cursor, and the
      frame of its original pixels inside the blitted block is returned with
      the block's width. */
  method Place(atlas: array2<Pixel>, imageData: ImageData, extrude: int, currentX: int, currentY: int)
    returns (extrudeW: int, frame: SerializedFrame)
    requires IsRaster(imageData.img)
    requires extrude <= 0 || (Width(imageData.img) >= 1 && Height(imageData.img) >= 1)
    modifies atlas
    ensures Snapshot(atlas) == DrawImage(old(Snapshot(atlas)), Block(imageData, extrude), currentX, currentY)
    ensures extrudeW == BlockW(imageData, extrude)
    ensures frame == FrameAt(currentX + extrude, currentY + extrude, Width(imageData.img), Height(imageData.img))
  {
    var img := imageData.img;
    var origW, origH := Width(img), Height(img);

    img := ExtrudeImage(img, extrude);
    extrudeW := Width(img);
    BlockSize(imageData, extrude);

    var destX, destY := currentX + extrude, currentY + extrude;
    Draw(atlas, img, currentX, currentY);
    frame := FrameAt(destX, destY, origW, origH);
  }

  /** main.go Pack: an all-zero width by height atlas and a manifest whose
      meta names the tool; then, for each input in order, the image is
      extruded, blitted at the cursor, the frame recorded under its file name,
      and the cursor moved right by the extruded width. */
  method Pack(images: seq<ImageData>, width: int, height: int, extrude: int)
    returns (atlas: array2<Pixel>, data: SerializedSpritesheet)
    requires width >= 0 && height >= 0
    requires forall i :: 0 <= i < |images| ==> IsRaster(images[i].img)
    requires extrude <= 0 || forall i :: 0 <= i < |images| ==> Width(images[i].img) >= 1 && Height(images[i].img) >= 1
    ensures fresh(atlas)
    ensures atlas.Length0 == width && atlas.Length1 == height
    ensures Snapshot(atlas) == PackCanvas(images, extrude, width, height)
    ensures data == PackSheet(images, extrude)
  {
    data := SerializedSpritesheet(map[], map[]);
    data := data.(meta := data.meta[ProtocolKey := Protocol]);

    atlas := new Pixel[width, height]((_, _) => Transparent);
    SnapshotEquals(atlas, Blank(width, height));

    var currentX, currentY := 0, 0;
    var n := 0;
    while n < |images|
      invariant 0 <= n <= |images|
      invariant atlas.Length0 == width && atlas.Length1 == height
      invariant currentX == Offset(images, extrude, n) && currentY == 0
      invariant Snapshot(atlas) == Paint(Placements(images, extrude), width, height, n)
      invariant data.frames == FramesAfter(images, extrude, n) && data.meta == map[ProtocolKey := Protocol]
    {
      var imageData := images[n];
      var extrudeW, frame := Place(atlas, imageData, extrude, currentX, currentY);
      assert frame == FrameOf(images, extrude, n);
      currentX := currentX + extrudeW;
      data := data.(frames := data.frames[imageData.filename := frame]);
      n := n + 1;
    }
  }
}
