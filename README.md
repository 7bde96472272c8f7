# Sprite packer model

A model of the core of the `packer` tool, a small Go program. It turns a directory of sprite images into one atlas PNG and a JSON manifest. The model covers three parts of `main.go`:

- **Border extrusion.** `ExtrudeImageOnce` grows an image by one pixel on every side. It copies the image into a fresh buffer at (1, 1) and then writes the border with four loops and four corner writes. `ExtrudeImage` repeats this `extrude` times.
- **The strip packer.** `Pack` walks the images in order with a cursor that starts at 0 and only moves right. It blits each extruded block onto a fixed `width` by `height` atlas at (cursor, 0), clipped to the atlas. It records in the manifest a frame for the original pixels: the block's corner moved by (extrude, extrude), with the original size.
- **The manifest types.** `SerializedFrame` and `SerializedSpritesheet`: a map from file name to frame, and a meta map with one protocol entry.

Representation:

- An image that the code only reads (`image.Image`, used through `Bounds` and `At`) is an `Image`. An `Image` is a value: a sequence of columns, `img[x][y]`, with its bounds at the origin.
- A buffer that the code writes in place (`image.NRGBA`) is an `array2<Pixel>`. `Snapshot` reads such a buffer back as an `Image`.
- `At` outside the bounds returns the zero pixel. `SetPixel` outside the bounds does nothing.
- `Draw` is `draw.Draw` with the `Src` operator. It is clipped to the destination.

Each write loop of `ExtrudeImageOnce` is its own method, proved against a function (`Phase`) that gives the whole buffer after that loop. `ExtrudeImageOnce` is proved equal to the function `ExtrudedOnce`. `ExtrudeImage` is proved equal to `Extruded`, which is `ExtrudedOnce` applied p times. `Pack` is proved to return `PackCanvas` and `PackSheet`. Lemmas then state the promised properties of those functions.

**The right-column loop.** The loop at `main.go:158` that fills the right column runs over the image's width (`bounds.Dx()`), not its height. The model keeps that loop as written. Consequences:

- On a square image, one pass equals nearest-edge replication (`ExtrudedOnceSquare`). So do p passes (`ExtrudedSquare`).
- On a tall image, rows w+1..h of the right column stay zero.
- On a wide image, the loop reads below the image. It writes the zero pixel, which overwrites the bottom-right corner.
- On a non-square image with no zero pixel, one pass differs from nearest-edge replication (`ExtrudedOnceNotSquare`).

The other border properties hold for every size.

**Negative `extrude`.** `ExtrudeImage` returns the image unchanged. The frame is still moved by `extrude`, so it starts left of and above the blitted block. `FrameOf` keeps that offset.

## Model

| member | source | states |
|---|---|---|
| Raster.At | main.go:132-160 | `image.Image.At`: the pixel at (x, y) inside the bounds, the zero pixel outside them |
| Raster.Blank | main.go:65 | `image.NewNRGBA` allocates a w by h buffer of zero pixels |
| Raster.SetPixel | main.go:132 | `Set` on an NRGBA buffer changes exactly pixel (x, y) when it lies inside the buffer, and nothing otherwise |
| Raster.DrawImage | main.go:79 | `draw.Draw`'s result has the destination's size |
| Raster.DrawImageAt | main.go:79 | after `draw.Draw`, a pixel inside the moved source rectangle is the matching source pixel; every other pixel is unchanged |
| Raster.Draw | main.go:125 | the blit into a buffer, clipped to it, leaves exactly `DrawImage` of the old contents |
| Extrude.NearestEdge | main.go:119-164 | the reference extrusion by p measures (w+2p) by (h+2p) |
| Extrude.ExtrudedOnce | main.go:122 | one pass yields a rectangular (w+2) by (h+2) image |
| Extrude.OnceAt | main.go:119-164 | the pixel `ExtrudeImageOnce` leaves at (x, y): the nearest edge pixel everywhere except the last column, whose rows 1..w hold the last source column (zero below the source) and whose rows w+1..h stay zero |
| Extrude.Extruded | main.go:111-116 | p > 0 passes yield a rectangular (w+2p) by (h+2p) image |
| Extrude.ExtrudedOnceCopiesInterior | main.go:125 | after one pass, source pixel (x, y) sits at (x+1, y+1); no border write touches the interior |
| Extrude.ExtrudedOnceBands | main.go:127-154 | the top and bottom bands repeat the first and last rows; the left band repeats the first column |
| Extrude.ExtrudedOnceRightColumn | main.go:156-161 | rows 1..min(w,h) of the right band repeat the last column; rows w+1..h of a tall image stay zero; a wide image's bottom-right corner becomes zero |
| Extrude.ExtrudedOnceCorners | main.go:142-146 | three corners equal the matching source corners; the bottom-right one does too when w <= h |
| Extrude.ExtrudedOnceSquare | main.go:119-164 | on a square image one pass is nearest-edge replication by 1 |
| Extrude.ExtrudedOnceNotSquare | main.go:158 | on a non-square image with no zero pixel, one pass is not nearest-edge replication |
| Extrude.ExtrudedInterior | main.go:111-116 | after p >= 0 passes, source pixel (x, y) sits at (x+p, y+p) |
| Extrude.ExtrudedShape | main.go:111-116 | after p >= 0 passes the image is rectangular and measures (w+2p) by (h+2p) |
| Extrude.InteriorStep | main.go:113 | pass p moves a source pixel from (x+p-1, y+p-1) to (x+p, y+p) |
| Extrude.ExtrudedCorners | main.go:111-116 | after p >= 1 passes the top-left, top-right and bottom-left corners equal the source corners; the bottom-right one does when w <= h and is zero when w > h |
| Extrude.CornersStep | main.go:142-146 | one more pass over an image grown by k keeps those corners, now k+1 pixels out |
| Extrude.NearestEdgeGrows | main.go:111-116 | nearest-edge replication by k and then by 1 is replication by k+1 |
| Extrude.NearestEdgeGrowsAt | main.go:111-116 | the same, for one pixel |
| Extrude.ClampShift | main.go:111-116 | clamping into a range widened by k and shifting back by k is clamping the shifted value |
| Extrude.ExtrudedSquare | main.go:111-116 | on a square image, p passes are nearest-edge replication by p |
| Extrude.DrawnPhase | main.go:125 | drawing the image at (1, 1) on the zero buffer puts it in the interior and leaves the border zero |
| Extrude.FinalPhase | main.go:163 | once every loop has run, the buffer holds `ExtrudedOnce` of the image |
| Extrude.OuterRowTop | main.go:127-133 | the top-row loop fills row 0, columns 1..w, with source row 0 and changes nothing else |
| Extrude.OuterRowBottom | main.go:135-140 | the bottom-row loop fills the last row, columns 1..w, with the last source row and changes nothing else |
| Extrude.CopyCorners | main.go:142-146 | the four corner writes fill the four buffer corners with the source corners |
| Extrude.OuterColumnLeft | main.go:148-154 | the left-column loop fills column 0, rows 1..h, with source column 0 |
| Extrude.OuterColumnRight | main.go:156-161 | the right-column loop, bounded by the width, fills rows 1..w of the last column from the last source column, reading zero below the image and dropping writes below the buffer |
| Extrude.ExtrudeImageOnce | main.go:119-164 | returns a newly allocated (w+2) by (h+2) buffer holding exactly `ExtrudedOnce` of the image |
| Extrude.ExtrudeImage | main.go:111-116 | returns the image itself for extrude <= 0, and otherwise `ExtrudedOnce` applied extrude times |
| Manifest.FrameAt | main.go:84-102 | a stored frame has the given rectangle and zero values in every other field |
| Packer.Offset | main.go:68-80 | `currentPos.X` before image n: 0, then grown by each block's width |
| Packer.FrameOf | main.go:77-102 | the frame recorded for image k: the cursor moved by (extrude, extrude), with the image's original width and height |
| Packer.FramesAfter | main.go:84 | `data.Frames` after n rounds: one insertion per image, under its file name, a later name replacing an earlier one |
| Packer.BlockSize | main.go:74-75 | the extruded block measures (w+2p) by (h+2p) for p >= 0, and w by h for p <= 0 |
| Packer.BlockShowsSprite | main.go:77 | for p >= 0, the block shows source pixel (x, y) at (x+p, y+p) |
| Packer.OffsetSum | main.go:68-80 | the cursor before image n is the sum of the first n widths plus 2p for each, for p >= 0 |
| Packer.BlocksDisjoint | main.go:78-80 | block j ends at or before the cursor of every later block k |
| Packer.OffsetGrows | main.go:80 | the cursor never moves left |
| Packer.FramesKeys | main.go:84 | after n images, the frame map's keys are exactly their file names |
| Packer.SheetKeys | main.go:58-62 | the manifest's frames are keyed by exactly the input file names; meta has exactly the entry "protocol" -> "github.com/jstewart7/packer" |
| Packer.FramesLastWins | main.go:84 | for duplicate file names, the map holds the frame of the last image with that name |
| Packer.FramesUnfilled | main.go:91-101 | every stored frame has rotation and trimming false and zero source size, sprite source size and pivot |
| Packer.FramePlacement | main.go:77-90 | image k's frame is at x = p + the widths before it (for p >= 0 each width grows by 2p), y = p, with the original width and height |
| Packer.TwoSprites | main.go:77-90 | two 2 by 2 images with extrude 1 get frames at (1, 1) and (5, 1), both 2 by 2 |
| Packer.Paint | main.go:64-65 | the canvas is width by height through every blit |
| Packer.PaintStep | main.go:79 | one blit sets the pixels inside the block's rectangle from the block and leaves the rest |
| Packer.PaintKeeps | main.go:79 | a pixel that no later block covers keeps its value |
| Packer.HitsInBlock | main.go:78 | the destination rectangle of blit k is exactly block k's rectangle at (cursor, 0) |
| Packer.CanvasShowsBlock | main.go:64-80 | in the final atlas, a pixel inside block k's rectangle holds block k's matching pixel |
| Packer.CanvasUncovered | main.go:64-65 | in the final atlas, a pixel that no block covers is still zero |
| Packer.FrameShowsSprite | main.go:77-90 | for p >= 0, at (x, y) inside image k's frame the atlas shows the image's pixel (x, y), or zero where the atlas clips it |
| Packer.SheetShowsSprite | main.go:84-90 | the frame stored under a file name, for the last image with that name, shows that image's pixels in the atlas |
| Packer.Place | main.go:70-90 | one round of the loop blits the extruded block at the cursor, returns its width, and returns the frame of its original pixels |
| Packer.Pack | main.go:57-108 | returns a newly allocated width by height atlas that is exactly `PackCanvas` of the inputs, and the manifest `PackSheet` |

## Left out

- `main` (main.go:15-50) is left out. It parses flags, writes files, marshals JSON and encodes PNG, which is all I/O.
- `GetFileList` and `LoadImage` (main.go:166-190) are left out. They list a directory and decode images, which is I/O.
- Colour-model conversion by `draw.Draw` and `Set` is not modelled. Pixels are opaque values copied unchanged.
- `At` outside the bounds returns the zero pixel, as for `image.NRGBA` and `image.RGBA` sources. A grey or paletted source returns its own zero colour there (opaque black, or the first palette entry), so the pixel written into the bottom-right corner of a wide sprite's first pass at main.go:160 is that colour rather than transparent; the model does not capture this.
- The `float64` frame fields are integers here. They only ever hold whole pixel coordinates.
- `currentBounds` (main.go:67, main.go:82) is computed but never read, so it is left out.
- Image bounds whose minimum is not the origin cannot be represented. The code assumes origin bounds at main.go:125 and main.go:128-161.
- Negative atlas sizes are excluded by `Pack`'s precondition. For them `image.Rect` swaps the coordinates and the atlas no longer starts at the origin.
- Images of zero width or height are not taken with a positive `extrude`. The corner reads at main.go:143-146 assume at least one pixel. An image of zero width and positive height cannot be represented as a sequence of columns.
- The TODOs are not implemented and so are not modelled: shrinking the atlas (main.go:105), and rotation, trimming, source size and pivot, which stay at their zero values.
- The meta map's `interface{}` values are strings here. The only value stored is a string.
- Go's `int` is 64 bits wide. Cursor and frame arithmetic are unbounded here, so overflow of the cursor is not modelled.
- `ExtrudeImage` is specified on image values. The model does not capture that the buffer one pass returns is then read, as an `image.Image`, by the next pass.
