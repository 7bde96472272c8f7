/** The manifest that the packer emits next to the atlas (main.go, the
    Serialized* types): for every sprite name a frame record, plus a metadata
    map naming the tool. Coordinates are whole pixels, so the source's
    float64 fields are integers here. */
module Manifest {

  /** A rectangle: top-left corner (x, y), width w, height h. */
  datatype SerializedRect = SerializedRect(x: int, y: int, w: int, h: int)

  datatype SerializedPos = SerializedPos(x: int, y: int)

  datatype SerializedDim = SerializedDim(w: int, h: int)

  /** One sprite's entry: where its original pixels sit in the atlas, and the
      rotation, trimming, source-size and pivot fields the packer leaves at
      their zero values. */
  datatype SerializedFrame = SerializedFrame(
    frame: SerializedRect,
    rotated: bool,
    trimmed: bool,
    spriteSourceSize: SerializedRect,
    sourceSize: SerializedDim,
    pivot: SerializedPos)

  /** The whole manifest. Meta's values are the strings the packer puts there. */
  datatype SerializedSpritesheet = SerializedSpritesheet(
    frames: map<string, SerializedFrame>,
    meta: map<string, string>)

  const ProtocolKey: string := "protocol"

  const Protocol: string := "github.com/jstewart7/packer"

  /** The frame the packer records for a rectangle: only the rectangle is
      filled in, every other field keeps Go's zero value. */
  function FrameAt(x: int, y: int, w: int, h: int): (f: SerializedFrame)
    ensures f.frame.x == x && f.frame.y == y && f.frame.w == w && f.frame.h == h
    ensures Unfilled(f)
  {
    SerializedFrame(SerializedRect(x, y, w, h), false, false,
      SerializedRect(0, 0, 0, 0), SerializedDim(0, 0), SerializedPos(0, 0))
  }

  /** The fields the packer does not compute are at their zero values. */
  predicate Unfilled(f: SerializedFrame) {
    !f.rotated && !f.trimmed && f.spriteSourceSize == SerializedRect(0, 0, 0, 0)
    && f.sourceSize == SerializedDim(0, 0) && f.pivot == SerializedPos(0, 0)
  }
}
