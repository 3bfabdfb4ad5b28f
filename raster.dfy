/**
 * A frame's pixel buffer, as the bytes of an 800x600 RGB image: row-major,
 * three bytes per pixel, no header and no padding. A stroke paints the pixels
 * that the line rasteriser covers.
 */
module Raster {
  import opened Bytes

  const Width: nat := 800
  const Height: nat := 600
  /** Bytes per pixel (red, green, blue). */
  const Channels: nat := 3
  /** The length of every frame's buffer. */
  const FrameSize: nat := Width * Height * Channels

  /** The byte value of every channel of a white pixel (the background). */
  const Background: byte := 255
  /** The byte value of every channel of a black pixel (the ink). */
  const Foreground: byte := 0

  type Frame = seq<byte>

  /** A canvas position: x is the column, y the row. */
  datatype Point = Point(x: int, y: int)

  /**
   * The pixels a line rasteriser covers when it draws the segment between two
   * points with a given line width.
   */
  type Rasteriser = (Point, Point, int) -> set<Point>

  predicate IsFrame(f: Frame)
  {
    |f| == FrameSize
  }

  /** A blank frame: every pixel white. */
  function WhiteFrame(): (f: Frame)
    ensures IsFrame(f)
    ensures forall i :: 0 <= i < |f| ==> f[i] == Background
  {
    seq(FrameSize, _ => Background)
  }

  /** The pixel that the byte at offset `i` of a frame belongs to. */
  function PixelOf(i: nat): Point
  {
    Point(i / Channels % Width, i / Channels / Width)
  }

  /** The offset of channel `c` of pixel (x, y) in a frame. */
  function Offset(p: Point, c: nat): int
  {
    (p.y * Width + p.x) * Channels + c
  }

  /** The layout is row-major with three bytes per pixel: each channel of each pixel has its own offset. */
  lemma OffsetLayout(p: Point, c: nat)
    requires 0 <= p.x < Width && 0 <= p.y < Height && c < Channels
    ensures 0 <= Offset(p, c) < FrameSize
    ensures PixelOf(Offset(p, c)) == p
  {
    var k := p.y * Width + p.x;
    assert 0 <= k < Width * Height by {
      assert p.y * Width <= (Height - 1) * Width;
    }
    assert Offset(p, c) / Channels == k;
    assert k / Width == p.y && k % Width == p.x;
  }

  /** The frame with every channel of each covered pixel set to `colour`. */
  function Paint(f: Frame, covered: set<Point>, colour: byte): (r: Frame)
    ensures |r| == |f|
  {
    seq(|f|, i requires 0 <= i < |f| => if PixelOf(i) in covered then colour else f[i])
  }

  /** Two frames agree on every byte of the pixels in `region`. */
  predicate SameOn(f: Frame, g: Frame, region: set<Point>)
  {
    |f| == |g| && forall i :: 0 <= i < |f| && PixelOf(i) in region ==> f[i] == g[i]
  }

  /** A stroke changes the covered pixels, to its colour, and nothing else. */
  lemma PaintEffect(f: Frame, covered: set<Point>, colour: byte, i: nat)
    requires i < |f|
    ensures PixelOf(i) in covered ==> Paint(f, covered, colour)[i] == colour
    ensures PixelOf(i) !in covered ==> Paint(f, covered, colour)[i] == f[i]
  {
  }

  /** Erasing a region over any frame makes it byte-identical there to a blank frame. */
  lemma EraseRestoresBackground(f: Frame, covered: set<Point>)
    requires IsFrame(f)
    ensures SameOn(Paint(f, covered, Background), WhiteFrame(), covered)
  {
  }

  /** A later stroke over the same pixels hides the earlier one completely. */
  lemma PaintOverwrites(f: Frame, covered: set<Point>, first: byte, second: byte)
    ensures Paint(Paint(f, covered, first), covered, second) == Paint(f, covered, second)
  {
  }
}
