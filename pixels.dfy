/** Straight-alpha RGBA8 pixels, their byte layout, and the read-only image
    source that every operation scans. */
module Pixels {
  import opened Geometry

  type Byte = x: int | 0 <= x < 256

  /** color.NRGBA: four 8-bit channels, not premultiplied. */
  datatype Pixel = Pixel(r: Byte, g: Byte, b: Byte, a: Byte)

  const Transparent := Pixel(0, 0, 0, 0)

  /** Channel c (0 = R, 1 = G, 2 = B, 3 = A) of p, the byte at offset c of
      the pixel's four-byte group. */
  function Channel(p: Pixel, c: int): Byte
    requires 0 <= c < 4
  {
    if c == 0 then p.r else if c == 1 then p.g else if c == 2 then p.b else p.a
  }

  /** The pixel whose four bytes start at offset i of s. */
  function PixelAt(s: seq<Byte>, i: int): (p: Pixel)
    requires 0 <= i && i + 4 <= |s|
    ensures forall c | 0 <= c < 4 :: Channel(p, c) == s[i + c]
  {
    Pixel(s[i], s[i + 1], s[i + 2], s[i + 3])
  }

  /** The k-th pixel of a row of pixels stored from offset off of s. */
  function Slot(s: seq<Byte>, off: int, k: int): Pixel
    requires 0 <= k && 0 <= off && off + 4 * k + 4 <= |s|
  {
    PixelAt(s, off + 4 * k)
  }

  /** An image.Image as the scanner sees it: its bounds, and its pixels
      already converted to NRGBA, addressed relative to bounds.Min (the
      scanner's coordinates run from (0,0) to (Dx,Dy)). */
  datatype Source = Source(bounds: Rectangle, at: (int, int) -> Pixel) {

    /** Bounds are well formed, as image.Rect makes them. */
    predicate Valid() { bounds.WellFormed() }

    function Width(): int { bounds.Dx() }

    function Height(): int { bounds.Dy() }
  }
}
