/** The destination buffer (Go's *image.NRGBA, always anchored at the
    origin in this core) and the scanner that copies a source row into a
    byte buffer. */
module Raster {
  import opened Geometry
  import opened Pixels

  /** Multiplication by a non-negative factor is monotone. */
  lemma MulMono(a: int, b: int, c: int)
    requires a <= b && 0 <= c
    ensures a * c <= b * c
  {
    assert (b - a) * c >= 0;
  }

  /** Byte offset arithmetic of a row-major buffer with stride s == 4*w:
      the four bytes of (x, y) lie inside the buffer. */
  lemma OffsetInside(w: int, h: int, s: int, x: int, y: int)
    requires s == 4 * w && 0 <= x < w && 0 <= y < h
    ensures 0 <= y * s + 4 * x
    ensures y * s + 4 * x + 4 <= s * h
  {
    MulMono(0, y, s);
    MulMono(y + 1, h, s);
  }

  /** A pixel on an earlier row ends before any pixel of a later row. */
  lemma RowsApart(w: int, s: int, x: int, y: int, x': int, y': int)
    requires s == 4 * w && 0 <= x < w && 0 <= x' && y < y'
    ensures y * s + 4 * x + 4 <= y' * s + 4 * x'
  {
    MulMono(y + 1, y', s);
  }

  /** The scanner's scan(x0, y, x1, y+1, buf[off:]): the pixels of source
      row y, columns [x0, x1), written as RGBA bytes from offset off of buf,
      nothing else touched. */
  method Scan(src: Source, x0: int, x1: int, y: int, buf: array<Byte>, off: int)
    requires x0 <= x1 && 0 <= off && off + 4 * (x1 - x0) <= buf.Length
    modifies buf
    ensures forall k | 0 <= k < x1 - x0 :: Slot(buf[..], off, k) == src.at(x0 + k, y)
    // a row scanned from column 0
    ensures x0 == 0 ==> forall k {:trigger Slot(buf[..], off, k)} | 0 <= k < x1 :: Slot(buf[..], off, k) == src.at(k, y)
    ensures forall j | 0 <= j < buf.Length && !(off <= j < off + 4 * (x1 - x0)) :: buf[j] == old(buf[j])
  {
    var i := off;
    for x := x0 to x1
      invariant i == off + 4 * (x - x0)
      invariant forall k | 0 <= k < x - x0 :: Slot(buf[..], off, k) == src.at(x0 + k, y)
      invariant forall j | 0 <= j < buf.Length && !(off <= j < i) :: buf[j] == old(buf[j])
    {
      var p := src.at(x, y);
      ghost var before := buf[..];
      buf[i], buf[i + 1], buf[i + 2], buf[i + 3] := p.r, p.g, p.b, p.a;
      forall k | 0 <= k < x - x0
        ensures Slot(buf[..], off, k) == src.at(x0 + k, y)
      {
        assert Slot(buf[..], off, k) == Slot(before, off, k);
      }
      assert Slot(buf[..], off, x - x0) == p;
      i := i + 4;
    }
    if x0 == 0 {
      forall k | 0 <= k < x1
        ensures Slot(buf[..], off, k) == src.at(k, y)
      {
        assert Slot(buf[..], off, k) == src.at(x0 + k, y);
      }
    }
  }

  /** A straight-alpha pixel buffer of w x h pixels with Rect (0,0)-(w,h),
      stored row-major with Stride 4*w. */
  class NRGBA {
    const w: int
    const h: int
    const stride: int
    const pix: array<Byte>

    predicate Valid() {
      0 <= w && 0 <= h && stride == 4 * w && pix.Length == stride * h
    }

    /** Bounds(): the buffer's rectangle. */
    function Bounds(): Rectangle { Rectangle(Origin, Point(w, h)) }

    /** The pixel at (x, y). */
    function At(x: int, y: int): Pixel
      reads pix
      requires Valid() && 0 <= x < w && 0 <= y < h
    {
      OffsetInside(w, h, stride, x, y);
      PixelAt(pix[..], y * stride + 4 * x)
    }

    /** image.NRGBA{}: the empty image. */
    constructor Empty()
      ensures Valid() && w == 0 && h == 0 && fresh(pix)
    {
      w, h, stride := 0, 0, 0;
      pix := new Byte[0];
    }

    /** image.NewNRGBA(image.Rect(0, 0, width, height)): a zeroed buffer. */
    constructor Init(width: nat, height: nat)
      ensures Valid() && w == width && h == height && fresh(pix)
      ensures forall j | 0 <= j < pix.Length :: pix[j] == 0
      ensures forall x, y | 0 <= x < w && 0 <= y < h :: At(x, y) == Transparent
    {
      var s := 4 * width;
      w, h, stride := width, height, s;
      pix := new Byte[s * height](_ => 0);
      new;
      forall x, y | 0 <= x < w && 0 <= y < h
        ensures At(x, y) == Transparent
      {
        OffsetInside(w, h, stride, x, y);
      }
    }

    /** &image.NRGBA{Pix: bytes, Stride: 4*width, Rect: Rect(0,0,width,height)}. */
    constructor Literal(width: nat, height: nat, bytes: seq<Byte>)
      requires |bytes| == 4 * width * height
      ensures Valid() && w == width && h == height && fresh(pix)
      ensures pix[..] == bytes
    {
      w, h, stride := width, height, 4 * width;
      pix := new Byte[|bytes|](j requires 0 <= j < |bytes| => bytes[j]);
    }

    /** dst.Pix[i+0..i+3] = p, where i is the byte offset of (x, y). */
    method SetPixel(x: int, y: int, i: int, p: Pixel)
      requires Valid() && 0 <= x < w && 0 <= y < h && i == y * stride + 4 * x
      modifies pix
      ensures forall xx, yy | 0 <= xx < w && 0 <= yy < h ::
        At(xx, yy) == if xx == x && yy == y then p else old(At(xx, yy))
    {
      OffsetInside(w, h, stride, x, y);
      pix[i], pix[i + 1], pix[i + 2], pix[i + 3] := p.r, p.g, p.b, p.a;
      forall xx, yy | 0 <= xx < w && 0 <= yy < h
        ensures At(xx, yy) == if xx == x && yy == y then p else old(At(xx, yy))
      {
        OffsetInside(w, h, stride, xx, yy);
        if yy < y {
          RowsApart(w, stride, xx, yy, x, y);
        } else if y < yy {
          RowsApart(w, stride, x, y, xx, yy);
        }
      }
    }

    /** src.scan(sx0, sy, sx1, sy+1, dst.Pix[i:]) with i the byte offset of
        (x0, y): source row sy, columns [sx0, sx1), lands at (x0.., y). */
    method ScanRowInto(src: Source, sx0: int, sx1: int, sy: int, x0: int, y: int)
      requires Valid() && sx0 <= sx1 && 0 <= x0 && x0 + (sx1 - sx0) <= w && 0 <= y < h
      modifies pix
      ensures forall xx, yy | 0 <= xx < w && 0 <= yy < h ::
        At(xx, yy) == if yy == y && x0 <= xx < x0 + (sx1 - sx0) then src.at(sx0 + (xx - x0), sy) else old(At(xx, yy))
      // a row copied to its own columns
      ensures sx0 == x0 ==> forall xx {:trigger At(xx, y)} | x0 <= xx < sx1 :: At(xx, y) == src.at(xx, sy)
    {
      var n := sx1 - sx0;
      var off := y * stride + 4 * x0;
      MulMono(0, y, stride);
      MulMono(y + 1, h, stride);
      Scan(src, sx0, sx1, sy, pix, off);
      forall xx, yy | 0 <= xx < w && 0 <= yy < h
        ensures At(xx, yy) == if yy == y && x0 <= xx < x0 + n then src.at(sx0 + (xx - x0), sy) else old(At(xx, yy))
      {
        OffsetInside(w, h, stride, xx, yy);
        if yy == y && x0 <= xx < x0 + n {
          assert At(xx, yy) == Slot(pix[..], off, xx - x0);
        } else if yy < y {
          RowsApart(w, stride, xx, yy, x0, y);
        } else if y < yy {
          if n > 0 {
            RowsApart(w, stride, x0 + n - 1, y, xx, yy);
          }
        }
      }
      if sx0 == x0 {
        forall xx | x0 <= xx < sx1
          ensures At(xx, y) == src.at(xx, sy)
        {
          assert At(xx, y) == src.at(sx0 + (xx - x0), sy);
        }
      }
    }
  }
}
