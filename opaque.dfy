/** Opaque-region measures: OpaqueBounds, the bounding box of the pixels
    whose alpha exceeds a threshold, and OpaqueArea, their count. Both scan
    every source row into a scratch NRGBA buffer and read the alpha bytes
    back; rows are taken in increasing order. */
module Opaque {
  import opened Wrappers
  import opened Geometry
  import opened Pixels
  import opened Raster

  /** The pixel at (x, y) counts as opaque: its alpha is above t. */
  predicate IsOpaque(src: Source, t: Byte, x: int, y: int) {
    src.at(x, y).a > t
  }

  /** (xx, yy) lies in the part of a w-wide image scanned before column x
      of row y, rows running top to bottom and columns left to right. */
  predicate Seen(w: int, y: int, x: int, xx: int, yy: int) {
    0 <= xx < w && 0 <= yy && (yy < y || (yy == y && xx < x))
  }

  /** b is the tight inclusive box of the opaque pixels seen before (x, y):
      each of them lies in [b.min, b.max] and each of the four sides passes
      through one of them. */
  ghost predicate TightOn(src: Source, t: Byte, w: int, y: int, x: int, b: Rectangle) {
    (forall xx, yy | Seen(w, y, x, xx, yy) && IsOpaque(src, t, xx, yy) ::
       b.min.x <= xx <= b.max.x && b.min.y <= yy <= b.max.y) &&
    (exists xx, yy | Seen(w, y, x, xx, yy) && IsOpaque(src, t, xx, yy) :: xx == b.min.x) &&
    (exists xx, yy | Seen(w, y, x, xx, yy) && IsOpaque(src, t, xx, yy) :: yy == b.min.y) &&
    (exists xx, yy | Seen(w, y, x, xx, yy) && IsOpaque(src, t, xx, yy) :: xx == b.max.x) &&
    (exists xx, yy | Seen(w, y, x, xx, yy) && IsOpaque(src, t, xx, yy) :: yy == b.max.y)
  }

  /** No pixel seen before (x, y) is opaque. */
  ghost predicate NoneOn(src: Source, t: Byte, w: int, y: int, x: int) {
    forall xx, yy | Seen(w, y, x, xx, yy) :: !IsOpaque(src, t, xx, yy)
  }

  /** One step of OpaqueBounds' running box: the first opaque pixel starts
      it at that point, later ones stretch it by min and max. */
  function Grow(acc: Option<Rectangle>, x: int, y: int): Option<Rectangle> {
    match acc
    case None => Some(Rectangle(Point(x, y), Point(x, y)))
    case Some(b) => Some(Rectangle(Point(Min(x, b.min.x), Min(y, b.min.y)), Point(Max(x, b.max.x), Max(y, b.max.y))))
  }

  /** The running box after the pixels seen before (x, y) of a w-wide
      image; None while no opaque pixel has been met. */
  function BoxUpTo(src: Source, t: Byte, w: nat, y: nat, x: nat): Option<Rectangle>
    requires x <= w
    decreases y, x
  {
    if x == 0 then (if y == 0 then None else BoxUpTo(src, t, w, y - 1, w))
    else
      var acc := BoxUpTo(src, t, w, y, x - 1);
      if IsOpaque(src, t, x - 1, y) then Grow(acc, x - 1, y) else acc
  }

  /** Moving past column x - 1 of row y adds exactly that pixel to the
      part seen. */
  lemma SeenStep(w: int, y: int, x: int)
    ensures forall xx, yy :: Seen(w, y, x, xx, yy) <==> Seen(w, y, x - 1, xx, yy) || (xx == x - 1 && yy == y && 0 <= x - 1 < w && 0 <= y)
  {
  }

  /** A transparent pixel changes neither the emptiness nor the tight box
      of what has been seen. */
  lemma TightSkip(src: Source, t: Byte, w: int, y: int, x: int, b: Rectangle)
    requires !IsOpaque(src, t, x - 1, y)
    ensures NoneOn(src, t, w, y, x) <==> NoneOn(src, t, w, y, x - 1)
    ensures TightOn(src, t, w, y, x - 1, b) ==> TightOn(src, t, w, y, x, b)
  {
    SeenStep(w, y, x);
    if TightOn(src, t, w, y, x - 1, b) {
      var x0, y0 :| Seen(w, y, x - 1, x0, y0) && IsOpaque(src, t, x0, y0) && x0 == b.min.x;
      var x1, y1 :| Seen(w, y, x - 1, x1, y1) && IsOpaque(src, t, x1, y1) && y1 == b.min.y;
      var x2, y2 :| Seen(w, y, x - 1, x2, y2) && IsOpaque(src, t, x2, y2) && x2 == b.max.x;
      var x3, y3 :| Seen(w, y, x - 1, x3, y3) && IsOpaque(src, t, x3, y3) && y3 == b.max.y;
      assert Seen(w, y, x, x0, y0) && Seen(w, y, x, x1, y1) && Seen(w, y, x, x2, y2) && Seen(w, y, x, x3, y3);
    }
  }

  /** The first opaque pixel seen is its own tight box. */
  lemma TightFirst(src: Source, t: Byte, w: int, y: int, x: int)
    requires 1 <= x <= w && 0 <= y
    requires NoneOn(src, t, w, y, x - 1) && IsOpaque(src, t, x - 1, y)
    ensures !NoneOn(src, t, w, y, x)
    ensures TightOn(src, t, w, y, x, Rectangle(Point(x - 1, y), Point(x - 1, y)))
  {
    SeenStep(w, y, x);
    assert Seen(w, y, x, x - 1, y);
  }

  /** A later opaque pixel stretches the tight box by min and max. */
  lemma TightGrow(src: Source, t: Byte, w: int, y: int, x: int, a: Rectangle)
    requires 1 <= x <= w && 0 <= y
    requires TightOn(src, t, w, y, x - 1, a) && IsOpaque(src, t, x - 1, y)
    ensures !NoneOn(src, t, w, y, x)
    ensures TightOn(src, t, w, y, x, Grow(Some(a), x - 1, y).value)
  {
    SeenStep(w, y, x);
    assert Seen(w, y, x, x - 1, y);
    var x0, y0 :| Seen(w, y, x - 1, x0, y0) && IsOpaque(src, t, x0, y0) && x0 == a.min.x;
    var x1, y1 :| Seen(w, y, x - 1, x1, y1) && IsOpaque(src, t, x1, y1) && y1 == a.min.y;
    var x2, y2 :| Seen(w, y, x - 1, x2, y2) && IsOpaque(src, t, x2, y2) && x2 == a.max.x;
    var x3, y3 :| Seen(w, y, x - 1, x3, y3) && IsOpaque(src, t, x3, y3) && y3 == a.max.y;
    assert Seen(w, y, x, x0, y0) && Seen(w, y, x, x1, y1) && Seen(w, y, x, x2, y2) && Seen(w, y, x, x3, y3);
  }

  /** The running box is absent exactly while nothing opaque has been
      seen, and is then the tight box of what has been seen. */
  lemma {:induction false} BoxUpToTight(src: Source, t: Byte, w: nat, y: nat, x: nat)
    requires x <= w
    ensures BoxUpTo(src, t, w, y, x).None? <==> NoneOn(src, t, w, y, x)
    ensures BoxUpTo(src, t, w, y, x).Some? ==> TightOn(src, t, w, y, x, BoxUpTo(src, t, w, y, x).value)
    decreases y, x
  {
    if x == 0 {
      if y > 0 {
        BoxUpToTight(src, t, w, y - 1, w);
        forall xx, yy ensures Seen(w, y, 0, xx, yy) <==> Seen(w, y - 1, w, xx, yy) {
        }
      }
    } else {
      BoxUpToTight(src, t, w, y, x - 1);
      var acc := BoxUpTo(src, t, w, y, x - 1);
      if !IsOpaque(src, t, x - 1, y) {
        TightSkip(src, t, w, y, x, if acc.Some? then acc.value else ZR);
      } else if acc.Some? {
        TightGrow(src, t, w, y, x, acc.value);
      } else {
        TightFirst(src, t, w, y, x);
      }
    }
  }

  /** All w x h pixels of the image are free of opaque ones. */
  ghost predicate NoneOpaque(src: Source, t: Byte) {
    NoneOn(src, t, src.Width(), src.Height(), 0)
  }

  /** b is the tight inclusive box of the image's opaque pixels. */
  ghost predicate IsTight(src: Source, t: Byte, b: Rectangle) {
    TightOn(src, t, src.Width(), src.Height(), 0, b)
  }

  /** The box OpaqueBounds returns, as a function of the image: the zero
      rectangle when nothing is opaque, the tight inclusive box otherwise,
      lying inside the image. */
  function OpaqueBox(src: Source, t: Byte): (r: Rectangle)
    requires src.Valid()
    ensures NoneOpaque(src, t) ==> r == ZR
    ensures !NoneOpaque(src, t) ==> IsTight(src, t, r)
    ensures !NoneOpaque(src, t) ==>
      0 <= r.min.x <= r.max.x < src.Width() && 0 <= r.min.y <= r.max.y < src.Height()
  {
    BoxUpToTight(src, t, src.Width(), src.Height(), 0);
    match BoxUpTo(src, t, src.Width(), src.Height(), 0)
    case None => ZR
    case Some(b) => b
  }

  /** The tight box is unique, so the order in which rows are scanned (and
      the parallel workers' interleaving) cannot change the result. */
  lemma TightBoxUnique(src: Source, t: Byte, b1: Rectangle, b2: Rectangle)
    requires IsTight(src, t, b1) && IsTight(src, t, b2)
    ensures b1 == b2
  {
    var w, h := src.Width(), src.Height();
    var x0, y0 :| Seen(w, h, 0, x0, y0) && IsOpaque(src, t, x0, y0) && x0 == b1.min.x;
    var x1, y1 :| Seen(w, h, 0, x1, y1) && IsOpaque(src, t, x1, y1) && y1 == b1.min.y;
    var x2, y2 :| Seen(w, h, 0, x2, y2) && IsOpaque(src, t, x2, y2) && x2 == b1.max.x;
    var x3, y3 :| Seen(w, h, 0, x3, y3) && IsOpaque(src, t, x3, y3) && y3 == b1.max.y;
    var u0, v0 :| Seen(w, h, 0, u0, v0) && IsOpaque(src, t, u0, v0) && u0 == b2.min.x;
    var u1, v1 :| Seen(w, h, 0, u1, v1) && IsOpaque(src, t, u1, v1) && v1 == b2.min.y;
    var u2, v2 :| Seen(w, h, 0, u2, v2) && IsOpaque(src, t, u2, v2) && u2 == b2.max.x;
    var u3, v3 :| Seen(w, h, 0, u3, v3) && IsOpaque(src, t, u3, v3) && v3 == b2.max.y;
    assert b1.min.x <= u0 && b2.min.x <= x0;
    assert b1.min.y <= v1 && b2.min.y <= y1;
    assert u2 <= b1.max.x && x2 <= b2.max.x;
    assert v3 <= b1.max.y && y3 <= b2.max.y;
  }

  /** An image whose only opaque pixel is (px, py) has the one-point box
      Min == Max == (px, py); at the origin that box is the zero rectangle,
      the same answer as for an image with no opaque pixel at all. */
  lemma OpaqueBoxSinglePixel(src: Source, t: Byte, px: int, py: int)
    requires src.Valid() && 0 <= px < src.Width() && 0 <= py < src.Height()
    requires forall x, y | 0 <= x < src.Width() && 0 <= y < src.Height() :: IsOpaque(src, t, x, y) <==> x == px && y == py
    ensures OpaqueBox(src, t) == Rectangle(Point(px, py), Point(px, py))
    ensures px == 0 && py == 0 ==> OpaqueBox(src, t) == ZR
  {
    var b := Rectangle(Point(px, py), Point(px, py));
    assert Seen(src.Width(), src.Height(), 0, px, py);
    assert IsTight(src, t, b);
    TightBoxUnique(src, t, b, OpaqueBox(src, t));
  }

  /** OpaqueBounds: scan each row into the scratch buffer and stretch the
      running box over every pixel whose alpha byte is above t. */
  method OpaqueBounds(src: Source, t: Byte) returns (out: Rectangle)
    requires src.Valid()
    ensures out == OpaqueBox(src, t)
    ensures NoneOpaque(src, t) ==> out == ZR
    ensures !NoneOpaque(src, t) ==> IsTight(src, t, out)
  {
    var w, h := src.Width(), src.Height();
    out := ZR;
    var first := true;
    var dst := new NRGBA.Init(w, h);
    for y := 0 to h
      modifies dst.pix
      invariant first <==> BoxUpTo(src, t, w, y, 0).None?
      invariant first ==> out == ZR
      invariant !first ==> out == BoxUpTo(src, t, w, y, 0).value
    {
      var i := y * dst.stride;
      dst.ScanRowInto(src, 0, w, y, 0, y);
      for x := 0 to w
        modifies {}
        invariant i == y * dst.stride + 4 * x
        invariant first <==> BoxUpTo(src, t, w, y, x).None?
        invariant first ==> out == ZR
        invariant !first ==> out == BoxUpTo(src, t, w, y, x).value
      {
        OffsetInside(w, h, dst.stride, x, y);
        var a := dst.pix[i + 3];
        assert a == dst.At(x, y).a == src.at(x, y).a;
        i := i + 4;
        if a > t {
          if first {
            out := Rectangle(Point(x, y), Point(x, y));
            first := false;
          }
        }
        if a > t {
          if !first {
            out := Rectangle(Point(Min(x, out.min.x), Min(y, out.min.y)), Point(Max(x, out.max.x), Max(y, out.max.y)));
          }
        }
      }
    }
  }

  /** The number of opaque pixels of row y in columns [lo, hi). */
  function RowCount(src: Source, t: Byte, y: int, lo: int, hi: int): (c: nat)
    ensures c <= Max(0, hi - lo)
    decreases hi - lo
  {
    if hi <= lo then 0
    else RowCount(src, t, y, lo, hi - 1) + (if IsOpaque(src, t, hi - 1, y) then 1 else 0)
  }

  /** The number of opaque pixels in columns [lo, w) of rows [0, h). */
  function Count(src: Source, t: Byte, lo: int, w: int, h: int): nat
    decreases h
  {
    if h <= 0 then 0 else Count(src, t, lo, w, h - 1) + RowCount(src, t, h - 1, lo, w)
  }

  /** The number of opaque pixels in column x of rows [0, h). */
  function ColumnCount(src: Source, t: Byte, x: int, h: int): nat
    decreases h
  {
    if h <= 0 then 0 else ColumnCount(src, t, x, h - 1) + (if IsOpaque(src, t, x, h - 1) then 1 else 0)
  }

  /** The opaque area: every pixel of the image whose alpha is above t. */
  function OpaqueCount(src: Source, t: Byte): nat {
    Count(src, t, 0, src.Width(), src.Height())
  }

  /** The count is at most the number of pixels counted over. */
  lemma {:induction false} CountBound(src: Source, t: Byte, lo: int, w: int, h: int)
    requires 0 <= lo <= w && 0 <= h
    ensures Count(src, t, lo, w, h) <= (w - lo) * h
    decreases h
  {
    if h > 0 {
      CountBound(src, t, lo, w, h - 1);
      assert (w - lo) * h == (w - lo) * (h - 1) + (w - lo);
    }
  }

  /** Every pixel of a row opaque: the row count is its width. */
  lemma {:induction false} RowCountFull(src: Source, t: Byte, y: int, lo: int, hi: int)
    requires lo <= hi
    requires forall x | lo <= x < hi :: IsOpaque(src, t, x, y)
    ensures RowCount(src, t, y, lo, hi) == hi - lo
    decreases hi - lo
  {
    if lo < hi {
      RowCountFull(src, t, y, lo, hi - 1);
    }
  }

  /** Every pixel opaque: the count is the number of pixels. */
  lemma {:induction false} CountFull(src: Source, t: Byte, lo: int, w: int, h: int)
    requires 0 <= lo <= w && 0 <= h
    requires forall x, y | lo <= x < w && 0 <= y < h :: IsOpaque(src, t, x, y)
    ensures Count(src, t, lo, w, h) == (w - lo) * h
    decreases h
  {
    if h > 0 {
      CountFull(src, t, lo, w, h - 1);
      RowCountFull(src, t, h - 1, lo, w);
      assert (w - lo) * h == (w - lo) * (h - 1) + (w - lo);
    }
  }

  /** A row's count from column lo splits into column lo and the rest. */
  lemma {:induction false} RowCountSplit(src: Source, t: Byte, y: int, lo: int, hi: int)
    requires lo < hi
    ensures RowCount(src, t, y, lo, hi) == (if IsOpaque(src, t, lo, y) then 1 else 0) + RowCount(src, t, y, lo + 1, hi)
    decreases hi - lo
  {
    if lo + 1 < hi {
      RowCountSplit(src, t, y, lo, hi - 1);
    }
  }

  /** Counting from column 1 misses exactly the opaque pixels of column 0. */
  lemma {:induction false} CountMissesFirstColumn(src: Source, t: Byte, w: int, h: int)
    requires 1 <= w
    ensures Count(src, t, 0, w, h) == Count(src, t, 1, w, h) + ColumnCount(src, t, 0, h)
    decreases h
  {
    if h > 0 {
      CountMissesFirstColumn(src, t, w, h - 1);
      RowCountSplit(src, t, h - 1, 0, w);
    }
  }

  /** OpaqueArea panics exactly on these sizes: a zero-width image of two
      or more rows (the row slice starts past the empty buffer), and a
      non-empty image one pixel wide or one pixel high (the last alpha read
      runs past the buffer). */
  predicate AreaPanics(w: int, h: int) {
    (w == 0 && h >= 2) || (w >= 1 && h >= 1 && (w == 1 || h == 1))
  }

  /** The row slice of OpaqueArea, bytes [4y, 4y + 4w), fits the buffer
      of (4w) * h bytes on images at least one pixel wide. */
  lemma SliceFits(w: int, h: int, y: int)
    requires 1 <= w && 0 <= y < h
    ensures 4 * y + 4 * w <= (4 * w) * h
  {
    MulMono(1, h, w - 1);
    assert (w - 1) * h == w * h - h;
    assert (4 * w) * h == 4 * (w * h);
  }

  /** The last alpha read, byte 4(h - 1 + w) + 3, stays inside the buffer
      when both sides are at least two pixels. */
  lemma LastReadFits(w: int, h: int)
    requires 2 <= w && 2 <= h
    ensures 4 * (h - 1 + w) + 3 < (4 * w) * h
  {
    MulMono(1, h - 1, w - 1);
    assert (w - 1) * (h - 1) == w * h - w - h + 1;
    assert (4 * w) * h == 4 * (w * h);
  }

  /** On a size that panics, the last row's slice or its last read does
      not fit the buffer. */
  lemma PanicSizeOverruns(w: int, h: int)
    requires 0 <= w && 1 <= h && AreaPanics(w, h)
    ensures 4 * (h - 1) + 4 * w > (4 * w) * h || (w >= 1 && 4 * (h - 1 + w) + 3 >= (4 * w) * h)
  {
    if w == 1 {
      assert (4 * w) * h == 4 * h;
    } else if h == 1 {
      assert (4 * w) * h == 4 * w;
    }
  }

  /** OpaqueArea as written: the row buffer starts at y*4 instead of
      y*Stride, so rows overlap, and the index moves on before the alpha
      is read. In row order, column x reads the alpha of column x+1 of the
      same row, and the last column reads a byte no row has written yet.
      None is a panic. */
  method OpaqueArea(src: Source, t: Byte) returns (r: Option<nat>)
    requires src.Valid()
    ensures r.None? <==> AreaPanics(src.Width(), src.Height())
    ensures r.Some? ==> r.value == Count(src, t, 1, src.Width(), src.Height())
  {
    var w, h := src.Width(), src.Height();
    var dst := new NRGBA.Init(w, h);
    var count := 0;
    for y := 0 to h
      modifies dst.pix
      invariant count == Count(src, t, 1, w, y)
      invariant forall j | 4 * (y + w) <= j < dst.pix.Length :: dst.pix[j] == 0
      invariant y >= 1 ==> 4 * (y - 1) + 4 * w <= dst.pix.Length
      invariant y >= 1 && w >= 1 ==> 4 * (y - 1 + w) + 3 < dst.pix.Length
    {
      var i := y * 4;
      assert dst.pix.Length == (4 * w) * h;
      if i + w * 4 > dst.pix.Length {
        if w >= 1 {
          SliceFits(w, h, y);
        }
        return None;
      }
      Scan(src, 0, w, y, dst.pix, i);
      var ok, c := AreaRow(src, t, dst.pix, y, w);
      if !ok {
        if w >= 2 && h >= 2 {
          LastReadFits(w, h);
        }
        return None;
      }
      count := count + c;
    }
    if h >= 1 && AreaPanics(w, h) {
      PanicSizeOverruns(w, h);
    }
    r := Some(count);
  }

  /** The column loop of OpaqueArea for row y, scanned into pix from
      byte 4y: the index moves on by 4 before each alpha read, so column
      x compares the alpha of column x + 1 and the last column the zero byte
      after the row. false is the panic of a read past the buffer. */
  method AreaRow(src: Source, t: Byte, pix: array<Byte>, y: int, w: int) returns (ok: bool, c: nat)
    requires 0 <= y && 0 <= w && 4 * y + 4 * w <= pix.Length
    requires forall k | 0 <= k < w :: Slot(pix[..], y * 4, k) == src.at(k, y)
    requires forall j | 4 * (y + w) <= j < pix.Length :: pix[j] == 0
    ensures ok <==> w == 0 || 4 * (y + w) + 3 < pix.Length
    ensures ok ==> c == RowCount(src, t, y, 1, w)
  {
    var i := y * 4;
    c := 0;
    for x := 0 to w
      invariant i == 4 * y + 4 * x
      invariant x >= 1 ==> 4 * y + 4 * x + 3 < pix.Length
      invariant c == RowCount(src, t, y, 1, if x < w then x + 1 else w)
    {
      i := i + 4;
      if i + 3 >= pix.Length {
        return false, c;
      }
      var a := pix[i + 3];
      if x + 1 < w {
        assert a == Slot(pix[..], y * 4, x + 1).a == src.at(x + 1, y).a;
      } else {
        assert a == 0;
      }
      if a > t {
        c := c + 1;
      }
    }
    ok := true;
  }

  /** OpaqueArea as evidently intended: each row at y*Stride, the alpha
      of (x, y) read before the index moves on. */
  method OpaqueAreaCorrected(src: Source, t: Byte) returns (count: nat)
    requires src.Valid()
    ensures count == OpaqueCount(src, t)
  {
    var w, h := src.Width(), src.Height();
    var dst := new NRGBA.Init(w, h);
    count := 0;
    for y := 0 to h
      modifies dst.pix
      invariant count == Count(src, t, 0, w, y)
    {
      var i := y * dst.stride;
      dst.ScanRowInto(src, 0, w, y, 0, y);
      for x := 0 to w
        modifies {}
        invariant i == y * dst.stride + 4 * x
        invariant count == Count(src, t, 0, w, y) + RowCount(src, t, y, 0, x)
      {
        OffsetInside(w, h, dst.stride, x, y);
        var a := dst.pix[i + 3];
        assert a == dst.At(x, y).a == src.at(x, y).a;
        i := i + 4;
        if a > t {
          count := count + 1;
        }
      }
    }
  }

  /** The two counts differ by the opaque pixels of column 0, and the
      intended one never exceeds the image's pixel count. */
  lemma AreaAsWrittenMissesColumnZero(src: Source, t: Byte)
    requires src.Valid() && 1 <= src.Width()
    ensures OpaqueCount(src, t) == Count(src, t, 1, src.Width(), src.Height()) + ColumnCount(src, t, 0, src.Height())
    ensures OpaqueCount(src, t) <= src.Width() * src.Height()
  {
    CountMissesFirstColumn(src, t, src.Width(), src.Height());
    CountBound(src, t, 0, src.Width(), src.Height());
  }

  /** A fully opaque 2 x 2 image: the as-written count is 2, the intended
      area 4. */
  lemma AreaCounterexample()
    ensures var src := Source(Rectangle(Origin, Point(2, 2)), (x: int, y: int) => Pixel(0, 0, 0, 255));
      !AreaPanics(2, 2) && Count(src, t := 0, lo := 1, w := 2, h := 2) == 2 && OpaqueCount(src, 0) == 4
  {
    var src := Source(Rectangle(Origin, Point(2, 2)), (x: int, y: int) => Pixel(0, 0, 0, 255));
    CountFull(src, 0, 1, 2, 2);
    CountFull(src, 0, 0, 2, 2);
  }

  /** A fully opaque image of w x h pixels has area w * h. */
  lemma AreaOfFullyOpaque(src: Source, t: Byte)
    requires src.Valid()
    requires forall x, y | 0 <= x < src.Width() && 0 <= y < src.Height() :: IsOpaque(src, t, x, y)
    ensures OpaqueCount(src, t) == src.Width() * src.Height()
  {
    CountFull(src, t, 0, src.Width(), src.Height());
  }
}
