/** OpaquePolygon: n sample rows across the opaque box, each scanned for
    its first and last column whose compared alpha is above the threshold;
    the first ones, in reverse sample order, fill the left half of a 2n
    point array, the last ones the right half. */
module Polygon {
  import opened Wrappers
  import opened Geometry
  import opened Pixels
  import opened Raster
  import opened Opaque

  /** What the source's floor(minY + k * (dy - 1) / (n - 1)) guarantees
      about the sample row of sample k, for a box whose top row is minY
      and whose Dy() is dy: sample 0 is the top row; for dy >= 1 the rows
      lie in [minY, minY + dy - 1] and do not decrease with k; for dy == 0
      the step is negative and every later sample lies above the box. */
  ghost predicate SampleRows(sampleRow: (int, int, int) -> int, n: int) {
    (forall minY, dy :: sampleRow(minY, dy, 0) == minY) &&
    (forall minY, dy, k, k' | 1 <= dy && 0 <= k <= k' < n ::
       minY <= sampleRow(minY, dy, k) <= sampleRow(minY, dy, k') <= minY + dy - 1) &&
    (forall minY, k | 1 <= k < n :: sampleRow(minY, 0, k) < minY)
  }

  /** The sample rows computed in exact arithmetic. */
  function ExactRow(n: int, minY: int, dy: int, k: int): int
    requires n >= 2
  {
    (minY as real + (k as real) * ((dy - 1) as real / (n - 1) as real)).Floor
  }

  /** a <= b scaled by a non-negative real stays ordered. */
  lemma RealMulMono(a: real, b: real, c: real)
    requires a <= b && 0.0 <= c
    ensures a * c <= b * c
  {
    assert b * c - a * c == (b - a) * c;
  }

  /** Floor is monotone. */
  lemma FloorMono(a: real, b: real)
    requires a <= b
    ensures a.Floor <= b.Floor
  {
  }

  /** Sample 0 of the exact rows is the top row. */
  lemma ExactRowFirst(n: int, minY: int, dy: int)
    requires n >= 2
    ensures ExactRow(n, minY, dy, 0) == minY
  {
    assert (0 as real) * ((dy - 1) as real / (n - 1) as real) == 0.0;
  }

  /** Floors of reals between two integers lie between them, in order. */
  lemma FloorBetween(lo: int, a: real, b: real, hi: int)
    requires lo as real <= a <= b <= hi as real
    ensures lo <= a.Floor <= b.Floor <= hi
  {
    FloorMono(lo as real, a);
    FloorMono(a, b);
    FloorMono(b, hi as real);
  }

  /** k steps of d / m, for 0 <= k <= k' <= m, stay in [0, d] and grow
      with k. */
  lemma StepBounds(m: real, d: real, k: real, k': real)
    requires 0.0 < m && 0.0 <= d && 0.0 <= k <= k' <= m
    ensures 0.0 <= k * (d / m) <= k' * (d / m) <= d
  {
    var q := d / m;
    assert q * m == d;
    RealMulMono(k, k', q);
    RealMulMono(0.0, k, q);
    RealMulMono(k', m, q);
  }

  /** For dy >= 1 the exact rows stay in [minY, minY + dy - 1] and do not
      decrease. */
  lemma ExactRowInBox(n: int, minY: int, dy: int, k: int, k': int)
    requires n >= 2 && 1 <= dy && 0 <= k <= k' < n
    ensures minY <= ExactRow(n, minY, dy, k) <= ExactRow(n, minY, dy, k') <= minY + dy - 1
  {
    var q := (dy - 1) as real / (n - 1) as real;
    StepBounds((n - 1) as real, (dy - 1) as real, k as real, k' as real);
    FloorBetween(minY, minY as real + (k as real) * q, minY as real + (k' as real) * q, minY + dy - 1);
  }

  /** For dy == 0 the step is negative and every exact row after the
      first lies above the box. */
  lemma ExactRowAbove(n: int, minY: int, k: int)
    requires n >= 2 && 1 <= k < n
    ensures ExactRow(n, minY, 0, k) < minY
  {
    var m := (n - 1) as real;
    var q := (0 - 1) as real / m;
    assert q * m == -1.0;
    RealMulMono(1.0, k as real, -q);
    RealMulMono(k as real, m, -q);
    var a := minY as real + (k as real) * q;
    assert a < minY as real;
  }

  /** The exact rows meet the requirements on sample rows, so those
      requirements describe the evenly spaced samples of the source. */
  lemma ExactRowsAreSampleRows(n: int)
    requires n >= 2
    ensures SampleRows((minY: int, dy: int, k: int) => ExactRow(n, minY, dy, k), n)
  {
    forall minY: int, dy: int ensures ExactRow(n, minY, dy, 0) == minY {
      ExactRowFirst(n, minY, dy);
    }
    forall minY: int, dy: int, k: int, k': int | 1 <= dy && 0 <= k <= k' < n
      ensures minY <= ExactRow(n, minY, dy, k) <= ExactRow(n, minY, dy, k') <= minY + dy - 1
    {
      ExactRowInBox(n, minY, dy, k, k');
    }
    forall minY: int, k: int | 1 <= k < n
      ensures ExactRow(n, minY, 0, k) < minY
    {
      ExactRowAbove(n, minY, k);
    }
  }

  /** The alpha that column x of sample row y is compared with: the
      index moves on before the read, so column x sees column x + 1 of the
      row, and the box's last column sees the first byte after this row's
      part of the buffer, which no earlier sample has written. */
  function ReadAlpha(src: Source, box: Rectangle, y: int, x: int): Byte {
    if x < box.max.x - 1 then src.at(x + 1, y).a else 0
  }

  /** Column x of the box is reported for sample row y. */
  predicate Hit(src: Source, t: Byte, box: Rectangle, y: int, x: int) {
    box.min.x <= x < box.max.x && ReadAlpha(src, box, y, x) > t
  }

  /** The last reported column in [box.min.x, hi). */
  function LastHit(src: Source, t: Byte, box: Rectangle, y: int, hi: int): Option<int>
    decreases hi - box.min.x
  {
    if hi <= box.min.x then None
    else if Hit(src, t, box, y, hi - 1) then Some(hi - 1)
    else LastHit(src, t, box, y, hi - 1)
  }

  /** The first reported column in [box.min.x, hi). */
  function FirstHit(src: Source, t: Byte, box: Rectangle, y: int, hi: int): Option<int>
    decreases hi - box.min.x
  {
    if hi <= box.min.x then None
    else
      match FirstHit(src, t, box, y, hi - 1)
      case Some(x) => Some(x)
      case None => if Hit(src, t, box, y, hi - 1) then Some(hi - 1) else None
  }

  /** LastHit finds the largest reported column, and nothing when there
      is none. */
  lemma {:induction false} LastHitIsLast(src: Source, t: Byte, box: Rectangle, y: int, hi: int)
    ensures LastHit(src, t, box, y, hi).None? <==> forall x | box.min.x <= x < hi :: !Hit(src, t, box, y, x)
    ensures LastHit(src, t, box, y, hi).Some? ==>
      var x := LastHit(src, t, box, y, hi).value;
      box.min.x <= x < hi && Hit(src, t, box, y, x) && forall x' | x < x' < hi :: !Hit(src, t, box, y, x')
    decreases hi - box.min.x
  {
    if hi > box.min.x && !Hit(src, t, box, y, hi - 1) {
      LastHitIsLast(src, t, box, y, hi - 1);
    }
  }

  /** FirstHit finds the smallest reported column, and nothing when there
      is none. */
  lemma {:induction false} FirstHitIsFirst(src: Source, t: Byte, box: Rectangle, y: int, hi: int)
    ensures FirstHit(src, t, box, y, hi).None? <==> forall x | box.min.x <= x < hi :: !Hit(src, t, box, y, x)
    ensures FirstHit(src, t, box, y, hi).Some? ==>
      var x := FirstHit(src, t, box, y, hi).value;
      box.min.x <= x < hi && Hit(src, t, box, y, x) && forall x' | box.min.x <= x' < x :: !Hit(src, t, box, y, x')
    decreases hi - box.min.x
  {
    if hi > box.min.x {
      FirstHitIsFirst(src, t, box, y, hi - 1);
    }
  }

  /** The point recorded for a sample row: the zero point when no column
      is reported. */
  function PointOf(x: Option<int>, y: int): Point {
    match x
    case None => Origin
    case Some(x) => Point(x, y)
  }

  /** The right point of sample row y. */
  function RightPoint(src: Source, t: Byte, box: Rectangle, y: int): Point {
    PointOf(LastHit(src, t, box, y, box.max.x), y)
  }

  /** The left point of sample row y. */
  function LeftPoint(src: Source, t: Byte, box: Rectangle, y: int): Point {
    PointOf(FirstHit(src, t, box, y, box.max.x), y)
  }

  /** The two points of a sample row: both zero when no column of the
      row is reported; otherwise on that row, each at a reported column,
      the left one at the first and the right one at the last. */
  lemma SidePoints(src: Source, t: Byte, box: Rectangle, y: int)
    ensures (forall x | box.min.x <= x < box.max.x :: !Hit(src, t, box, y, x)) ==>
      LeftPoint(src, t, box, y) == Origin && RightPoint(src, t, box, y) == Origin
    ensures (exists x | box.min.x <= x < box.max.x :: Hit(src, t, box, y, x)) ==>
      var l, r := LeftPoint(src, t, box, y), RightPoint(src, t, box, y);
      l.y == y && r.y == y && Hit(src, t, box, y, l.x) && Hit(src, t, box, y, r.x) &&
      forall x | Hit(src, t, box, y, x) :: l.x <= x <= r.x
  {
    LastHitIsLast(src, t, box, y, box.max.x);
    FirstHitIsFirst(src, t, box, y, box.max.x);
  }

  /** A box at most one column wide (Dx() <= 1, so at most two columns of
      opaque pixels) reports no column on any row: the last column's read
      lands past the row and the first column's pixel is never read. */
  lemma NarrowBoxHasNoPoints(src: Source, t: Byte, box: Rectangle, y: int)
    requires box.Dx() <= 1
    ensures LeftPoint(src, t, box, y) == Origin && RightPoint(src, t, box, y) == Origin
  {
    forall x | box.min.x <= x < box.max.x ensures !Hit(src, t, box, y, x) {
    }
    SidePoints(src, t, box, y);
  }

  /** Searches over the same reported columns find the same columns. */
  lemma {:induction false} SameHitsSameSearch(src: Source, src': Source, t: Byte, box: Rectangle, y: int, hi: int)
    requires forall x | box.min.x <= x < hi :: Hit(src, t, box, y, x) == Hit(src', t, box, y, x)
    ensures LastHit(src, t, box, y, hi) == LastHit(src', t, box, y, hi)
    ensures FirstHit(src, t, box, y, hi) == FirstHit(src', t, box, y, hi)
    decreases hi - box.min.x
  {
    if hi > box.min.x {
      SameHitsSameSearch(src, src', t, box, y, hi - 1);
    }
  }

  /** Only the pixels strictly between the box's first and last columns
      are ever read: the opaque pixels on the box's left and right edges
      (which exist, the box being tight) do not affect the points. */
  lemma OnlyInnerColumnsRead(src: Source, src': Source, t: Byte, box: Rectangle, y: int)
    requires forall x | box.min.x < x < box.max.x :: src.at(x, y) == src'.at(x, y)
    ensures LeftPoint(src, t, box, y) == LeftPoint(src', t, box, y)
    ensures RightPoint(src, t, box, y) == RightPoint(src', t, box, y)
  {
    forall x | box.min.x <= x < box.max.x
      ensures Hit(src, t, box, y, x) == Hit(src', t, box, y, x)
    {
      if x < box.max.x - 1 {
        assert src.at(x + 1, y) == src'.at(x + 1, y);
      }
    }
    SameHitsSameSearch(src, src', t, box, y, box.max.x);
  }

  /** Point j of the polygon over a given box: out[n + k] is the right
      point of sample k, out[n - 1 - k] its left point. */
  function PointIn(src: Source, t: Byte, box: Rectangle, n: int, sampleRow: (int, int, int) -> int, j: int): Point
    requires 0 <= j < 2 * n
  {
    if j >= n then RightPoint(src, t, box, sampleRow(box.min.y, box.Dy(), j - n))
    else LeftPoint(src, t, box, sampleRow(box.min.y, box.Dy(), n - 1 - j))
  }

  /** Point j of the polygon OpaquePolygon returns. */
  function PolygonPoint(src: Source, t: Byte, n: int, sampleRow: (int, int, int) -> int, j: int): Point
    requires src.Valid() && 0 <= j < 2 * n
  {
    PointIn(src, t, OpaqueBox(src, t), n, sampleRow, j)
  }

  /** The array after the first k samples: their points written, the
      rest still zero. */
  function Filled(src: Source, t: Byte, box: Rectangle, n: int, sampleRow: (int, int, int) -> int, k: int, j: int): Point
    requires 0 <= j < 2 * n
  {
    if n <= j < n + k || n - k <= j < n then PointIn(src, t, box, n, sampleRow, j) else Origin
  }

  /** An image with a single opaque pixel gets a polygon of 2n zero
      points: its box is one pixel, so no column is ever reported. */
  lemma SinglePixelPolygonIsZero(src: Source, t: Byte, n: int, sampleRow: (int, int, int) -> int, px: int, py: int)
    requires src.Valid() && 0 <= px < src.Width() && 0 <= py < src.Height()
    requires forall x, y | 0 <= x < src.Width() && 0 <= y < src.Height() :: IsOpaque(src, t, x, y) <==> x == px && y == py
    ensures forall j | 0 <= j < 2 * n :: PolygonPoint(src, t, n, sampleRow, j) == Origin
  {
    OpaqueBoxSinglePixel(src, t, px, py);
    var box := OpaqueBox(src, t);
    forall y {
      NarrowBoxHasNoPoints(src, t, box, y);
    }
  }

  /** Sample rows k past the first lie k rows further down the buffer:
      offsets and the end of their part of the buffer. */
  lemma RegionFits(row: int, w: int, srcW: int, srcH: int)
    requires 0 <= row && 1 <= w < srcW && row + 1 <= srcH
    ensures 0 <= row * 4 * w
    ensures row * 4 * w + 4 * w == 4 * ((row + 1) * w)
    ensures 4 * ((row + 1) * w) + 4 <= (4 * srcW) * srcH
  {
    MulMono(0, row, w);
    MulMono(row + 1, srcH, w);
    MulMono(w + 1, srcW, srcH);
    assert (4 * srcW) * srcH == 4 * (srcW * srcH);
  }

  /** What SampleRows says about sample k of a box with top row minY
      and Dy() == dy. */
  lemma SampleRowAt(sampleRow: (int, int, int) -> int, n: int, minY: int, dy: int, k: int)
    requires SampleRows(sampleRow, n) && 0 <= k < n
    ensures k == 0 ==> sampleRow(minY, dy, k) == minY
    ensures dy >= 1 ==> minY <= sampleRow(minY, dy, k) <= minY + dy - 1
    ensures dy >= 1 && k >= 1 ==> sampleRow(minY, dy, k - 1) <= sampleRow(minY, dy, k)
    ensures dy == 0 && k >= 1 ==> sampleRow(minY, dy, k) < minY
  {
  }

  /** A sample whose row lies row rows below the box's top, at or below
      the previous sample's row prev, writes bytes [row*4*w, 4*(row+1)*w)
      of the buffer, from no earlier than where the previous sample's
      bytes end. */
  lemma SampleRegion(prev: int, row: int, w: int)
    requires 0 <= w
    requires w >= 1 ==> prev <= row
    ensures row * 4 * w + 4 * w == 4 * ((row + 1) * w)
    ensures (prev + 1) * w <= (row + 1) * w
  {
    if w >= 1 {
      MulMono(prev + 1, row + 1, w);
    }
  }

  /** The opaque box is well formed, and inside the image when it is at
      least one column wide. */
  lemma BoxInside(src: Source, t: Byte)
    requires src.Valid()
    ensures var b := OpaqueBox(src, t);
      b.WellFormed() &&
      (b.Dx() >= 1 ==> 0 <= b.min.x && b.max.x < src.Width() && 0 <= b.min.y && b.max.y < src.Height())
  {
  }

  /** The slice offset (row) * 4 * w is negative exactly when the row
      lies above the box and the box is at least one column wide. */
  lemma OffsetSign(row: int, w: int)
    requires 0 <= w
    ensures row * 4 * w < 0 <==> row < 0 && w >= 1
  {
    if row < 0 && w >= 1 {
      MulMono(row + 1, 0, 4 * w);
    } else if row >= 0 {
      MulMono(0, row, 4 * w);
    }
  }

  /** OpaquePolygon: the opaque box, then for every sample k the row
      scanned into the buffer at (row - minY) * 4 * w, w being the box's
      Dx(), and its columns compared left to right. None is the panic of a
      negative slice index, which happens exactly when the box is one row
      high and more than one column wide. */
  method OpaquePolygon(src: Source, n: int, t: Byte, sampleRow: (int, int, int) -> int) returns (r: Option<seq<Point>>)
    requires src.Valid() && n >= 2 && SampleRows(sampleRow, n)
    ensures var box := OpaqueBox(src, t); r.None? <==> box.Dy() == 0 && box.Dx() >= 1
    ensures r.Some? ==> |r.value| == 2 * n
    ensures r.Some? ==> forall j | 0 <= j < 2 * n :: r.value[j] == PolygonPoint(src, t, n, sampleRow, j)
  {
    var bounds := OpaqueBounds(src, t);
    BoxInside(src, t);
    r := SampleBox(src, n, t, sampleRow, bounds);
  }

  /** The sampling part of OpaquePolygon, for the box OpaqueBounds found:
      the scratch buffer and the zeroed 2n-point array, then one row scan
      and one column loop per sample. */
  method SampleBox(src: Source, n: int, t: Byte, sampleRow: (int, int, int) -> int, bounds: Rectangle)
    returns (r: Option<seq<Point>>)
    requires src.Valid() && n >= 2 && SampleRows(sampleRow, n) && bounds.WellFormed()
    requires bounds.Dx() >= 1 ==>
      0 <= bounds.min.x && bounds.max.x < src.Width() && 0 <= bounds.min.y && bounds.max.y < src.Height()
    ensures r.None? <==> bounds.Dy() == 0 && bounds.Dx() >= 1
    ensures r.Some? ==> |r.value| == 2 * n
    ensures r.Some? ==> forall j | 0 <= j < 2 * n :: r.value[j] == PointIn(src, t, bounds, n, sampleRow, j)
  {
    var srcW, srcH := src.Width(), src.Height();
    var dst := new NRGBA.Init(srcW, srcH);
    var out := new Point[2 * n](_ => Origin);
    var w := bounds.Dx();
    var dy := bounds.Dy();
    var minY := bounds.min.y;
    assert dst.pix.Length == (4 * srcW) * srcH;
    ghost var prevRow := minY - 1;
    for k := 0 to n
      modifies dst.pix, out
      invariant forall j | 0 <= j < 2 * n :: out[j] == Filled(src, t, bounds, n, sampleRow, k, j)
      invariant forall b | 0 <= b < dst.pix.Length && 4 * ((prevRow - minY + 1) * w) <= b :: dst.pix[b] == 0
      invariant k == 0 ==> prevRow == minY - 1
      invariant k >= 1 ==> prevRow == sampleRow(minY, dy, k - 1)
      invariant k >= 2 ==> !(dy == 0 && w >= 1)
    {
      var ok := SampleStep(src, t, bounds, n, sampleRow, k, dst.pix, out, prevRow);
      if !ok {
        return None;
      }
      prevRow := sampleRow(minY, dy, k);
    }
    r := Some(out[..]);
  }

  /** One pass of OpaquePolygon's sample loop: sample k's row scanned
      into the buffer and its two points written; false is the panic of
      a negative slice start, which only the second sample of a box one
      row high and at least one column wide meets. */
  method SampleStep(src: Source, t: Byte, box: Rectangle, n: int, sampleRow: (int, int, int) -> int, k: int,
                    pix: array<Byte>, out: array<Point>, ghost prevRow: int) returns (ok: bool)
    requires SampleRows(sampleRow, n) && 0 <= k < n && box.WellFormed()
    requires box.Dx() >= 1 ==>
      0 <= box.min.x && box.max.x < src.Width() && 0 <= box.min.y && box.max.y < src.Height()
    requires pix.Length == (4 * src.Width()) * src.Height() && out.Length == 2 * n
    requires forall j | 0 <= j < 2 * n :: out[j] == Filled(src, t, box, n, sampleRow, k, j)
    requires forall b | 0 <= b < pix.Length && 4 * ((prevRow - box.min.y + 1) * box.Dx()) <= b :: pix[b] == 0
    requires k == 0 ==> prevRow == box.min.y - 1
    requires k >= 1 ==> prevRow == sampleRow(box.min.y, box.Dy(), k - 1)
    requires k >= 2 ==> !(box.Dy() == 0 && box.Dx() >= 1)
    modifies pix, out
    ensures !ok <==> k == 1 && box.Dy() == 0 && box.Dx() >= 1
    ensures ok ==> forall j | 0 <= j < 2 * n :: out[j] == Filled(src, t, box, n, sampleRow, k + 1, j)
    ensures ok ==> forall b | 0 <= b < pix.Length && 4 * ((sampleRow(box.min.y, box.Dy(), k) - box.min.y + 1) * box.Dx()) <= b ::
      pix[b] == 0
  {
    var w := box.Dx();
    var y := sampleRow(box.min.y, box.Dy(), k);
    var i := (y - box.min.y) * 4 * w;
    SampleRowAt(sampleRow, n, box.min.y, box.Dy(), k);
    OffsetSign(y - box.min.y, w);
    if i < 0 {
      return false;
    }
    if w >= 1 {
      RegionFits(y - box.min.y, w, src.Width(), src.Height());
    }
    ScanRegion(src, box, y, pix, i, prevRow);
    FilledStep(src, t, box, n, sampleRow, k);
    ScanSample(pix, i, src, t, box, y, out, n + k, n - 1 - k);
    ok := true;
  }

  /** The row scan of one sample: row y of the box lands at offset
      off = (y - minY) * 4 * w, where w is the box's Dx(). The bytes from
      where the previous sample's row prev ended were zero; the bytes
      from where this row ends stay zero, the first of them being the
      byte the last column's read lands on. */
  method ScanRegion(src: Source, box: Rectangle, y: int, pix: array<Byte>, off: int, ghost prev: int)
    requires box.WellFormed() && off == (y - box.min.y) * 4 * box.Dx() && 0 <= off
    requires box.Dx() >= 1 ==> prev <= y && 4 * ((y - box.min.y + 1) * box.Dx()) + 4 <= pix.Length
    requires forall b | 0 <= b < pix.Length && 4 * ((prev - box.min.y + 1) * box.Dx()) <= b :: pix[b] == 0
    modifies pix
    ensures off + 4 * box.Dx() <= pix.Length
    ensures box.Dx() >= 1 ==> off + 4 * box.Dx() + 4 <= pix.Length && pix[off + 4 * box.Dx() + 3] == 0
    ensures forall k | 0 <= k < box.Dx() :: Slot(pix[..], off, k) == src.at(box.min.x + k, y)
    ensures forall b | 0 <= b < pix.Length && 4 * ((y - box.min.y + 1) * box.Dx()) <= b :: pix[b] == 0
  {
    SampleRegion(prev - box.min.y, y - box.min.y, box.Dx());
    Scan(src, box.min.x, box.max.x, y, pix, off);
  }

  /** Writing sample k's two points turns the array for k samples into
      the array for k + 1. */
  lemma FilledStep(src: Source, t: Byte, box: Rectangle, n: int, sampleRow: (int, int, int) -> int, k: int)
    requires 0 <= k < n
    ensures Filled(src, t, box, n, sampleRow, k, n + k) == Origin
    ensures Filled(src, t, box, n, sampleRow, k, n - 1 - k) == Origin
    ensures forall j | 0 <= j < 2 * n && j != n + k && j != n - 1 - k ::
      Filled(src, t, box, n, sampleRow, k + 1, j) == Filled(src, t, box, n, sampleRow, k, j)
    ensures Filled(src, t, box, n, sampleRow, k + 1, n + k) == RightPoint(src, t, box, sampleRow(box.min.y, box.Dy(), k))
    ensures Filled(src, t, box, n, sampleRow, k + 1, n - 1 - k) == LeftPoint(src, t, box, sampleRow(box.min.y, box.Dy(), k))
  {
  }

  /** The column loop of one sample: the sample's row of the box lies in
      pix from offset off, followed by a zero byte where the last column's
      read lands; every reported column overwrites out[right], the first
      one also out[left]. */
  method ScanSample(pix: array<Byte>, off: int, src: Source, t: Byte, box: Rectangle, y: int,
                    out: array<Point>, right: int, left: int)
    requires box.min.x <= box.max.x && 0 <= off
    requires box.Dx() >= 1 ==> off + 4 * box.Dx() + 4 <= pix.Length
    requires forall k | 0 <= k < box.Dx() :: Slot(pix[..], off, k) == src.at(box.min.x + k, y)
    requires box.Dx() >= 1 ==> pix[off + 4 * box.Dx() + 3] == 0
    requires 0 <= right < out.Length && 0 <= left < out.Length && right != left
    requires out[right] == Origin && out[left] == Origin
    modifies out
    ensures out[right] == RightPoint(src, t, box, y) && out[left] == LeftPoint(src, t, box, y)
    ensures forall j | 0 <= j < out.Length && j != right && j != left :: out[j] == old(out[j])
  {
    var i := off;
    var foundLeft := false;
    for x := box.min.x to box.max.x
      invariant i == off + 4 * (x - box.min.x)
      invariant out[right] == PointOf(LastHit(src, t, box, y, x), y)
      invariant foundLeft <==> FirstHit(src, t, box, y, x).Some?
      invariant out[left] == PointOf(FirstHit(src, t, box, y, x), y)
      invariant forall j | 0 <= j < out.Length && j != right && j != left :: out[j] == old(out[j])
    {
      i := i + 4;
      var a := pix[i + 3];
      if x < box.max.x - 1 {
        assert a == Slot(pix[..], off, x - box.min.x + 1).a == src.at(box.min.x + (x - box.min.x + 1), y).a;
      } else {
        assert a == 0;
      }
      if a <= t {
        continue;
      }
      out[right] := Point(x, y);
      if foundLeft {
        continue;
      }
      foundLeft := true;
      out[left] := Point(x, y);
    }
  }
}
