/** Rectangle placement: anchor points, the crop rectangle, the paste and
    intersection rectangles shared by Paste and the Overlay family, and the
    centring of PasteCenter / OverlayCenter. */
module Placement {
  import opened Geometry
  import opened Pixels

  /** Anchor is a Go int; the named positions are iota 0..8. */
  newtype Anchor = int

  const Center: Anchor := 0
  const TopLeft: Anchor := 1
  const Top: Anchor := 2
  const TopRight: Anchor := 3
  const Left: Anchor := 4
  const Right: Anchor := 5
  const BottomLeft: Anchor := 6
  const Bottom: Anchor := 7
  const BottomRight: Anchor := 8

  /** An extent of length size at pos is centred in [lo, hi) the way a
      truncating halving centres it: the left margin gets the smaller half
      (in magnitude), whether the extent fits (margins >= 0) or overhangs
      (margins <= 0). */
  predicate Centred(lo: int, hi: int, size: int, pos: int) {
    var left := pos - lo;
    var right := hi - (pos + size);
    if left + right >= 0 then 0 <= left <= right <= left + 1
    else right <= left <= 0 && left <= right + 1
  }

  /** anchorPt: the top-left corner of a w x h rectangle placed in b at the
      given anchor; an anchor outside the named ones centres. */
  function AnchorPt(b: Rectangle, w: int, h: int, anchor: Anchor): (p: Point)
    ensures anchor == TopLeft ==> p == b.min
    ensures anchor == BottomRight ==> p == Point(b.max.x - w, b.max.y - h)
    ensures anchor in {TopLeft, Left, BottomLeft} ==> p.x == b.min.x
    ensures anchor in {TopRight, Right, BottomRight} ==> p.x + w == b.max.x
    ensures anchor !in {TopLeft, Left, BottomLeft, TopRight, Right, BottomRight} ==> Centred(b.min.x, b.max.x, w, p.x)
    ensures anchor in {TopLeft, Top, TopRight} ==> p.y == b.min.y
    ensures anchor in {BottomLeft, Bottom, BottomRight} ==> p.y + h == b.max.y
    ensures anchor !in {TopLeft, Top, TopRight, BottomLeft, Bottom, BottomRight} ==> Centred(b.min.y, b.max.y, h, p.y)
  {
    var midX := b.min.x + Quo(b.Dx() - w, 2);
    var midY := b.min.y + Quo(b.Dy() - h, 2);
    if anchor == TopLeft then Point(b.min.x, b.min.y)
    else if anchor == Top then Point(midX, b.min.y)
    else if anchor == TopRight then Point(b.max.x - w, b.min.y)
    else if anchor == Left then Point(b.min.x, midY)
    else if anchor == Right then Point(b.max.x - w, midY)
    else if anchor == BottomLeft then Point(b.min.x, b.max.y - h)
    else if anchor == Bottom then Point(midX, b.max.y - h)
    else if anchor == BottomRight then Point(b.max.x - w, b.max.y - h)
    else Point(midX, midY)
  }

  /** Any anchor value outside the named ones behaves like Center. */
  lemma UnlistedAnchorIsCenter(b: Rectangle, w: int, h: int, anchor: Anchor)
    requires anchor < Center || BottomRight < anchor
    ensures AnchorPt(b, w, h, anchor) == AnchorPt(b, w, h, Center)
  {
  }

  /** A w x h rectangle that fits in b stays inside b at every anchor. */
  lemma AnchorFits(b: Rectangle, w: int, h: int, anchor: Anchor)
    requires 0 <= w <= b.Dx() && 0 <= h <= b.Dy()
    ensures var p := AnchorPt(b, w, h, anchor);
      b.min.x <= p.x && p.x + w <= b.max.x && b.min.y <= p.y && p.y + h <= b.max.y
    ensures forall q: Point :: q.In(Rect(0, 0, w, h).Add(AnchorPt(b, w, h, anchor))) ==> q.In(b)
  {
    var p := AnchorPt(b, w, h, anchor);
    assert Rect(0, 0, w, h).Add(p) == Rectangle(p, Point(p.x + w, p.y + h));
  }

  /** Centring overhangs by truncation: a 9 x 9 rectangle centred on a 4 x 4
      one starts at (-2, -2), where floor division would give (-3, -3). */
  lemma AnchorCenterTruncates()
    ensures AnchorPt(Rect(0, 0, 4, 4), 9, 9, Center) == Point(-2, -2)
  {
  }

  /** AnchorPoint: the anchor position of the image's own bounds. */
  function AnchorPoint(img: Source, anchor: Anchor): (p: Point)
    ensures img.Valid() ==> img.bounds.min.x <= p.x <= img.bounds.max.x && img.bounds.min.y <= p.y <= img.bounds.max.y
    ensures anchor == TopLeft ==> p == img.bounds.min
    ensures anchor == BottomRight ==> p == img.bounds.max
  {
    AnchorPt(img.bounds, 0, 0, anchor)
  }

  /** Crop's r := rect.Intersect(bounds).Sub(bounds.Min): the requested part
      of the image, in the image's origin-relative coordinates. */
  function CropRect(bounds: Rectangle, rect: Rectangle): (r: Rectangle)
    ensures r.Empty() <==> rect.Intersect(bounds).Empty()
    ensures forall p: Point :: p.In(r) <==> p.Add(bounds.min).In(rect) && p.Add(bounds.min).In(bounds)
    ensures !r.Empty() ==> 0 <= r.min.x < r.max.x <= bounds.Dx() && 0 <= r.min.y < r.max.y <= bounds.Dy()
  {
    var c := rect.Intersect(bounds);
    var r := c.Sub(bounds.min);
    forall p: Point ensures p.In(r) <==> p.Add(bounds.min).In(c) {
    }
    r
  }

  /** Cropping an image to its own bounds keeps all of it, at the origin. */
  lemma CropWholeImage(bounds: Rectangle)
    requires !bounds.Empty()
    ensures CropRect(bounds, bounds) == Rectangle(Origin, bounds.Size())
  {
  }

  /** CropAnchor's b := srcBounds.Intersect(Rect(0, 0, width, height).Add(pt)). */
  function CropAnchorRect(bounds: Rectangle, width: int, height: int, anchor: Anchor): (r: Rectangle)
    ensures forall q: Point :: q.In(r) ==> q.In(bounds)
    ensures r.Dx() <= Abs(width) && r.Dy() <= Abs(height)
  {
    bounds.Intersect(Rect(0, 0, width, height).Add(AnchorPt(bounds, width, height, anchor)))
  }

  /** When the requested size fits, CropAnchor crops exactly width x height
      at the anchor position. */
  lemma CropAnchorExact(bounds: Rectangle, width: int, height: int, anchor: Anchor)
    requires 0 < width <= bounds.Dx() && 0 < height <= bounds.Dy()
    ensures var p := AnchorPt(bounds, width, height, anchor);
      CropAnchorRect(bounds, width, height, anchor) == Rectangle(p, Point(p.x + width, p.y + height))
  {
    AnchorFits(bounds, width, height, anchor);
  }

  /** A centred request at least as large as the image on both axes
      overhangs it on every side, so CropAnchor keeps the whole image. */
  lemma CenterOversizeKeepsAll(bounds: Rectangle, width: int, height: int)
    requires !bounds.Empty() && bounds.Dx() <= width && bounds.Dy() <= height
    ensures CropAnchorRect(bounds, width, height, Center) == bounds
  {
    var p := AnchorPt(bounds, width, height, Center);
    assert p.x <= bounds.min.x && bounds.max.x <= p.x + width;
    assert p.y <= bounds.min.y && bounds.max.y <= p.y + height;
    assert Rect(0, 0, width, height).Add(p) == Rectangle(p, Point(p.x + width, p.y + height));
  }

  /** pasteRect: the overlay's rectangle with its top-left corner at pos,
      pos being relative to the destination's origin. */
  function PasteRect(fg: Rectangle, pos: Point): Rectangle {
    Rectangle(pos, pos.Add(fg.Size()))
  }

  /** interRect: the part of pasteRect inside a destination of w x h pixels
      at the origin; empty is the zero rectangle. Every point of it reads a
      pixel of the overlay inside the overlay's own size. */
  function InterRect(w: int, h: int, fg: Rectangle, pos: Point): (r: Rectangle)
    ensures forall p: Point :: p.In(r) <==> 0 <= p.x < w && 0 <= p.y < h && p.In(PasteRect(fg, pos))
    ensures r.Empty() ==> r == ZR
    ensures !r.Empty() ==> 0 <= r.min.x < r.max.x <= w && 0 <= r.min.y < r.max.y <= h
    ensures !r.Empty() ==> 0 <= r.min.x - pos.x && r.max.x - pos.x <= fg.Dx()
    ensures !r.Empty() ==> 0 <= r.min.y - pos.y && r.max.y - pos.y <= fg.Dy()
  {
    PasteRect(fg, pos).Intersect(Rectangle(Origin, Point(w, h)))
  }

  /** The top-left corner PasteCenter and OverlayCenter place the overlay
      at: the background's centre minus half the overlay's size, each half
      truncated. For well-formed rectangles the margins left and right (and
      above and below) differ by at most one pixel. */
  function CenterPos(bg: Rectangle, fg: Rectangle): (p: Point)
    ensures bg.WellFormed() && fg.WellFormed() ==>
      -1 <= (p.x - bg.min.x) - (bg.max.x - (p.x + fg.Dx())) <= 1 &&
      -1 <= (p.y - bg.min.y) - (bg.max.y - (p.y + fg.Dy())) <= 1
  {
    var centerX := bg.min.x + Quo(bg.Dx(), 2);
    var centerY := bg.min.y + Quo(bg.Dy(), 2);
    Point(centerX - Quo(fg.Dx(), 2), centerY - Quo(fg.Dy(), 2))
  }

  /** PasteCenter's centring is not anchorPt's Center: halving each size
      separately puts a 1 x 1 overlay at (2, 2) of a 4 x 4 background,
      where halving the difference puts it at (1, 1). */
  lemma CenterPosIsNotAnchorCenter()
    ensures CenterPos(Rect(0, 0, 4, 4), Rect(0, 0, 1, 1)) == Point(2, 2)
    ensures AnchorPt(Rect(0, 0, 4, 4), 1, 1, Center) == Point(1, 1)
  {
  }
}
