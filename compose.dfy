/** The compositing operations: New, Clone, Crop (and its anchored forms),
    Paste, Overlay, OverlayWithOp and OverlayOnCanvas. Each fills a fresh
    destination buffer row by row; the row loop of the source's parallel()
    helper runs here in increasing row order. */
module Compose {
  import opened Geometry
  import opened Pixels
  import opened Raster
  import opened Placement
  import opened Ops

  /** bytes.Repeat([]byte{c.R, c.G, c.B, c.A}, count). */
  function Repeat(c: Pixel, count: nat): (s: seq<Byte>)
    ensures |s| == 4 * count
    ensures forall i | 0 <= i < |s| :: s[i] == Channel(c, i % 4)
  {
    if count == 0 then [] else Repeat(c, count - 1) + [c.r, c.g, c.b, c.a]
  }

  /** Repeating the all-zero colour gives the zeroed buffer NewNRGBA makes,
      so New's two non-empty branches agree. */
  lemma RepeatTransparent(count: nat)
    ensures Repeat(Transparent, count) == seq(4 * count, _ => 0)
  {
  }

  /** Pixel k of the repeated colour is the colour. */
  lemma RepeatSlot(c: Pixel, count: nat, k: int)
    requires 0 <= k < count
    ensures PixelAt(Repeat(c, count), 4 * k) == c
  {
    var s := Repeat(c, count);
    assert (4 * k) % 4 == 0 && (4 * k + 1) % 4 == 1 && (4 * k + 2) % 4 == 2 && (4 * k + 3) % 4 == 3;
    assert s[4 * k] == c.r && s[4 * k + 1] == c.g && s[4 * k + 2] == c.b && s[4 * k + 3] == c.a;
  }

  /** New: an empty image when either size is not positive, otherwise a
      width x height buffer every pixel of which is the fill colour. */
  method New(width: int, height: int, fill: Pixel) returns (dst: NRGBA)
    ensures fresh(dst.pix) && dst.Valid()
    ensures width <= 0 || height <= 0 ==> dst.w == 0 && dst.h == 0
    ensures width > 0 && height > 0 ==> dst.w == width && dst.h == height && dst.stride == 4 * width
    ensures width > 0 && height > 0 ==> dst.pix[..] == Repeat(fill, width * height)
    ensures forall x, y | 0 <= x < dst.w && 0 <= y < dst.h :: dst.At(x, y) == fill
  {
    if width <= 0 || height <= 0 {
      dst := new NRGBA.Empty();
      return;
    }
    if fill == Transparent {
      dst := new NRGBA.Init(width, height);
      RepeatTransparent(width * height);
      assert dst.pix[..] == Repeat(fill, width * height);
      return;
    }
    dst := new NRGBA.Literal(width, height, Repeat(fill, width * height));
    forall x, y | 0 <= x < dst.w && 0 <= y < dst.h
      ensures dst.At(x, y) == fill
    {
      OffsetInside(dst.w, dst.h, dst.stride, x, y);
      var k := y * width + x;
      assert y * dst.stride + 4 * x == 4 * k;
      RepeatSlot(fill, width * height, k);
    }
  }

  /** Clone: a buffer of the source's size holding the source's pixels. */
  method Clone(src: Source) returns (dst: NRGBA)
    requires src.Valid()
    ensures fresh(dst.pix) && dst.Valid()
    ensures dst.w == src.Width() && dst.h == src.Height()
    ensures forall x, y | 0 <= x < dst.w && 0 <= y < dst.h :: dst.At(x, y) == src.at(x, y)
  {
    dst := new NRGBA.Init(src.Width(), src.Height());
    for y := 0 to dst.h
      modifies dst.pix
      invariant forall xx, yy | 0 <= xx < dst.w && 0 <= yy < y :: dst.At(xx, yy) == src.at(xx, yy)
    {
      dst.ScanRowInto(src, 0, dst.w, y, 0, y);
    }
  }

  /** dst holds the part r of the image, moved to the origin: r's size,
      or the empty image when r is empty. */
  predicate CropOf(dst: NRGBA, src: Source, r: Rectangle)
    reads dst.pix
  {
    dst.Valid() &&
    (r.Empty() ==> dst.w == 0 && dst.h == 0) &&
    (!r.Empty() ==> dst.w == r.Dx() && dst.h == r.Dy()) &&
    forall x, y | 0 <= x < dst.w && 0 <= y < dst.h :: dst.At(x, y) == src.at(r.min.x + x, r.min.y + y)
  }

  /** Crop: the part of the image inside rect, moved to the origin; the
      empty image when rect misses the image. */
  method Crop(src: Source, rect: Rectangle) returns (dst: NRGBA)
    ensures fresh(dst.pix) && CropOf(dst, src, CropRect(src.bounds, rect))
    ensures dst.w > 0 ==> dst.w <= src.Width() && dst.h <= src.Height()
  {
    var r := CropRect(src.bounds, rect);
    if r.Empty() {
      dst := new NRGBA.Empty();
      return;
    }
    dst := new NRGBA.Init(r.Dx(), r.Dy());
    for y := r.min.y to r.max.y
      modifies dst.pix
      invariant forall xx, yy | 0 <= xx < dst.w && 0 <= yy < y - r.min.y ::
        dst.At(xx, yy) == src.at(r.min.x + xx, r.min.y + yy)
    {
      dst.ScanRowInto(src, r.min.x, r.max.x, y, 0, y - r.min.y);
    }
  }

  /** CropAnchor: crop a width x height rectangle placed at the anchor;
      when that size fits, the result has exactly that size. */
  method CropAnchor(src: Source, width: int, height: int, anchor: Anchor) returns (dst: NRGBA)
    ensures fresh(dst.pix) && CropOf(dst, src, CropRect(src.bounds, CropAnchorRect(src.bounds, width, height, anchor)))
    ensures 0 < width <= src.Width() && 0 < height <= src.Height() ==>
      var p := AnchorPt(src.bounds, width, height, anchor).Sub(src.bounds.min);
      CropOf(dst, src, Rectangle(p, Point(p.x + width, p.y + height)))
  {
    var b := CropAnchorRect(src.bounds, width, height, anchor);
    dst := Crop(src, b);
    if 0 < width <= src.Width() && 0 < height <= src.Height() {
      CropAnchorRegion(src.bounds, width, height, anchor);
    }
  }

  /** When the requested size fits, the part CropAnchor copies is the
      width x height rectangle at the anchor point, relative to the
      image's origin. */
  lemma CropAnchorRegion(bounds: Rectangle, width: int, height: int, anchor: Anchor)
    requires 0 < width <= bounds.Dx() && 0 < height <= bounds.Dy()
    ensures var p := AnchorPt(bounds, width, height, anchor).Sub(bounds.min);
      CropRect(bounds, CropAnchorRect(bounds, width, height, anchor)) == Rectangle(p, Point(p.x + width, p.y + height))
  {
    CropAnchorExact(bounds, width, height, anchor);
    AnchorFits(bounds, width, height, anchor);
  }

  /** CropCenter: CropAnchor at Center. */
  method CropCenter(src: Source, width: int, height: int) returns (dst: NRGBA)
    ensures fresh(dst.pix) && CropOf(dst, src, CropRect(src.bounds, CropAnchorRect(src.bounds, width, height, Center)))
    ensures 0 < width <= src.Width() && 0 < height <= src.Height() ==>
      var p := AnchorPt(src.bounds, width, height, Center).Sub(src.bounds.min);
      CropOf(dst, src, Rectangle(p, Point(p.x + width, p.y + height)))
    ensures !(0 < width <= src.Width() && 0 < height <= src.Height()) ==>
      dst.w <= Abs(width) && dst.h <= Abs(height)
    ensures !src.bounds.Empty() && src.Width() <= width && src.Height() <= height ==>
      CropOf(dst, src, Rectangle(Origin, src.bounds.Size()))
  {
    dst := CropAnchor(src, width, height, Center);
    if !src.bounds.Empty() && src.Width() <= width && src.Height() <= height {
      CenterOversizeKeepsAll(src.bounds, width, height);
      CropWholeImage(src.bounds);
    }
  }

  /** The pixel at (x, y) of Paste's result: the overlay's pixel inside
      interRect, the background's everywhere else. */
  function Pasted(bg: Source, img: Source, pos: Point, x: int, y: int): Pixel {
    var rel := pos.Sub(bg.bounds.min);
    if Point(x, y).In(InterRect(bg.Width(), bg.Height(), img.bounds, rel))
    then img.at(x - rel.x, y - rel.y)
    else bg.at(x, y)
  }

  /** Paste: a copy of the background with the overlay's pixels copied
      over the part of the background it covers. */
  method Paste(bg: Source, img: Source, pos: Point) returns (dst: NRGBA)
    requires bg.Valid()
    ensures fresh(dst.pix) && dst.Valid()
    ensures dst.w == bg.Width() && dst.h == bg.Height()
    ensures forall x, y | 0 <= x < dst.w && 0 <= y < dst.h :: dst.At(x, y) == Pasted(bg, img, pos, x, y)
  {
    dst := Clone(bg);
    var rel := pos.Sub(bg.bounds.min);
    var pasteRect := PasteRect(img.bounds, rel);
    var interRect := pasteRect.Intersect(dst.Bounds());
    assert interRect == InterRect(dst.w, dst.h, img.bounds, rel);
    if interRect.Empty() {
      return;
    }
    for y := interRect.min.y to interRect.max.y
      modifies dst.pix
      invariant forall xx, yy | 0 <= xx < dst.w && 0 <= yy < dst.h ::
        dst.At(xx, yy) == if yy < y then Pasted(bg, img, pos, xx, yy) else bg.at(xx, yy)
    {
      var x1 := interRect.min.x - pasteRect.min.x;
      var x2 := interRect.max.x - pasteRect.min.x;
      var y1 := y - pasteRect.min.y;
      dst.ScanRowInto(img, x1, x2, y1, interRect.min.x, y);
    }
  }

  /** PasteCenter: Paste at the centring position. */
  method PasteCenter(bg: Source, img: Source) returns (dst: NRGBA)
    requires bg.Valid()
    ensures fresh(dst.pix) && dst.Valid()
    ensures dst.w == bg.Width() && dst.h == bg.Height()
    ensures forall x, y | 0 <= x < dst.w && 0 <= y < dst.h ::
      dst.At(x, y) == Pasted(bg, img, CenterPos(bg.bounds, img.bounds), x, y)
  {
    dst := Paste(bg, img, CenterPos(bg.bounds, img.bounds));
  }

  /** One layer of the Overlay family: inside interRect the pixel below is
      combined with the overlay's pixel by op; elsewhere it stays. */
  function Composite(below: Pixel, w: int, h: int, img: Source, pos: Point, op: OverlayOp, x: int, y: int): Pixel {
    if Point(x, y).In(InterRect(w, h, img.bounds, pos))
    then op(below, img.at(x - pos.x, y - pos.y))
    else below
  }

  /** The rectangle and row machinery shared by Overlay, OverlayWithOp and
      OverlayOnCanvas: scan each overlay row of interRect into scanLine,
      then combine it pixel by pixel into dst. */
  method OverlayLayer(dst: NRGBA, img: Source, pos: Point, op: OverlayOp)
    requires dst.Valid()
    modifies dst.pix
    ensures forall x, y | 0 <= x < dst.w && 0 <= y < dst.h ::
      dst.At(x, y) == Composite(old(dst.At(x, y)), dst.w, dst.h, img, pos, op, x, y)
  {
    var pasteRect := PasteRect(img.bounds, pos);
    var interRect := pasteRect.Intersect(dst.Bounds());
    assert interRect == InterRect(dst.w, dst.h, img.bounds, pos);
    if interRect.Empty() {
      return;
    }
    var scanLine := new Byte[interRect.Dx() * 4];
    for y := interRect.min.y to interRect.max.y
      modifies dst.pix, scanLine
      invariant forall xx, yy | 0 <= xx < dst.w && 0 <= yy < dst.h ::
        dst.At(xx, yy) == if yy < y then Composite(old(dst.At(xx, yy)), dst.w, dst.h, img, pos, op, xx, yy)
                          else old(dst.At(xx, yy))
    {
      var x1 := interRect.min.x - pasteRect.min.x;
      var x2 := interRect.max.x - pasteRect.min.x;
      var y1 := y - pasteRect.min.y;
      Scan(img, x1, x2, y1, scanLine, 0);
      BlendRow(dst, scanLine, interRect.min.x, interRect.max.x, y, op);
    }
  }

  /** The inner loop of the Overlay family: pixels [x0, x1) of row y are
      combined with the scanned overlay row by op, in place. */
  method BlendRow(dst: NRGBA, scanLine: array<Byte>, x0: int, x1: int, y: int, op: OverlayOp)
    requires dst.Valid() && 0 <= x0 <= x1 <= dst.w && 0 <= y < dst.h && 4 * (x1 - x0) <= scanLine.Length
    requires scanLine != dst.pix
    modifies dst.pix
    ensures forall xx, yy | 0 <= xx < dst.w && 0 <= yy < dst.h ::
      dst.At(xx, yy) == if yy == y && x0 <= xx < x1 then op(old(dst.At(xx, yy)), Slot(scanLine[..], 0, xx - x0))
                        else old(dst.At(xx, yy))
  {
    var i := y * dst.stride + x0 * 4;
    var j := 0;
    for x := x0 to x1
      invariant i == y * dst.stride + 4 * x && j == 4 * (x - x0)
      invariant forall xx, yy | 0 <= xx < dst.w && 0 <= yy < dst.h ::
        dst.At(xx, yy) == if yy == y && x0 <= xx < x then op(old(dst.At(xx, yy)), Slot(scanLine[..], 0, xx - x0))
                          else old(dst.At(xx, yy))
    {
      OffsetInside(dst.w, dst.h, dst.stride, x, y);
      var below := Pixel(dst.pix[i + 0], dst.pix[i + 1], dst.pix[i + 2], dst.pix[i + 3]);
      assert below == dst.At(x, y);
      var above := Pixel(scanLine[j + 0], scanLine[j + 1], scanLine[j + 2], scanLine[j + 3]);
      assert above == Slot(scanLine[..], 0, x - x0);
      dst.SetPixel(x, y, i, op(below, above));
      i := i + 4;
      j := j + 4;
    }
  }

  /** The alpha-over formula at a given opacity, computed in float64 and
      converted to bytes; it is a parameter of the model. */
  type AlphaOver = (real, Pixel, Pixel) -> Pixel

  /** OpBlend(opacity): the alpha-over formula as an OverlayOp, at the
      opacity given (OpBlend itself does not clamp it). */
  function OpBlend(alphaOver: AlphaOver, opacity: real): (op: OverlayOp)
    ensures forall bg: Pixel, fg: Pixel :: op(bg, fg) == alphaOver(opacity, bg, fg)
  {
    (bg: Pixel, fg: Pixel) => alphaOver(opacity, bg, fg)
  }

  /** Overlay's math.Min(math.Max(opacity, 0.0), 1.0). */
  function ClampOpacity(opacity: real): (c: real)
    ensures 0.0 <= c <= 1.0
    ensures 0.0 <= opacity <= 1.0 ==> c == opacity
    ensures opacity < 0.0 ==> c == 0.0
    ensures opacity > 1.0 ==> c == 1.0
  {
    if opacity < 0.0 then 0.0 else if opacity > 1.0 then 1.0 else opacity
  }

  /** Overlay: a copy of the background with the overlay blended over the
      part it covers at the clamped opacity. */
  method Overlay(bg: Source, img: Source, pos: Point, opacity: real, alphaOver: AlphaOver) returns (dst: NRGBA)
    requires bg.Valid()
    ensures fresh(dst.pix) && dst.Valid()
    ensures dst.w == bg.Width() && dst.h == bg.Height()
    ensures forall x, y | 0 <= x < dst.w && 0 <= y < dst.h ::
      dst.At(x, y) == Composite(bg.at(x, y), dst.w, dst.h, img, pos.Sub(bg.bounds.min),
                                OpBlend(alphaOver, ClampOpacity(opacity)), x, y)
  {
    var o := ClampOpacity(opacity);
    dst := Clone(bg);
    OverlayLayer(dst, img, pos.Sub(bg.bounds.min), OpBlend(alphaOver, o));
  }

  /** OverlayCenter: Overlay at the centring position. */
  method OverlayCenter(bg: Source, img: Source, opacity: real, alphaOver: AlphaOver) returns (dst: NRGBA)
    requires bg.Valid()
    ensures fresh(dst.pix) && dst.Valid()
    ensures dst.w == bg.Width() && dst.h == bg.Height()
    ensures forall x, y | 0 <= x < dst.w && 0 <= y < dst.h ::
      dst.At(x, y) == Composite(bg.at(x, y), dst.w, dst.h, img, CenterPos(bg.bounds, img.bounds).Sub(bg.bounds.min),
                                OpBlend(alphaOver, ClampOpacity(opacity)), x, y)
  {
    dst := Overlay(bg, img, CenterPos(bg.bounds, img.bounds), opacity, alphaOver);
  }

  /** OverlayWithOp: a copy of the background with the overlay combined
      into the part it covers by op. */
  method OverlayWithOp(bg: Source, img: Source, pos: Point, op: OverlayOp) returns (dst: NRGBA)
    requires bg.Valid()
    ensures fresh(dst.pix) && dst.Valid()
    ensures dst.w == bg.Width() && dst.h == bg.Height()
    ensures forall x, y | 0 <= x < dst.w && 0 <= y < dst.h ::
      dst.At(x, y) == Composite(bg.at(x, y), dst.w, dst.h, img, pos.Sub(bg.bounds.min), op, x, y)
  {
    dst := Clone(bg);
    OverlayLayer(dst, img, pos.Sub(bg.bounds.min), op);
  }

  /** OverlayWithOp(OpIgnore) is Clone of the background. */
  lemma OverlayIgnoreIsClone(bg: Source, img: Source, pos: Point, x: int, y: int)
    ensures Composite(bg.at(x, y), bg.Width(), bg.Height(), img, pos.Sub(bg.bounds.min), OpIgnore, x, y) == bg.at(x, y)
  {
  }

  /** OverlayWithOp(OpReplace) is Paste. */
  lemma OverlayReplaceIsPaste(bg: Source, img: Source, pos: Point, x: int, y: int)
    ensures Composite(bg.at(x, y), bg.Width(), bg.Height(), img, pos.Sub(bg.bounds.min), OpReplace, x, y)
            == Pasted(bg, img, pos, x, y)
  {
  }

  /** When the overlay misses the background, every Overlay-family result
      and Paste equal the background. */
  lemma DisjointLeavesBackground(bg: Source, img: Source, pos: Point, op: OverlayOp, x: int, y: int)
    requires InterRect(bg.Width(), bg.Height(), img.bounds, pos.Sub(bg.bounds.min)).Empty()
    ensures Composite(bg.at(x, y), bg.Width(), bg.Height(), img, pos.Sub(bg.bounds.min), op, x, y) == bg.at(x, y)
    ensures Pasted(bg, img, pos, x, y) == bg.at(x, y)
  {
  }

  /** A layer of OverlayOnCanvas: an image and where its top-left goes. */
  datatype Layer = Layer(image: Source, point: Point)

  /** The pixel at (x, y) after compositing the layers, first to last, over
      a w x h canvas of the fill colour. */
  function Canvas(fill: Pixel, w: int, h: int, layers: seq<Layer>, op: OverlayOp, x: int, y: int): Pixel
    decreases |layers|
  {
    if |layers| == 0 then fill
    else
      var top := layers[|layers| - 1];
      Composite(Canvas(fill, w, h, layers[..|layers| - 1], op, x, y), w, h, top.image, top.point, op, x, y)
  }

  /** A canvas pixel that no layer covers keeps the fill colour. */
  lemma {:induction false} CanvasUncovered(fill: Pixel, w: int, h: int, layers: seq<Layer>, op: OverlayOp, x: int, y: int)
    requires forall l | l in layers :: !Point(x, y).In(InterRect(w, h, l.image.bounds, l.point))
    ensures Canvas(fill, w, h, layers, op, x, y) == fill
    decreases |layers|
  {
    if |layers| > 0 {
      CanvasUncovered(fill, w, h, layers[..|layers| - 1], op, x, y);
    }
  }

  /** Layer l covers the canvas pixel (x, y). */
  predicate Covers(w: int, h: int, l: Layer, x: int, y: int) {
    Point(x, y).In(InterRect(w, h, l.image.bounds, l.point))
  }

  /** The pixel layer l shows at canvas position (x, y). */
  function LayerPixel(l: Layer, x: int, y: int): Pixel {
    l.image.at(x - l.point.x, y - l.point.y)
  }

  /** A top layer that does not cover (x, y) leaves the pixel below it. */
  lemma CanvasTopMisses(fill: Pixel, w: int, h: int, layers: seq<Layer>, op: OverlayOp, x: int, y: int)
    requires |layers| > 0 && !Covers(w, h, layers[|layers| - 1], x, y)
    ensures Canvas(fill, w, h, layers, op, x, y) == Canvas(fill, w, h, layers[..|layers| - 1], op, x, y)
  {
  }

  /** Under OpReplace a top layer that covers (x, y) shows its own pixel. */
  lemma CanvasTopReplaces(fill: Pixel, w: int, h: int, layers: seq<Layer>, x: int, y: int)
    requires |layers| > 0 && Covers(w, h, layers[|layers| - 1], x, y)
    ensures Canvas(fill, w, h, layers, OpReplace, x, y) == LayerPixel(layers[|layers| - 1], x, y)
  {
  }

  /** Under OpReplace the last layer covering a pixel wins, whatever lies
      below it. */
  lemma {:induction false} CanvasReplaceTopWins(fill: Pixel, w: int, h: int, layers: seq<Layer>, k: int, x: int, y: int)
    requires 0 <= k < |layers| && Covers(w, h, layers[k], x, y)
    requires forall j | k < j < |layers| :: !Covers(w, h, layers[j], x, y)
    ensures Canvas(fill, w, h, layers, OpReplace, x, y) == LayerPixel(layers[k], x, y)
    decreases |layers|
  {
    if k < |layers| - 1 {
      var below := layers[..|layers| - 1];
      assert below[k] == layers[k];
      CanvasTopMisses(fill, w, h, layers, OpReplace, x, y);
      CanvasReplaceTopWins(fill, w, h, below, k, x, y);
    } else {
      CanvasTopReplaces(fill, w, h, layers, x, y);
    }
  }

  /** OverlayOnCanvas: a w x h canvas of the background colour with every
      layer alpha-composited over it in order, each at its own point. */
  method OverlayOnCanvas(w: int, h: int, bgColor: Pixel, layers: seq<Layer>, alphaOver: AlphaOver) returns (dst: NRGBA)
    ensures fresh(dst.pix) && dst.Valid()
    ensures w <= 0 || h <= 0 ==> dst.w == 0 && dst.h == 0
    ensures w > 0 && h > 0 ==> dst.w == w && dst.h == h
    ensures forall x, y | 0 <= x < dst.w && 0 <= y < dst.h ::
      dst.At(x, y) == Canvas(bgColor, dst.w, dst.h, layers, OpBlend(alphaOver, 1.0), x, y)
  {
    dst := New(w, h, bgColor);
    var op := OpBlend(alphaOver, 1.0);
    for k := 0 to |layers|
      modifies dst.pix
      invariant forall x, y | 0 <= x < dst.w && 0 <= y < dst.h ::
        dst.At(x, y) == Canvas(bgColor, dst.w, dst.h, layers[..k], op, x, y)
    {
      var pos := layers[k].point.Sub(dst.Bounds().min);
      assert pos == layers[k].point;
      OverlayLayer(dst, layers[k].image, pos, op);
      CanvasPrefix(bgColor, dst.w, dst.h, layers, op, k);
    }
    assert layers[..|layers|] == layers;
  }

  /** The canvas of the first k + 1 layers is layer k composited over the
      canvas of the first k. */
  lemma CanvasPrefix(fill: Pixel, w: int, h: int, layers: seq<Layer>, op: OverlayOp, k: int)
    requires 0 <= k < |layers|
    ensures forall x, y ::
      Canvas(fill, w, h, layers[..k + 1], op, x, y) == Composite(Canvas(fill, w, h, layers[..k], op, x, y), w, h, layers[k].image, layers[k].point, op, x, y)
  {
    assert layers[..k + 1][..k] == layers[..k];
  }
}
