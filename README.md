# Compositing core of the yeetgif imaging package, in Dafny

This project models `pkg/imaging/tools.go`, the image-compositing helpers of
yeetgif's imaging package. It covers:

- **New**: a filled canvas.
- **Clone**: a copy of an image.
- **Crop**, **CropAnchor** and **CropCenter**: a rectangular part of an image.
- **Paste** and **PasteCenter**: one image copied over another.
- **Overlay**, **OverlayCenter**, **OverlayWithOp** and **OverlayOnCanvas**: one image blended over another.
- The blend operators **OpBlend**, **OpPlus**, **OpMax**, **OpReplace**, **OpReplaceAlpha**, **OpMinAlpha**, **OpMaxAlpha**, **OpIgnore** and **OpLighten**.
- The opaque-region measures **OpaqueBounds**, **OpaquePolygon** and **OpaqueArea**.

Images are Go `image.NRGBA` buffers: straight-alpha RGBA, four bytes per pixel, row-major.

How the model is organised:

- Every destination is a `Raster.NRGBA` object.
  - Its `pix` array is filled in place by the same row loops as the source.
  - The source's `parallel()` helper is modelled as one loop over the rows in increasing order.
- Every image that is read is a `Pixels.Source`.
  - It holds its bounds, plus its pixels as the scanner delivers them: already converted to NRGBA and addressed relative to the bounds' minimum.
- Each method is proved against a function of its inputs:
  - `Pasted` for Paste, `Composite` for the Overlay family and `Canvas` for OverlayOnCanvas.
  - `OpaqueBox` for OpaqueBounds and `Count` for OpaqueArea.
  - `PolygonPoint` for OpaquePolygon.
- Lemmas then prove what those functions promise. Examples:
  - The bounding box is the unique tight box.
  - Replacing with the last covering layer shows that layer's pixel.
  - OverlayWithOp with OpIgnore is a clone of the background, and with OpReplace it is Paste.

Modules:

- `Geometry`: Go's Point and Rectangle, and Go's truncating division.
- `Pixels`: pixels, their byte layout and image sources.
- `Raster`: the destination buffer and the row scanner.
- `Placement`: anchors, crop, paste and centring rectangles.
- `Ops`: the exact blend operators.
- `Compose`: the compositing operations.
- `Opaque`: OpaqueBounds and OpaqueArea.
- `Polygon`: OpaquePolygon.
- `Wrappers`: Option.

## Model

| member | source | states |
|---|---|---|
| Geometry.Rectangle.Intersect | pkg/imaging/tools.go:239 | The points of the intersection are exactly the points in both rectangles. An empty intersection is the zero rectangle. A non-empty one is well formed and lies inside both. |
| Geometry.Rect | pkg/imaging/tools.go:223 | image.Rect gives a well-formed rectangle with the given corners, swapping reversed coordinates. Its sides have the absolute differences as lengths. |
| Geometry.Quo | pkg/imaging/tools.go:172 | Go's integer division by a positive divisor truncates toward zero. The remainder has the dividend's sign, which differs from Dafny's Euclidean division for negative dividends. |
| Geometry.QuoOdd | pkg/imaging/tools.go:172 | Truncating division is symmetric about zero. |
| Pixels.PixelAt | pkg/imaging/tools.go:283-291 | The pixel read at a byte offset has channel c equal to the byte at offset + c. |
| Raster.Scan | pkg/imaging/tools.go:279 | Scanning a source row into a buffer from an offset puts pixel k of the row at slot k, which is column k when the row starts at column 0. No byte outside that span changes. |
| Raster.NRGBA.Init | pkg/imaging/tools.go:134 | image.NewNRGBA gives a zeroed w x h buffer with stride 4w, in which every pixel is transparent. |
| Raster.NRGBA.Empty | pkg/imaging/tools.go:116 | image.NRGBA{} is the empty 0 x 0 image. |
| Raster.NRGBA.Literal | pkg/imaging/tools.go:124-128 | The composite literal: a width x height buffer with stride 4*width whose bytes are exactly the ones given. |
| Raster.NRGBA.SetPixel | pkg/imaging/tools.go:299-302 | Writing four bytes at the offset of (x, y) changes that pixel to p and no other pixel. |
| Raster.NRGBA.ScanRowInto | pkg/imaging/tools.go:138-139 | Scanning source row sy into the buffer at (x0, y) sets exactly those pixels of row y to the source's pixels, column for column when the source and target columns start together. Every other pixel is unchanged. |
| Placement.AnchorPt | pkg/imaging/tools.go:165-197 | The top-left corner of a w x h rectangle at each anchor:<br>• Left anchors align with b's left edge; right anchors put the right edge on b's right edge. Top and bottom anchors work the same way vertically.<br>• Other anchors are centred, with the truncating split of the margins.<br>• Any anchor value outside the nine named ones centres. |
| Placement.UnlistedAnchorIsCenter | pkg/imaging/tools.go:192-194 | Any anchor value outside 0..8 gives the same point as Center. |
| Placement.AnchorFits | pkg/imaging/tools.go:165-197 | A rectangle no larger than b stays inside b at every anchor. |
| Placement.AnchorCenterTruncates | pkg/imaging/tools.go:193-194 | Centring an overhanging rectangle truncates toward zero: 9x9 on 4x4 starts at (-2,-2). |
| Placement.AnchorPoint | pkg/imaging/tools.go:161-163 | AnchorPoint of an image lies within its bounds. TopLeft gives Min and BottomRight gives Max. |
| Placement.CropRect | pkg/imaging/tools.go:202-205 | Crop's rectangle holds exactly the points of the request that are inside the image, shifted to image-relative coordinates. It is empty exactly when the intersection is empty. Otherwise it lies within the image's size. |
| Placement.CropWholeImage | pkg/imaging/tools.go:202 | Cropping a non-empty image to its own bounds gives its whole size at the origin. |
| Placement.CropAnchorRect | pkg/imaging/tools.go:221-224 | CropAnchor's rectangle lies in the image and is no larger than the requested size. |
| Placement.CropAnchorExact | pkg/imaging/tools.go:221-225 | When the requested size fits, the rectangle is exactly width x height at the anchor point. |
| Placement.CenterOversizeKeepsAll | pkg/imaging/tools.go:221-224 | A centred request at least as large as a non-empty image on both axes keeps the image's whole bounds. |
| Placement.InterRect | pkg/imaging/tools.go:238-239 | interRect holds exactly the destination pixels covered by the pasted image. It is the zero rectangle when empty. It stays within both the destination and the overlay's size. |
| Placement.CenterPos | pkg/imaging/tools.go:315-325 | PasteCenter's position leaves margins that differ by at most one pixel on each axis. |
| Placement.CenterPosIsNotAnchorCenter | pkg/imaging/tools.go:321-325 | Halving the two sizes separately differs from anchorPt's Center: a 1x1 image goes to (2,2) of a 4x4 background, not (1,1). |
| Ops.OpReplace | pkg/imaging/tools.go:426-432 | The result is the foreground pixel. |
| Ops.OpIgnore | pkg/imaging/tools.go:458-464 | The result is the background pixel. |
| Ops.OpReplaceAlpha | pkg/imaging/tools.go:434-440 | The background's colour with the foreground's alpha. |
| Ops.OpMinAlpha | pkg/imaging/tools.go:442-448 | The background's colour. The alpha is the smaller of the two alphas. |
| Ops.OpMaxAlpha | pkg/imaging/tools.go:450-456 | White. The alpha is the larger of the two alphas. |
| Ops.OpPlus | pkg/imaging/tools.go:410-416 | Each channel is the sum saturated at 255: no more than the sum, and at least each input. |
| Ops.OpMax | pkg/imaging/tools.go:418-424 | Each channel is the larger of the two channels. |
| Ops.Lightness2 | pkg/imaging/tools.go:467-472 | Twice the HSL lightness, bounded by twice the largest and twice the smallest channel. |
| Ops.OpLighten | pkg/imaging/tools.go:466-484 | The whole colour of one input, never mixed, and at least as light as both. The foreground's colour whenever it is not darker. |
| Ops.MinMaxAlphaSplit | pkg/imaging/tools.go:442-456 | MinAlpha and MaxAlpha split the two alphas between them. MaxAlpha is symmetric. |
| Ops.PlusMaxColour | pkg/imaging/tools.go:410-424 | OpPlus and OpMax are symmetric in colour, and OpPlus is at least OpMax per channel. |
| Ops.PlusIgnoresForegroundAlpha | pkg/imaging/tools.go:410-424 | The colour of OpPlus and OpMax ignores the foreground's alpha (their alpha uses it). A black foreground keeps the background colour. |
| Ops.LightenIsNotChannelMax | pkg/imaging/tools.go:466-484 | OpLighten keeps the lighter pixel's whole colour where OpMax mixes channels. |
| Ops.LightenTieTakesForeground | pkg/imaging/tools.go:473-481 | On equal lightness OpLighten takes the foreground colour, so it is not symmetric. |
| Compose.Repeat | pkg/imaging/tools.go:125 | bytes.Repeat of a pixel gives 4*count bytes, the byte at i being channel i mod 4. |
| Compose.RepeatTransparent | pkg/imaging/tools.go:120-121 | Repeating the transparent colour gives the zeroed buffer, so New's two branches agree. |
| Compose.New | pkg/imaging/tools.go:114-129 | Non-positive sizes give the empty image. Otherwise the result is width x height with every pixel the fill colour, and its bytes are the repeated colour. |
| Compose.Clone | pkg/imaging/tools.go:132-143 | The result has the source's size and the source's pixel at every position. |
| Compose.Crop | pkg/imaging/tools.go:201-216 | Empty when the rectangle misses the image. Otherwise it has the size of the crop rectangle, and pixel (x,y) is the source's pixel at the rectangle's corner plus (x,y). |
| Compose.CropAnchor | pkg/imaging/tools.go:220-226 | Crop of the anchored rectangle. When the size fits, the result is exactly width x height, read from the anchor point. |
| Compose.CropAnchorRegion | pkg/imaging/tools.go:220-226 | When the size fits, the region CropAnchor copies is exactly width x height at the anchor point, relative to the image's origin. |
| Compose.CropCenter | pkg/imaging/tools.go:230-232 | For every size, Crop of CropAnchor's rectangle at Center. When the size fits, exactly the requested size at the centre. When the request is at least the image's size on both axes, the whole image. Otherwise no larger than the request. |
| Compose.Paste | pkg/imaging/tools.go:235-256 | The background's size. Pixels covered by the image are the image's; all others are the background's. |
| Compose.PasteCenter | pkg/imaging/tools.go:314-328 | Paste at the centring position. |
| Compose.OverlayLayer | pkg/imaging/tools.go:346-389 | Every destination pixel inside interRect becomes op(old pixel, overlay pixel). Every pixel outside it is unchanged. |
| Compose.BlendRow | pkg/imaging/tools.go:360-386 | Pixels x0..x1 of row y are replaced by op(old pixel, scanned pixel). Nothing else changes. |
| Compose.OpBlend | pkg/imaging/tools.go:394-408 | The operator applies the alpha-over formula at the opacity it was given, unclamped, with the background pixel first. |
| Compose.ClampOpacity | pkg/imaging/tools.go:343 | The opacity is clamped to [0, 1]. It is unchanged inside that range. |
| Compose.Overlay | pkg/imaging/tools.go:342-390 | The background's size. Pixels covered by the image blend by OpBlend at the clamped opacity; the others are the background's. |
| Compose.OverlayCenter | pkg/imaging/tools.go:534-548 | Overlay at the centring position. |
| Compose.OverlayWithOp | pkg/imaging/tools.go:486-529 | The background's size. Pixels covered by the image are op(background, image); the others are the background's. |
| Compose.OverlayIgnoreIsClone | pkg/imaging/tools.go:458-464 | OverlayWithOp with OpIgnore leaves every background pixel. |
| Compose.OverlayReplaceIsPaste | pkg/imaging/tools.go:426-432 | OverlayWithOp with OpReplace gives exactly Paste's pixels. |
| Compose.DisjointLeavesBackground | pkg/imaging/tools.go:240-242 | When the overlay misses the background, Paste and every overlay give the background. |
| Compose.CanvasUncovered | pkg/imaging/tools.go:262-270 | A canvas pixel covered by no layer keeps the background colour. |
| Compose.CanvasTopMisses | pkg/imaging/tools.go:268-269 | A last layer that does not cover a pixel leaves it as the earlier layers made it. |
| Compose.CanvasTopReplaces | pkg/imaging/tools.go:263-309 | With a replacing blend, a covering last layer shows its own pixel. |
| Compose.CanvasReplaceTopWins | pkg/imaging/tools.go:263-309 | With a replacing blend, the last layer covering a pixel decides it, whatever lies below. |
| Compose.CanvasPrefix | pkg/imaging/tools.go:263-309 | The canvas after k+1 layers is layer k composited over the canvas after k layers. |
| Compose.OverlayOnCanvas | pkg/imaging/tools.go:258-311 | The result is w x h, or empty for non-positive sizes. Every pixel is the background colour with the layers alpha-composited over it in list order. |
| Opaque.BoxUpToTight | pkg/imaging/tools.go:22-44 | The running box is absent exactly while no opaque pixel has been scanned. After that it is the tight inclusive box of the opaque pixels scanned so far. |
| Opaque.TightSkip | pkg/imaging/tools.go:25-34 | A pixel whose alpha is not above the threshold changes neither the emptiness nor the tight box of what has been scanned. |
| Opaque.TightFirst | pkg/imaging/tools.go:27-31 | The first opaque pixel is its own tight box: Min = Max = that pixel. |
| Opaque.TightGrow | pkg/imaging/tools.go:34-41 | A later opaque pixel stretches the tight box by min and max to stay tight. |
| Opaque.OpaqueBox | pkg/imaging/tools.go:12-48 | The zero rectangle when no pixel is opaque. Otherwise the tight inclusive box of the opaque pixels, inside the image. |
| Opaque.TightBoxUnique | pkg/imaging/tools.go:18-46 | The tight box is unique, so the result does not depend on the order in which rows are scanned. |
| Opaque.OpaqueBoxSinglePixel | pkg/imaging/tools.go:27-40 | A single opaque pixel gives the one-point box Min == Max. At the origin that box equals the answer for no opaque pixel. |
| Opaque.OpaqueBounds | pkg/imaging/tools.go:12-48 | The result is OpaqueBox: the zero rectangle when nothing is opaque, otherwise the tight inclusive box of the pixels with alpha above the threshold. |
| Opaque.RowCount | pkg/imaging/tools.go:102-106 | A row's count of opaque pixels is at most the number of columns counted. |
| Opaque.CountBound | pkg/imaging/tools.go:98-110 | The count is at most the number of pixels counted. |
| Opaque.RowCountFull | pkg/imaging/tools.go:102-106 | A fully opaque row counts its width. |
| Opaque.CountFull | pkg/imaging/tools.go:98-110 | A fully opaque region counts its area. |
| Opaque.RowCountSplit | pkg/imaging/tools.go:102-106 | A row's count splits into its first column and the rest. |
| Opaque.CountMissesFirstColumn | pkg/imaging/tools.go:100-104 | Counting from column 1 misses exactly the opaque pixels of column 0. |
| Opaque.SliceFits | pkg/imaging/tools.go:100-101 | The slice [4y, 4y+4w) fits the buffer for images at least one pixel wide. |
| Opaque.LastReadFits | pkg/imaging/tools.go:103-104 | The last alpha read stays in the buffer when both sides are at least 2. |
| Opaque.PanicSizeOverruns | pkg/imaging/tools.go:100-104 | On the panicking sizes, the last row's slice or its last read overruns the buffer. |
| Opaque.AreaRow | pkg/imaging/tools.go:102-107 | The column loop of one row fails (a panic) exactly when the last read runs past the buffer. Otherwise it counts the columns x in 1..w-1 whose alpha is above the threshold, column x reading column x+1's alpha. |
| Opaque.OpaqueArea | pkg/imaging/tools.go:92-111 | As written: it panics (None) exactly on a zero-width image of two or more rows, and on a non-empty image one pixel wide or high. Otherwise it returns the count of opaque pixels in columns 1..w-1, because each column reads its right neighbour's alpha. |
| Opaque.OpaqueAreaCorrected | pkg/imaging/tools.go:92-111 | As intended: the number of pixels whose alpha is above the threshold. |
| Opaque.AreaAsWrittenMissesColumnZero | pkg/imaging/tools.go:100-104 | The intended area is the as-written result plus column 0's opaque pixels. It is at most w*h. |
| Opaque.AreaCounterexample | pkg/imaging/tools.go:100-104 | A fully opaque 2x2 image: as written 2, intended 4. |
| Opaque.AreaOfFullyOpaque | pkg/imaging/tools.go:92-111 | A fully opaque image has area w*h. |
| Polygon.ExactRowFirst | pkg/imaging/tools.go:65 | Sample 0's row is the box's top row. |
| Polygon.ExactRowInBox | pkg/imaging/tools.go:60-65 | For a box at least one row high, the sample rows lie within the box and do not decrease. |
| Polygon.ExactRowAbove | pkg/imaging/tools.go:60-65 | For a box with Dy() == 0 every later sample lies above the box. |
| Polygon.ExactRowsAreSampleRows | pkg/imaging/tools.go:60-65 | The exact-arithmetic sample rows satisfy the sample-row requirements the method assumes. |
| Polygon.SampleRowAt | pkg/imaging/tools.go:60-65 | What the sample-row requirements give for one sample k: the first is the top row; rows lie in the box and do not decrease; for Dy() == 0 later rows lie above the box. |
| Polygon.LastHitIsLast | pkg/imaging/tools.go:69-76 | The right-point search finds the last reported column before its bound, or none. |
| Polygon.FirstHitIsFirst | pkg/imaging/tools.go:77-82 | The left-point search finds the first reported column, or none. |
| Polygon.SidePoints | pkg/imaging/tools.go:68-83 | With no reported column, both points of a sample are zero. Otherwise both lie on the sample row, at the first and last reported columns, with every reported column between them. |
| Polygon.NarrowBoxHasNoPoints | pkg/imaging/tools.go:69-71 | A box with Dx() <= 1, which is up to two pixel columns under OpaqueBounds' inclusive Max, reports nothing, so its points stay zero. |
| Polygon.SameHitsSameSearch | pkg/imaging/tools.go:69-83 | Searches over the same reported columns find the same columns. |
| Polygon.OnlyInnerColumnsRead | pkg/imaging/tools.go:69-71 | Only pixels strictly between the box's first and last columns affect the points. |
| Polygon.SinglePixelPolygonIsZero | pkg/imaging/tools.go:51-89 | An image with one opaque pixel gets 2n zero points. |
| Polygon.RegionFits | pkg/imaging/tools.go:66-67 | A sample row's slice and its last read fit the scratch buffer. |
| Polygon.BoxInside | pkg/imaging/tools.go:52 | The opaque box is well formed, and inside the image when at least one column wide. |
| Polygon.OffsetSign | pkg/imaging/tools.go:66 | The slice offset is negative exactly when the row lies above the box and the box has a column. |
| Polygon.ScanSample | pkg/imaging/tools.go:68-83 | One sample's column loop sets the right and left points to the last and first reported columns. No other point changes. |
| Polygon.ScanRegion | pkg/imaging/tools.go:66-67 | Scanning sample row y at (y - minY)*4*w puts the box's pixels of that row there. The bytes after it stay zero, including the one the last column's read lands on. |
| Polygon.SampleStep | pkg/imaging/tools.go:64-83 | One pass of the sample loop. It fails (a panic) exactly for sample 1 of a box one row high with a column. Otherwise it writes sample k's right and left points and leaves the other points and the zero tail intact. |
| Polygon.SampleBox | pkg/imaging/tools.go:54-88 | Panics (None) exactly when the box is one row high (Dy()==0) and has a column. Otherwise it returns 2n points: the right points in sample order and the left points reversed. |
| Polygon.OpaquePolygon | pkg/imaging/tools.go:51-89 | Panics (None) exactly when the opaque box has Dy()==0 and Dx()>=1. Otherwise it returns 2n points, point j being PolygonPoint: for j >= n the right point of sample j-n, for j < n the left point of sample n-1-j. |

## Left out

- The scanner's colour conversion of each image type to NRGBA is not part of this model. An image is given as its already-converted pixels, addressed relative to its bounds.
- `parallel()` and the mutex in OpaqueBounds are modelled as one sequential loop over rows in increasing order.
  - For OpaqueBounds the result cannot depend on row order, because the tight box is unique (`Opaque.TightBoxUnique`).
  - OpaqueArea's unsynchronised `numPixelsOpaque++` is a data race that can lose increments under real concurrency. The model counts as if the rows were taken one after another.
  - OpaqueArea and OpaquePolygon also let different workers write overlapping parts of the scratch buffer. The model takes rows in increasing order, and which bytes a worker reads depends on that order.
- Compose.OpBlend: the float64 alpha-over formula is not modelled. It is a parameter `alphaOver(opacity, bg, fg)` standing for the whole per-pixel result after the `uint8` conversions.
  - The parameter also covers the NaN produced when `coefSum` is 0 (both alphas zero).
- Compose.Overlay and Compose.OverlayOnCanvas: Overlay writes the alpha-over formula inline, and OverlayOnCanvas writes it inline with `a2/255` in place of `opacity*a2/255`.
  - The model uses OpBlend for both: at the clamped opacity for Overlay, and at opacity 1.0 for OverlayOnCanvas.
  - Multiplying by 1.0 is exact in float64, so the two spellings agree.
- Ops.OpPlus, Ops.OpMax, Ops.OpLighten: their alpha, `min(a1 + a2*((255-a1)/255), 255)`, is float arithmetic followed by a `uint8` truncation. It comes in as the parameter `a`.
- Ops: the float64 channel values of an OverlayOp are modelled as bytes. Each of these operators returns a whole number in 0..255 for byte inputs, so the `uint8` conversion in OverlayWithOp is the identity.
- Polygon.OpaquePolygon: the float sample rows are a parameter `sampleRow`, with `n >= 2` required.
  - The source computes `floor(minY + k*yStep)` with `yStep = float64(Dy-1)/float64(n-1)` in float64.
  - `SampleRows` states what the method relies on about those rows, and `Polygon.ExactRowsAreSampleRows` proves it for exact arithmetic. Float64 rounding of `k*yStep` is not modelled.
  - n = 1 divides by zero in float64 and converts the row to int; `parallel(0, n)` then runs only k = 0, and that row is NaN (0 times an infinite or NaN step). Go leaves that conversion implementation-defined, so this case is left out.
  - A negative n makes `make` panic; that case is left out too.
- Polygon.OpaquePolygon: the result is an `Option`, with None standing for the panic of a negative slice start. For n >= 2 the model proves that every other slice and read stays inside the buffer.
- Compose.ClampOpacity: opacity is an exact real, so the model has no NaN. In Go `math.Max` and `math.Min` return NaN for a NaN opacity, which then passes through unclamped.
- Compose.New and Compose.OverlayOnCanvas: the fill colour is given as an already-converted `Pixel`. The `color.NRGBAModel.Convert` of the fill colour (line 119) is not part of this model; the test for transparent black is made on the converted bytes.
- The image's bounds are assumed well formed (`Source.Valid`), as `image.Rect` always makes them.
- Integer overflow of `int` offsets (`y*Stride` and the like) is not modelled; integers are unbounded.

## Findings

| source | as written | input that shows it | evidently intended | confidence | as-written member | corrected member |
|---|---|---|---|---|---|---|
| pkg/imaging/tools.go:100-104 | Each row is scanned to `i := y * 4` instead of `y * dst.Stride`, and `i += 4` runs before the alpha read. So column x is compared using the alpha of column x+1, and column 0 is never counted. | A fully opaque 2x2 image, rows taken in increasing order: the count is 2 (Opaque.AreaCounterexample). With parallel workers, row 0's last read can see row 1's bytes, and the count can be 3 | the number of pixels with alpha above the threshold, 4 | not executed | Opaque.OpaqueArea | Opaque.OpaqueAreaCorrected |
| pkg/imaging/tools.go:100-104 | The row slice and the shifted read overrun the w*h*4-byte buffer on thin images. | A 1 x 3 image (w=1, h=3): the last read is byte 15 of a 12-byte buffer, so it panics (Opaque.PanicSizeOverruns) | any image size is measured without panicking | not executed | Opaque.OpaqueArea | Opaque.OpaqueAreaCorrected |
