/** The parts of Go's image.Point and image.Rectangle that the compositing
    core relies on, with Go's semantics (Min inclusive, Max exclusive;
    rectangles are not required to be well formed), and Go's integer
    division, which truncates toward zero. */
module Geometry {

  datatype Point = Point(x: int, y: int) {

    function Add(q: Point): Point { Point(x + q.x, y + q.y) }

    function Sub(q: Point): Point { Point(x - q.x, y - q.y) }

    /** Point.In: the point lies in the half-open rectangle r. */
    predicate In(r: Rectangle) {
      r.min.x <= x < r.max.x && r.min.y <= y < r.max.y
    }
  }

  const Origin := Point(0, 0)

  datatype Rectangle = Rectangle(min: Point, max: Point) {

    function Dx(): int { max.x - min.x }

    function Dy(): int { max.y - min.y }

    function Size(): Point { Point(Dx(), Dy()) }

    /** Empty reports whether the rectangle contains no points. */
    predicate Empty() { min.x >= max.x || min.y >= max.y }

    /** Min <= Max in both axes, as every rectangle built by Rect is. */
    predicate WellFormed() { min.x <= max.x && min.y <= max.y }

    function Add(p: Point): Rectangle { Rectangle(min.Add(p), max.Add(p)) }

    function Sub(p: Point): Rectangle { Rectangle(min.Sub(p), max.Sub(p)) }

    /** Rectangle.Intersect: the largest rectangle contained in both; an
        empty intersection is the zero rectangle. */
    function Intersect(s: Rectangle): (r: Rectangle)
      ensures forall p: Point :: p.In(r) <==> p.In(this) && p.In(s)
      ensures r.Empty() ==> r == ZR
      ensures !r.Empty() ==> r.WellFormed()
      ensures !r.Empty() ==> min.x <= r.min.x && min.y <= r.min.y && r.max.x <= max.x && r.max.y <= max.y
      ensures !r.Empty() ==> s.min.x <= r.min.x && s.min.y <= r.min.y && r.max.x <= s.max.x && r.max.y <= s.max.y
    {
      var c := Rectangle(Point(Max(min.x, s.min.x), Max(min.y, s.min.y)),
                         Point(Min(max.x, s.max.x), Min(max.y, s.max.y)));
      if c.Empty() then ZR else c
    }
  }

  /** The zero rectangle {(0,0),(0,0)}. */
  const ZR := Rectangle(Origin, Origin)

  function Min(a: int, b: int): int { if a < b then a else b }

  function Max(a: int, b: int): int { if a > b then a else b }

  function Abs(a: int): nat { if a < 0 then -a else a }

  /** image.Rect: the rectangle with corners (x0,y0) and (x1,y1), with the
      coordinates of each axis swapped when they are given in reverse. */
  function Rect(x0: int, y0: int, x1: int, y1: int): (r: Rectangle)
    ensures r.WellFormed()
    ensures multiset{r.min.x, r.max.x} == multiset{x0, x1}
    ensures multiset{r.min.y, r.max.y} == multiset{y0, y1}
    ensures r.Dx() == Abs(x1 - x0) && r.Dy() == Abs(y1 - y0)
  {
    var (a, c) := if x0 > x1 then (x1, x0) else (x0, x1);
    var (b, d) := if y0 > y1 then (y1, y0) else (y0, y1);
    Rectangle(Point(a, b), Point(c, d))
  }

  /** Go's integer quotient a / d for a positive divisor: it truncates toward
      zero, so the remainder takes the sign of a (Dafny's / is Euclidean). */
  function Quo(a: int, d: int): (q: int)
    requires d > 0
    ensures a >= 0 ==> q * d <= a < q * d + d
    ensures a < 0 ==> q * d - d < a <= q * d
  {
    if a >= 0 then a / d else -((-a) / d)
  }

  /** Truncation is symmetric about zero, unlike floor division. */
  lemma QuoOdd(a: int, d: int)
    requires d > 0
    ensures Quo(-a, d) == -Quo(a, d)
  {
  }
}
