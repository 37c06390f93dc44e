/** The blend operators of OverlayWithOp whose results are exact on 8-bit
    inputs. Each takes the background pixel bg and the foreground pixel fg
    and gives the pixel written back (the uint8 conversion of an exact
    0..255 value is the identity). The alpha of OpPlus, OpMax and OpLighten
    is a floating-point expression and comes in as the parameter a. */
module Ops {
  import opened Pixels

  /** OverlayOp: a per-pixel combination of background and foreground. */
  type OverlayOp = (Pixel, Pixel) -> Pixel

  datatype Rgb = Rgb(r: Byte, g: Byte, b: Byte)

  function ColourOf(p: Pixel): Rgb { Rgb(p.r, p.g, p.b) }

  function WithAlpha(c: Rgb, a: Byte): Pixel { Pixel(c.r, c.g, c.b, a) }

  function MinByte(x: Byte, y: Byte): Byte { if x < y then x else y }

  function MaxByte(x: Byte, y: Byte): Byte { if x > y then x else y }

  /** OpReplace: the foreground replaces the background entirely. */
  function OpReplace(bg: Pixel, fg: Pixel): (r: Pixel)
    ensures r == fg
  {
    fg
  }

  /** OpIgnore: the foreground has no effect. */
  function OpIgnore(bg: Pixel, fg: Pixel): (r: Pixel)
    ensures r == bg
  {
    bg
  }

  /** OpReplaceAlpha: background colour, foreground alpha. */
  function OpReplaceAlpha(bg: Pixel, fg: Pixel): (r: Pixel)
    ensures ColourOf(r) == ColourOf(bg) && r.a == fg.a
  {
    Pixel(bg.r, bg.g, bg.b, fg.a)
  }

  /** OpMinAlpha: background colour, the smaller of the two alphas. */
  function OpMinAlpha(bg: Pixel, fg: Pixel): (r: Pixel)
    ensures ColourOf(r) == ColourOf(bg)
    ensures r.a <= bg.a && r.a <= fg.a && (r.a == bg.a || r.a == fg.a)
  {
    Pixel(bg.r, bg.g, bg.b, MinByte(bg.a, fg.a))
  }

  /** OpMaxAlpha: colour forced to white, the larger of the two alphas. */
  function OpMaxAlpha(bg: Pixel, fg: Pixel): (r: Pixel)
    ensures ColourOf(r) == Rgb(255, 255, 255)
    ensures r.a >= bg.a && r.a >= fg.a && (r.a == bg.a || r.a == fg.a)
  {
    Pixel(255, 255, 255, MaxByte(bg.a, fg.a))
  }

  /** OpPlus, colour part: channel-wise sum saturated at 255. */
  function OpPlus(bg: Pixel, fg: Pixel, a: Byte): (r: Pixel)
    ensures r.a == a
    ensures r.r <= bg.r + fg.r && (r.r == bg.r + fg.r || r.r == 255) && r.r >= bg.r && r.r >= fg.r
    ensures r.g <= bg.g + fg.g && (r.g == bg.g + fg.g || r.g == 255) && r.g >= bg.g && r.g >= fg.g
    ensures r.b <= bg.b + fg.b && (r.b == bg.b + fg.b || r.b == 255) && r.b >= bg.b && r.b >= fg.b
  {
    Pixel(SatAdd(bg.r, fg.r), SatAdd(bg.g, fg.g), SatAdd(bg.b, fg.b), a)
  }

  function SatAdd(x: Byte, y: Byte): Byte { if x + y < 255 then x + y else 255 }

  /** OpMax, colour part: channel-wise maximum. */
  function OpMax(bg: Pixel, fg: Pixel, a: Byte): (r: Pixel)
    ensures r.a == a
    ensures r.r >= bg.r && r.r >= fg.r && (r.r == bg.r || r.r == fg.r)
    ensures r.g >= bg.g && r.g >= fg.g && (r.g == bg.g || r.g == fg.g)
    ensures r.b >= bg.b && r.b >= fg.b && (r.b == bg.b || r.b == fg.b)
  {
    Pixel(MaxByte(bg.r, fg.r), MaxByte(bg.g, fg.g), MaxByte(bg.b, fg.b), a)
  }

  /** Twice the HSL lightness, max(r,g,b) + min(r,g,b). The source halves
      both sides before comparing; halving a sum of two bytes is exact in
      float64, so comparing the sums decides the same way. */
  function Lightness2(c: Rgb): (l: int)
    ensures 0 <= l <= 510
    ensures l <= 2 * MaxByte(c.r, MaxByte(c.g, c.b)) && l >= 2 * MinByte(c.r, MinByte(c.g, c.b))
  {
    MaxByte(c.r, MaxByte(c.g, c.b)) + MinByte(c.r, MinByte(c.g, c.b))
  }

  /** OpLighten, colour part: the whole colour of the lighter pixel, the
      foreground's on a tie. */
  function OpLighten(bg: Pixel, fg: Pixel, a: Byte): (r: Pixel)
    ensures r.a == a
    ensures ColourOf(r) == ColourOf(bg) || ColourOf(r) == ColourOf(fg)
    ensures Lightness2(ColourOf(r)) >= Lightness2(ColourOf(bg))
    ensures Lightness2(ColourOf(r)) >= Lightness2(ColourOf(fg))
    ensures Lightness2(ColourOf(fg)) >= Lightness2(ColourOf(bg)) ==> ColourOf(r) == ColourOf(fg)
  {
    if Lightness2(ColourOf(fg)) < Lightness2(ColourOf(bg)) then WithAlpha(ColourOf(bg), a)
    else WithAlpha(ColourOf(fg), a)
  }

  /** Swapping the operands of OpMinAlpha and OpMaxAlpha only swaps which
      colour is kept; their alphas split the two inputs' alphas between
      them. */
  lemma MinMaxAlphaSplit(bg: Pixel, fg: Pixel)
    ensures OpMinAlpha(bg, fg).a == OpMinAlpha(fg, bg).a
    ensures OpMaxAlpha(bg, fg) == OpMaxAlpha(fg, bg)
    ensures OpMinAlpha(bg, fg).a + OpMaxAlpha(bg, fg).a == bg.a + fg.a
  {
  }

  /** OpPlus and OpMax are symmetric in their colour operands, and the
      saturated sum is never below the maximum. */
  lemma PlusMaxColour(bg: Pixel, fg: Pixel, a: Byte)
    ensures OpPlus(bg, fg, a) == OpPlus(fg, bg, a)
    ensures OpMax(bg, fg, a) == OpMax(fg, bg, a)
    ensures OpPlus(bg, fg, a).r >= OpMax(bg, fg, a).r
    ensures OpPlus(bg, fg, a).g >= OpMax(bg, fg, a).g
    ensures OpPlus(bg, fg, a).b >= OpMax(bg, fg, a).b
  {
  }

  /** OpMax with a black foreground, and OpPlus with a black foreground,
      keep the background colour; OpPlus does not look at the foreground's
      alpha, so a fully transparent but coloured foreground still brightens. */
  lemma PlusIgnoresForegroundAlpha()
    ensures OpPlus(Pixel(10, 20, 30, 255), Pixel(5, 0, 0, 0), 255) == Pixel(15, 20, 30, 255)
    ensures forall bg: Pixel, a: Byte :: ColourOf(OpPlus(bg, Pixel(0, 0, 0, 0), a)) == ColourOf(bg)
    ensures forall bg: Pixel, a: Byte :: ColourOf(OpMax(bg, Pixel(0, 0, 0, 0), a)) == ColourOf(bg)
  {
  }

  /** OpLighten selects whole colours, not channels: a pure red foreground
      over a dim grey background keeps red with no grey in it, where OpMax
      would mix channels. */
  lemma LightenIsNotChannelMax()
    ensures OpLighten(Pixel(60, 60, 60, 255), Pixel(255, 0, 0, 255), 255) == Pixel(255, 0, 0, 255)
    ensures OpMax(Pixel(60, 60, 60, 255), Pixel(255, 0, 0, 255), 255) == Pixel(255, 60, 60, 255)
  {
  }

  /** On a tie in lightness OpLighten keeps the foreground colour, so it is
      not symmetric. */
  lemma LightenTieTakesForeground(bg: Pixel, fg: Pixel, a: Byte)
    requires Lightness2(ColourOf(bg)) == Lightness2(ColourOf(fg))
    ensures ColourOf(OpLighten(bg, fg, a)) == ColourOf(fg)
    ensures ColourOf(OpLighten(fg, bg, a)) == ColourOf(bg)
  {
  }
}
