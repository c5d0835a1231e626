/** The part of QColor that the modelled code touches: whether the colour is
    valid, its three channels and its alpha. Channels are 8-bit values. */
module Colours {

  datatype Colour = Colour(valid: bool, red: int, green: int, blue: int, alpha: int)

  /** A default-constructed QColor: invalid, black channels, fully opaque alpha. */
  const DefaultColour: Colour := Colour(false, 0, 0, 0, 255)

  /** QColor(r, g, b) and QColor(r, g, b, a). */
  function Rgba(red: int, green: int, blue: int, alpha: int := 255): Colour
  {
    Colour(true, red, green, blue, alpha)
  }

  /** QColor::setAlpha: replaces the alpha and keeps everything else. */
  function WithAlpha(c: Colour, alpha: int): (r: Colour)
    ensures r.alpha == alpha
    ensures r.valid == c.valid && r.red == c.red && r.green == c.green && r.blue == c.blue
  {
    c.(alpha := alpha)
  }
}
