/** The colour records the picker keeps: an RGB triple and an HSL triple,
    both with plain integer components, and the three RGB channel names. */
module Colour {

  /** `{ r, g, b }` */
  datatype Rgb = Rgb(r: int, g: int, b: int)

  /** `{ h, s, l }`: hue in degrees, saturation and lightness in percent. */
  datatype Hsl = Hsl(h: int, s: int, l: int)

  /** The `component` key of an RGB edit: 'r', 'g' or 'b'. */
  datatype Channel = Red | Green | Blue

  /** Every channel is an 8-bit value. */
  predicate ValidRgb(c: Rgb) {
    0 <= c.r <= 255 && 0 <= c.g <= 255 && 0 <= c.b <= 255
  }

  /** All three channels are equal: a shade of grey. */
  predicate IsGrey(c: Rgb) {
    c.r == c.g && c.g == c.b
  }

  function ChannelOf(c: Rgb, ch: Channel): int {
    match ch
    case Red => c.r
    case Green => c.g
    case Blue => c.b
  }

  /** `{ ...rgb, [component]: v }`: one channel replaced, the other two kept. */
  function WithChannel(c: Rgb, ch: Channel, v: int): (d: Rgb)
    ensures ChannelOf(d, ch) == v
    ensures forall other :: other != ch ==> ChannelOf(d, other) == ChannelOf(c, other)
  {
    match ch
    case Red => c.(r := v)
    case Green => c.(g := v)
    case Blue => c.(b := v)
  }
}
