/**
 * The value types the colour picker takes from its graphics library
 * (Microsoft.Maui.Graphics): a colour whose four channels are clamped into
 * [0, 1], the factory functions that build one, and the truncating cast of a
 * scaled channel to a byte.
 */
module Graphics {

  /** A normalised colour channel; the library's Color clamps every channel into [0, 1]. */
  type Channel = r: real | 0.0 <= r <= 1.0

  /** An unsigned 8-bit value. */
  type Byte = b: int | 0 <= b <= 255

  /** Red, green, blue and alpha, each in [0, 1]. */
  datatype Color = Color(red: Channel, green: Channel, blue: Channel, alpha: Channel)

  const Black: Color := Color(0.0, 0.0, 0.0, 1.0)
  const White: Color := Color(1.0, 1.0, 1.0, 1.0)

  /** The clamp the library's Color constructor applies to each channel. */
  function Clamp(v: real): (r: Channel)
    ensures 0.0 <= v <= 1.0 ==> r == v
    ensures v < 0.0 ==> r == 0.0
    ensures 1.0 < v ==> r == 1.0
  {
    if v < 0.0 then 0.0 else if 1.0 < v then 1.0 else v
  }

  /** Color.FromRgba over floating channels: each argument is clamped. */
  function FromRgba(red: real, green: real, blue: real, alpha: real): (c: Color)
    ensures 0.0 <= red <= 1.0 ==> c.red == red
    ensures 0.0 <= green <= 1.0 ==> c.green == green
    ensures 0.0 <= blue <= 1.0 ==> c.blue == blue
    ensures 0.0 <= alpha <= 1.0 ==> c.alpha == alpha
  {
    Color(Clamp(red), Clamp(green), Clamp(blue), Clamp(alpha))
  }

  /** Color.FromRgba over byte channels: each byte is scaled by 1/255. */
  function FromBytes(red: Byte, green: Byte, blue: Byte, alpha: Byte): (c: Color)
    ensures c.red * 255.0 == red as real && c.green * 255.0 == green as real
    ensures c.blue * 255.0 == blue as real && c.alpha * 255.0 == alpha as real
  {
    FromRgba(red as real / 255.0, green as real / 255.0, blue as real / 255.0, alpha as real / 255.0)
  }

  /** The cast `(byte)(channel * 255)`, which truncates toward zero. */
  function ToByte(channel: Channel): (b: Byte)
    ensures b as real <= channel * 255.0 < b as real + 1.0
  {
    (channel * 255.0).Floor
  }

  /** Scaling a byte into a channel and casting it back gives the byte again. */
  lemma ToByteOfScaledByte(b: Byte)
    ensures ToByte(b as real / 255.0) == b
  {
    assert (b as real / 255.0) * 255.0 == b as real;
  }
}
