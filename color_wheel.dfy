/**
 * The colour wheel control (Controls/ColorWheel.cs): the diameter clamp, the
 * row-major rasteriser that paints a hue/saturation disk into a pixel buffer,
 * the repaint test that decides when the bitmap is rebuilt, and the guard of
 * the colour pick. Square root and arc tangent are parameters.
 */
module Wheel {
  import opened Optional
  import opened Graphics
  import opened ColorSpace

  const Int32Max: int := 2147483647

  /** Convert.ToInt32(Math.Sqrt(Int32.MaxValue)): the square root rounded to the nearest integer. */
  const RoundedSqrtInt32Max: int := 46341

  /** n is the integer nearest to the square root of v: (n − ½)² ≤ v < (n + ½)². */
  predicate IsNearestSqrt(n: int, v: int)
  {
    0 <= n && (2 * n - 1) * (2 * n - 1) <= 4 * v < (2 * n + 1) * (2 * n + 1)
  }

  lemma RoundedSqrtInt32MaxIsNearest()
    ensures IsNearestSqrt(RoundedSqrtInt32Max, Int32Max)
  {
    assert 92681 * 92681 == 8589767761;
    assert 92683 * 92683 == 8590138489;
  }

  /** The cap on the wheel's diameter. */
  const MaxDiameter: int := RoundedSqrtInt32Max / 4 - 4

  /** The cap is 11581, and its square, the largest pixel buffer, fits in a 32-bit int. */
  lemma MaxDiameterFits()
    ensures MaxDiameter == 11581
    ensures MaxDiameter * MaxDiameter < Int32Max
  {
    assert 11581 * 11581 == 134119561;
  }

  /** Math.PI as a double. */
  const Pi: real := 3.141592653589793

  /** An SKColor: four bytes. */
  datatype SkColor = SkColor(red: Byte, green: Byte, blue: Byte, alpha: Byte)

  /** The default SKColor every pixel of a new buffer holds. */
  const Transparent: SkColor := SkColor(0, 0, 0, 0)

  /** An SKRect. */
  datatype Rect = Rect(left: real, top: real, right: real, bottom: real)
  {
    /** SKRect.Contains: left and top inclusive, right and bottom exclusive. */
    predicate Contains(x: real, y: real)
    {
      left <= x < right && top <= y < bottom
    }
  }

  /** An SKBitmap: its size and its pixels, row by row. */
  datatype Bitmap = Bitmap(width: int, height: int, pixels: seq<SkColor>)
  {
    predicate WellFormed()
    {
      0 <= width && 0 <= height && |pixels| == width * height
    }

    /** The pixel in column x of row y, or nothing for a point outside the bitmap. */
    function GetPixel(x: int, y: int): (r: Option<SkColor>)
      requires WellFormed()
      ensures r.Some? <==> 0 <= x < width && 0 <= y < height
      ensures r.Some? ==> 0 <= y * width + x < |pixels| && r.value == pixels[y * width + x]
    {
      if 0 <= x < width && 0 <= y < height then
        RowIndexBound(y, x, width, height);
        Some(pixels[y * width + x])
      else None
    }
  }

  /** The cast (int) of a float: truncation toward zero. */
  function Truncate(v: real): (r: int)
    ensures 0.0 <= v ==> r as real <= v < r as real + 1.0
    ensures v < 0.0 ==> r as real - 1.0 < v <= r as real
  {
    if v >= 0.0 then v.Floor else -((-v).Floor)
  }

  /** The diameter: the smaller canvas side, capped at MaxDiameter. */
  function Diameter(width: int, height: int): (d: int)
    ensures d <= width && d <= height && d <= MaxDiameter
    ensures d == width || d == height || d == MaxDiameter
  {
    var d := if width < height then width else height;
    if d > MaxDiameter then MaxDiameter else d
  }

  /** Distance of pixel (x, y) from the centre (radius, radius), relative to the radius. */
  function WheelSaturation(radius: int, x: int, y: int, sqrt: real -> real): real
    requires 0 < radius
  {
    var dx := (radius - x) as real;
    var dy := (radius - y) as real;
    sqrt(dx * dx + dy * dy) / radius as real
  }

  /** The angle of pixel (x, y) about the centre, moved into [0, 2π) and scaled to degrees. */
  function WheelHue(radius: int, x: int, y: int, atan2: (real, real) -> real): real
  {
    var theta := atan2((x - radius) as real, (y - radius) as real);
    var theta := if theta < 0.0 then theta + 2.0 * Pi else theta;
    theta / (Pi * 2.0) * 360.0
  }

  /** The HSB value painted at pixel (x, y): full brightness and the alpha argument 255. */
  function WheelHsb(radius: int, x: int, y: int, sqrt: real -> real, atan2: (real, real) -> real): HSBColor
    requires 0 < radius
  {
    HSBColor(WheelHue(radius, x, y, atan2), WheelSaturation(radius, x, y, sqrt), 1.0, 255.0)
  }

  /** ToSkColor: each channel of ToColor times 255, cast to a byte. */
  function ToSkColor(hsb: HSBColor): SkColor
  {
    var c := ToColor(hsb);
    SkColor(ToByte(c.red), ToByte(c.green), ToByte(c.blue), ToByte(c.alpha))
  }

  /** The final value of pixel (x, y) of a wheel of diameter d: untouched outside the disk. */
  function WheelPixel(d: int, x: int, y: int, sqrt: real -> real, atan2: (real, real) -> real): SkColor
    requires 2 <= d
  {
    var radius := d / 2;
    if WheelSaturation(radius, x, y, sqrt) >= 1.0 then Transparent
    else ToSkColor(WheelHsb(radius, x, y, sqrt, atan2))
  }

  /** Row y of a wheel of diameter d. */
  function Row(d: int, y: int, sqrt: real -> real, atan2: (real, real) -> real): (r: seq<SkColor>)
    requires 2 <= d
    ensures |r| == d
  {
    seq(d, x => WheelPixel(d, x, y, sqrt, atan2))
  }

  /** Rows 0 .. n − 1 one after the other. */
  function Rows(d: int, n: int, sqrt: real -> real, atan2: (real, real) -> real): (r: seq<SkColor>)
    requires 2 <= d && 0 <= n
    ensures |r| == n * d
  {
    if n == 0 then [] else Rows(d, n - 1, sqrt, atan2) + Row(d, n - 1, sqrt, atan2)
  }

  /** The whole buffer of a wheel of diameter d, row by row. */
  function WheelImage(d: int, sqrt: real -> real, atan2: (real, real) -> real): (image: seq<SkColor>)
    requires 2 <= d
  {
    Rows(d, d, sqrt, atan2)
  }

  lemma SquareMonotone(a: int, b: int)
    requires 0 <= a <= b
    ensures a * a <= b * b
  {
    assert b * b - a * a == (b - a) * (b + a);
    assert 0 <= (b - a) * (b + a);
  }

  lemma PrefixStep<T>(s: seq<T>, n: int)
    requires 0 <= n < |s|
    ensures s[..n + 1] == s[..n] + [s[n]]
  {
  }

  lemma UpdatePrefix<T>(s: seq<T>, n: int, v: T)
    requires 0 <= n < |s|
    ensures s[n := v][..n + 1] == s[..n] + [v]
  {
  }

  lemma AppendPixel<T>(prefix: seq<T>, rows: seq<T>, line: seq<T>, x: int, v: T)
    requires 0 <= x < |line| && prefix == rows + line[..x] && v == line[x]
    ensures prefix + [v] == rows + line[..x + 1]
  {
    assert line[..x + 1] == line[..x] + [line[x]];
  }

  lemma MulSucc(y: int, d: int)
    ensures (y + 1) * d == y * d + d
  {
  }

  /** Index y·width + x of a point inside a width × height grid lies in the buffer. */
  lemma RowIndexBound(y: int, x: int, width: int, height: int)
    requires 0 <= y < height && 0 <= x < width
    ensures 0 <= y * width + x < width * height
  {
    assert y * width + x < (y + 1) * width;
    assert (y + 1) * width <= height * width;
  }

  /** Entry y·d + x of the first n rows is pixel (x, y). */
  lemma {:induction false} RowsAt(d: int, n: int, x: int, y: int, sqrt: real -> real, atan2: (real, real) -> real)
    requires 2 <= d && 0 <= y < n && 0 <= x < d
    ensures 0 <= y * d + x < n * d
    ensures Rows(d, n, sqrt, atan2)[y * d + x] == WheelPixel(d, x, y, sqrt, atan2)
  {
    RowIndexBound(y, x, d, n);
    if y < n - 1 {
      RowsAt(d, n - 1, x, y, sqrt, atan2);
    } else {
      assert y * d + x == (n - 1) * d + x;
    }
  }

  /** The pixel of column x in row y of the wheel image is WheelPixel(x, y): the buffer is row-major. */
  lemma WheelImageAt(d: int, x: int, y: int, sqrt: real -> real, atan2: (real, real) -> real)
    requires 2 <= d && 0 <= x < d && 0 <= y < d
    ensures 0 <= y * d + x < d * d
    ensures WheelImage(d, sqrt, atan2)[y * d + x] == WheelPixel(d, x, y, sqrt, atan2)
  {
    RowsAt(d, d, x, y, sqrt, atan2);
  }

  /**
   * CreateImage: the image rectangle is the whole truncated canvas, the bitmap
   * is a diameter × diameter square whose buffer holds the wheel image, and
   * the buffer length cannot overflow.
   */
  method CreateImage(width: real, height: real, sqrt: real -> real, atan2: (real, real) -> real)
    returns (bitmap: Bitmap, imageRect: Rect)
    requires 2 <= Truncate(width) && 2 <= Truncate(height)
    ensures imageRect == Rect(0.0, 0.0, Truncate(width) as real, Truncate(height) as real)
    ensures var d := Diameter(Truncate(width), Truncate(height));
      && 2 <= d && d * d < Int32Max
      && bitmap == Bitmap(d, d, WheelImage(d, sqrt, atan2))
  {
    var w := Truncate(width);
    var h := Truncate(height);
    imageRect := Rect(0.0, 0.0, w as real, h as real);
    var diameter := if w < h then w else h;
    if diameter > MaxDiameter {
      diameter := MaxDiameter;
    }
    MaxDiameterFits();
    SquareMonotone(diameter, MaxDiameter);
    var pixels := new SkColor[diameter * diameter](_ => Transparent);
    var row := 0;
    for y := 0 to diameter
      invariant row == y * diameter && row <= pixels.Length
      invariant pixels[..row] == Rows(diameter, y, sqrt, atan2)
      invariant forall i :: row <= i < pixels.Length ==> pixels[i] == Transparent
    {
      RowIndexBound(y, diameter - 1, diameter, diameter);
      PaintRow(pixels, diameter, y, row, sqrt, atan2);
      MulSucc(y, diameter);
      row := row + diameter;
    }
    assert pixels[..] == pixels[..row];
    bitmap := Bitmap(diameter, diameter, pixels[..]);
  }

  /**
   * The inner loop of CreateImage: paints row y, which starts at index row,
   * so that the buffer holds one more finished row and is still untouched
   * beyond it.
   */
  method PaintRow(pixels: array<SkColor>, diameter: int, y: int, row: int,
                  sqrt: real -> real, atan2: (real, real) -> real)
    requires 2 <= diameter && 0 <= y < diameter && row == y * diameter
    requires row + diameter <= pixels.Length
    requires pixels[..row] == Rows(diameter, y, sqrt, atan2)
    requires forall i :: row <= i < pixels.Length ==> pixels[i] == Transparent
    modifies pixels
    ensures pixels[..row + diameter] == Rows(diameter, y + 1, sqrt, atan2)
    ensures forall i :: row + diameter <= i < pixels.Length ==> pixels[i] == Transparent
  {
    var radius := diameter / 2;
    ghost var line := Row(diameter, y, sqrt, atan2);
    ghost var rows := Rows(diameter, y, sqrt, atan2);
    for x := 0 to diameter
      invariant pixels[..row + x] == rows + line[..x]
      invariant forall i :: row + x <= i < pixels.Length ==> pixels[i] == Transparent
    {
      ghost var before := pixels[..];
      var saturation := WheelSaturation(radius, x, y, sqrt);
      if saturation >= 1.0 {
        assert line[x] == Transparent == before[row + x];
        PrefixStep(before, row + x);
        AppendPixel(before[..row + x], rows, line, x, Transparent);
        continue;
      }
      var color := ToSkColor(WheelHsb(radius, x, y, sqrt, atan2));
      assert line[x] == color;
      pixels[row + x] := color;
      assert pixels[..] == before[row + x := color];
      UpdatePrefix(before, row + x, color);
      AppendPixel(before[..row + x], rows, line, x, color);
    }
    assert line[..diameter] == line;
  }

  /** Square root and arc tangent as the rasteriser relies on them. */
  ghost predicate MathContract(sqrt: real -> real, atan2: (real, real) -> real)
  {
    && (forall v :: 0.0 <= v ==> 0.0 <= sqrt(v))
    && (forall a, b :: -Pi < atan2(a, b) <= Pi)
  }

  /** The hue of every pixel lies in [0°, 360°). */
  lemma WheelHueRange(radius: int, x: int, y: int, atan2: (real, real) -> real)
    requires -Pi < atan2((x - radius) as real, (y - radius) as real) <= Pi
    ensures 0.0 <= WheelHue(radius, x, y, atan2) < 360.0
  {
  }

  /**
   * Inside the disk a pixel is painted from an HSB value with saturation in
   * [0, 1), hue in [0°, 360°) and brightness 1: it is opaque and one of its
   * channels is 255.
   */
  lemma InDiskPixel(d: int, x: int, y: int, sqrt: real -> real, atan2: (real, real) -> real)
    requires 2 <= d && MathContract(sqrt, atan2)
    requires WheelSaturation(d / 2, x, y, sqrt) < 1.0
    ensures var hsb := WheelHsb(d / 2, x, y, sqrt, atan2);
      && 0.0 <= hsb.saturation < 1.0 && 0.0 <= hsb.hue < 360.0 && hsb.brightness == 1.0
      && WheelPixel(d, x, y, sqrt, atan2) == ToSkColor(hsb)
    ensures var p := WheelPixel(d, x, y, sqrt, atan2);
      p.alpha == 255 && (p.red == 255 || p.green == 255 || p.blue == 255)
  {
    var radius := d / 2;
    var dx := (radius - x) as real;
    var dy := (radius - y) as real;
    assert 0.0 <= dx * dx + dy * dy by {
      assert 0.0 <= dx * dx by { if dx < 0.0 { MulNonNegative(-dx, -dx); } else { MulNonNegative(dx, dx); } }
      assert 0.0 <= dy * dy by { if dy < 0.0 { MulNonNegative(-dy, -dy); } else { MulNonNegative(dy, dy); } }
    }
    WheelHueRange(radius, x, y, atan2);
    var hsb := WheelHsb(radius, x, y, sqrt, atan2);
    ToColorBounds(hsb);
    var c := ToColor(hsb);
    assert c.alpha == 1.0;
    ToByteOfScaledByte(255);
  }

  /** Pixels on or outside the circle keep the buffer's default colour. */
  lemma OutsideDiskTransparent(d: int, x: int, y: int, sqrt: real -> real, atan2: (real, real) -> real)
    requires 2 <= d && 0 <= x < d && 0 <= y < d
    requires WheelSaturation(d / 2, x, y, sqrt) >= 1.0
    ensures 0 <= y * d + x < d * d
    ensures WheelImage(d, sqrt, atan2)[y * d + x] == Transparent
  {
    WheelImageAt(d, x, y, sqrt, atan2);
  }

  /** The centre pixel is opaque white when the square root of 0 is 0. */
  lemma CenterIsWhite(d: int, sqrt: real -> real, atan2: (real, real) -> real)
    requires 2 <= d && sqrt(0.0) == 0.0
    ensures WheelPixel(d, d / 2, d / 2, sqrt, atan2) == SkColor(255, 255, 255, 255)
  {
    var radius := d / 2;
    var hsb := WheelHsb(radius, radius, radius, sqrt, atan2);
    assert hsb.saturation == 0.0;
    assert Chroma(hsb) == 0.0;
    HextripleOf(hsb.hue / 60.0, 0.0, 1.0, Sextant(hsb.hue / 60.0), 0.0);
    assert ToColor(hsb) == Color(1.0, 1.0, 1.0, 1.0);
    ToByteOfScaledByte(255);
  }

  /**
   * The repaint test as written: rebuild when there is no bitmap, or its width
   * differs from the canvas width, or its height differs from the canvas WIDTH.
   */
  predicate NeedsRegeneration(wheel: Option<Bitmap>, canvasWidth: real, canvasHeight: real)
  {
    || wheel.None?
    || wheel.value.width as real != canvasWidth
    || wheel.value.height as real != canvasWidth
  }

  /** The canvas height never takes part in the repaint test. */
  lemma RegenerationIgnoresHeight(wheel: Option<Bitmap>, canvasWidth: real, h1: real, h2: real)
    ensures NeedsRegeneration(wheel, canvasWidth, h1) == NeedsRegeneration(wheel, canvasWidth, h2)
  {
  }

  /**
   * A 300 × 300 wheel is kept when the canvas shrinks to 300 × 200, although a
   * new image would have diameter 200.
   */
  lemma HeightChangeNotDetected(pixels: seq<SkColor>)
    ensures !NeedsRegeneration(Some(Bitmap(300, 300, pixels)), 300.0, 200.0)
    ensures Diameter(Truncate(300.0), Truncate(200.0)) == 200
  {
  }

  /** The wheel control: its bitmap, the rectangle it covers and its Color property. */
  class ColorWheel {
    var colorWheel: Option<Bitmap>
    var imageRect: Rect
    var color: Color

    /** A bitmap, once there is one, holds width × height pixels. */
    ghost predicate Valid()
      reads this
    {
      colorWheel.Some? ==> colorWheel.value.WellFormed()
    }

    /** A new control: no bitmap, an empty rectangle and the default colour white. */
    constructor()
      ensures Valid()
      ensures colorWheel == None && imageRect == Rect(0.0, 0.0, 0.0, 0.0) && color == White
    {
      colorWheel := None;
      imageRect := Rect(0.0, 0.0, 0.0, 0.0);
      color := White;
    }

    /** OnPaintSurface: rebuild bitmap and rectangle exactly when the repaint test says so. */
    method OnPaintSurface(canvasWidth: real, canvasHeight: real, sqrt: real -> real, atan2: (real, real) -> real)
      requires Valid()
      requires NeedsRegeneration(colorWheel, canvasWidth, canvasHeight) ==>
        2 <= Truncate(canvasWidth) && 2 <= Truncate(canvasHeight)
      modifies this
      ensures Valid()
      ensures color == old(color)
      ensures !NeedsRegeneration(old(colorWheel), canvasWidth, canvasHeight) ==>
        colorWheel == old(colorWheel) && imageRect == old(imageRect)
      ensures NeedsRegeneration(old(colorWheel), canvasWidth, canvasHeight) ==>
        var d := Diameter(Truncate(canvasWidth), Truncate(canvasHeight));
        && colorWheel == Some(Bitmap(d, d, WheelImage(d, sqrt, atan2)))
        && imageRect == Rect(0.0, 0.0, Truncate(canvasWidth) as real, Truncate(canvasHeight) as real)
    {
      if NeedsRegeneration(colorWheel, canvasWidth, canvasHeight) {
        var bitmap, rect := CreateImage(canvasWidth, canvasHeight, sqrt, atan2);
        colorWheel := Some(bitmap);
        imageRect := rect;
      }
    }

    /**
     * PickColor: with a bitmap and the truncated point inside the rectangle,
     * the colour becomes the pixel's bytes over 255; otherwise nothing changes.
     */
    method PickColor(px: real, py: real)
      requires Valid()
      modifies this`color
      ensures Valid()
      ensures var x, y := Truncate(px), Truncate(py);
        if colorWheel.Some? && imageRect.Contains(x as real, y as real)
          && colorWheel.value.GetPixel(x, y).Some? then
          var p := colorWheel.value.GetPixel(x, y).value;
          color == FromBytes(p.red, p.green, p.blue, p.alpha)
        else color == old(color)
    {
      var x := Truncate(px);
      var y := Truncate(py);
      if colorWheel.Some? && imageRect.Contains(x as real, y as real) {
        var pixel := colorWheel.value.GetPixel(x, y);
        if pixel.Some? {
          var p := pixel.value;
          color := FromBytes(p.red, p.green, p.blue, p.alpha);
        }
      }
    }
  }
}
