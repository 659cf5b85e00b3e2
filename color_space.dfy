/** Hue-saturation-brightness colours and the hexcone conversion to and from RGB (Model/HSBColor.cs). */
module ColorSpace {
  import opened Graphics

  /** Hue in degrees, saturation and brightness in [0, 1] when built from a colour; alpha as given. */
  datatype HSBColor = HSBColor(hue: real, saturation: real, brightness: real, alpha: real)

  function Min(a: real, b: real, c: real): (r: real)
    ensures r <= a && r <= b && r <= c
    ensures r == a || r == b || r == c
  {
    var result := if b < a then b else a;
    if c < result then c else result
  }

  function Max(a: real, b: real, c: real): (r: real)
    ensures r >= a && r >= b && r >= c
    ensures r == a || r == b || r == c
  {
    var result := if b > a then b else a;
    if c > result then c else result
  }

  function Abs(x: real): real
  {
    if x < 0.0 then -x else x
  }

  lemma MulNonNegative(a: real, b: real)
    requires 0.0 <= a && 0.0 <= b
    ensures 0.0 <= a * b
  {
  }

  lemma MulPositive(a: real, b: real)
    requires 0.0 < a && 0.0 < b
    ensures 0.0 < a * b
  {
  }

  /** Comparing a quotient with q by multiplying out. */
  lemma QuotientLower(y: real, m: real, q: real)
    requires m > 0.0
    ensures q <= y / m <==> m * q <= y
  {
    var d := y / m;
    assert m * d == y;
    assert m * (d - q) == y - m * q;
    if q <= d { MulNonNegative(m, d - q); }
    if q > d { MulPositive(m, q - d); }
  }

  /** The two sides of ⌊y/m⌋ = q, multiplied out. */
  lemma QuotientBounds(y: real, m: real, q: real)
    requires m > 0.0
    ensures q <= y / m <==> m * q <= y
    ensures y / m < q + 1.0 <==> y < m * q + m
  {
    QuotientLower(y, m, q);
    QuotientLower(y, m, q + 1.0);
    assert m * (q + 1.0) == m * q + m;
  }

  /** m·⌊y/m⌋ ≤ y < m·⌊y/m⌋ + m. */
  lemma FloorDivBounds(y: real, m: real)
    requires m > 0.0
    ensures m * (y / m).Floor as real <= y < m * (y / m).Floor as real + m
  {
    var q := (y / m).Floor as real;
    assert q <= y / m < q + 1.0;
    QuotientBounds(y, m, q);
  }

  /** The remainder of `%` on doubles: division truncated toward zero, so the result has the sign of x. */
  function FMod(x: real, m: real): (r: real)
    requires m > 0.0
    ensures 0.0 <= x ==> 0.0 <= r < m
    ensures x < 0.0 ==> -m < r <= 0.0
  {
    if x >= 0.0 then
      FloorDivBounds(x, m);
      x - m * (x / m).Floor as real
    else
      FloorDivBounds(-x, m);
      -((-x) - m * ((-x) / m).Floor as real)
  }

  /** For x in [k·m, (k+1)·m) the remainder is x − k·m. */
  lemma FModShift(x: real, m: real, k: nat)
    requires m > 0.0
    requires k as real * m <= x < (k + 1) as real * m
    ensures FMod(x, m) == x - k as real * m
  {
    QuotientBounds(x, m, k as real);
    assert k as real <= x / m < (k + 1) as real;
    assert (x / m).Floor == k;
  }

  /**
   * The hue in sextants (degrees / 60) as the constructor computes it from
   * the channel that holds the brightness.
   */
  function Sextants(red: real, green: real, blue: real, brightness: real, chroma: real): real
  {
    if chroma == 0.0 then 0.0
    else if brightness == red then FMod((green - blue) / chroma + 6.0, 6.0)
    else if brightness == green then 2.0 + (blue - red) / chroma
    else 4.0 + (red - green) / chroma
  }

  lemma RatioBound(a: real, c: real)
    requires c > 0.0 && -c <= a <= c
    ensures -1.0 <= a / c <= 1.0
  {
  }

  lemma SextantsBound(red: real, green: real, blue: real)
    ensures var brightness := Max(red, green, blue);
      var s := Sextants(red, green, blue, brightness, brightness - Min(red, green, blue));
      0.0 <= s < 6.0
  {
    var brightness := Max(red, green, blue);
    var chroma := brightness - Min(red, green, blue);
    if chroma != 0.0 {
      RatioBound(green - blue, chroma);
      RatioBound(blue - red, chroma);
      RatioBound(red - green, chroma);
    }
  }

  /** Saturation: the chroma relative to the brightness, or 0 for no chroma. */
  function Saturation(brightness: real, chroma: real): real
    requires 0.0 <= chroma <= brightness
  {
    if chroma == 0.0 then 0.0 else chroma / brightness
  }

  /** HSBColor(Color): brightness is the largest channel, saturation the chroma relative to it. */
  function FromColor(c: Color): (h: HSBColor)
    ensures 0.0 <= h.hue < 360.0
    ensures h.alpha == c.alpha
    ensures h.brightness == Max(c.red, c.green, c.blue)
    ensures h.saturation == Saturation(h.brightness, h.brightness - Min(c.red, c.green, c.blue))
  {
    var red, green, blue := c.red as real, c.green as real, c.blue as real;
    var min := Min(red, green, blue);
    var brightness := Max(red, green, blue);
    var chroma := brightness - min;
    var saturation := Saturation(brightness, chroma);
    SextantsBound(red, green, blue);
    var hue := Sextants(red, green, blue, brightness, chroma) * 60.0;
    var hue := if hue < 0.0 then hue + 360.0 else hue;
    HSBColor(hue, saturation, brightness, c.alpha)
  }

  /** Saturation lies in [0, 1], times the brightness it gives the chroma, and it is 0 exactly without chroma. */
  lemma SaturationProperties(brightness: real, chroma: real)
    requires 0.0 <= chroma <= brightness
    ensures 0.0 <= Saturation(brightness, chroma) <= 1.0
    ensures Saturation(brightness, chroma) * brightness == chroma
    ensures Saturation(brightness, chroma) == 0.0 <==> chroma == 0.0
  {
    if chroma != 0.0 {
      QuotientBounds(chroma, brightness, 0.0);
      QuotientBounds(chroma, brightness, 1.0);
      assert (chroma / brightness) * brightness == chroma;
    }
  }

  /**
   * Saturation and brightness lie in [0, 1]; saturation times brightness is
   * the chroma; saturation is 0 exactly for a gray, whose hue is 0.
   */
  lemma FromColorProperties(c: Color)
    ensures var h := FromColor(c);
      && 0.0 <= h.saturation <= 1.0 && 0.0 <= h.brightness <= 1.0
      && h.saturation * h.brightness == h.brightness - Min(c.red, c.green, c.blue)
      && (h.saturation == 0.0 <==> c.red == c.green == c.blue)
      && (c.red == c.green == c.blue ==> h.hue == 0.0)
  {
    var h := FromColor(c);
    var min := Min(c.red, c.green, c.blue);
    SaturationProperties(h.brightness, h.brightness - min);
  }

  /**
   * The 60° sextant ToColor's if-chain selects: k for a hue (in sextants) in
   * [k, k+1), and the last one for 5 and above.
   */
  function Sextant(hue: real): (k: nat)
    ensures k <= 5
    ensures k < 5 ==> hue < (k + 1) as real
    ensures 0 < k ==> k as real <= hue
  {
    if hue < 1.0 then 0
    else if hue < 2.0 then 1
    else if hue < 3.0 then 2
    else if hue < 4.0 then 3
    else if hue < 5.0 then 4
    else 5
  }

  /** The (red, green, blue) triple of a sextant before the offset m is added. */
  function Hexcone(k: nat, chroma: real, x: real): (real, real, real)
  {
    if k == 0 then (chroma, x, 0.0)
    else if k == 1 then (x, chroma, 0.0)
    else if k == 2 then (0.0, chroma, x)
    else if k == 3 then (0.0, x, chroma)
    else if k == 4 then (x, 0.0, chroma)
    else (chroma, 0.0, x)
  }

  /** The weight of the second-largest channel: 1 − |hue mod 2 − 1|, in [0, 1] for a non-negative hue. */
  function SecondWeight(sextants: real): (w: real)
    ensures 0.0 <= sextants ==> 0.0 <= w <= 1.0
  {
    1.0 - Abs(FMod(sextants, 2.0) - 1.0)
  }

  /** The channels of the hexcone for a hue in sextants, a chroma and an offset m. */
  function Hextriple(sextants: real, chroma: real, m: real): (real, real, real)
  {
    var triple := Hexcone(Sextant(sextants), chroma, chroma * SecondWeight(sextants));
    (triple.0 + m, triple.1 + m, triple.2 + m)
  }

  /** The chroma ToColor starts from: brightness times saturation. */
  function Chroma(h: HSBColor): real
  {
    h.brightness * h.saturation
  }

  /** The red, green and blue values ToColor computes, before the colour clamps them. */
  function Unclamped(h: HSBColor): (real, real, real)
  {
    Hextriple(h.hue / 60.0, Chroma(h), h.brightness - Chroma(h))
  }

  /** HSBColor.ToColor: a zero saturation gives the gray of the brightness, whatever the hue. */
  function ToColor(h: HSBColor): (c: Color)
    ensures 0.0 <= h.alpha <= 1.0 ==> c.alpha == h.alpha
    ensures h.saturation == 0.0 && 0.0 <= h.brightness <= 1.0 ==>
      c.red == h.brightness && c.green == h.brightness && c.blue == h.brightness
  {
    var u := Unclamped(h);
    FromRgba(u.0, u.1, u.2, h.alpha)
  }

  /** Each triple component is 0, x or the chroma, and the chroma is always among them. */
  lemma HexconeBounds(k: nat, chroma: real, x: real)
    requires 0.0 <= x <= chroma
    ensures var (r, g, b) := Hexcone(k, chroma, x);
      && 0.0 <= r <= chroma && 0.0 <= g <= chroma && 0.0 <= b <= chroma
      && Max(r, g, b) == chroma
  {
  }

  lemma ChromaBounds(h: HSBColor)
    requires 0.0 <= h.saturation <= 1.0 && 0.0 <= h.brightness
    ensures 0.0 <= Chroma(h) <= h.brightness
  {
    MulNonNegative(h.brightness, h.saturation);
    MulNonNegative(h.brightness, 1.0 - h.saturation);
    assert h.brightness * (1.0 - h.saturation) == h.brightness - h.brightness * h.saturation;
  }

  lemma SecondComponentBounds(chroma: real, w: real)
    requires 0.0 <= chroma && 0.0 <= w <= 1.0
    ensures 0.0 <= chroma * w <= chroma
  {
    MulNonNegative(chroma, w);
    MulNonNegative(chroma, 1.0 - w);
    assert chroma * (1.0 - w) == chroma - chroma * w;
  }

  /** Adding the same offset to three values adds it to their maximum. */
  lemma MaxShift(a: real, b: real, c: real, m: real)
    ensures Max(a + m, b + m, c + m) == Max(a, b, c) + m
  {
  }

  /** With the offset m added, each channel lies in [m, m + chroma] and the largest is m + chroma. */
  lemma OffsetHexconeBounds(k: nat, chroma: real, x: real, m: real)
    requires 0.0 <= x <= chroma
    ensures var (r, g, b) := Hexcone(k, chroma, x);
      && m <= r + m <= m + chroma && m <= g + m <= m + chroma && m <= b + m <= m + chroma
      && Max(r + m, g + m, b + m) == m + chroma
  {
    var (r, g, b) := Hexcone(k, chroma, x);
    HexconeBounds(k, chroma, x);
    MaxShift(r, g, b, m);
  }

  /** For a non-negative hue, each hexcone channel lies in [m, m + chroma] and the largest is m + chroma. */
  lemma HextripleBounds(sextants: real, chroma: real, m: real)
    requires 0.0 <= sextants && 0.0 <= chroma
    ensures var u := Hextriple(sextants, chroma, m);
      && m <= u.0 <= m + chroma && m <= u.1 <= m + chroma && m <= u.2 <= m + chroma
      && Max(u.0, u.1, u.2) == m + chroma
  {
    var w := SecondWeight(sextants);
    SecondComponentBounds(chroma, w);
    OffsetHexconeBounds(Sextant(sextants), chroma, chroma * w, m);
  }

  /** The unclamped channels lie in [B − B·S, B] and the largest is B. */
  lemma UnclampedBounds(h: HSBColor)
    requires 0.0 <= h.saturation <= 1.0 && 0.0 <= h.brightness <= 1.0 && 0.0 <= h.hue
    ensures 0.0 <= h.brightness - Chroma(h)
    ensures h.brightness - Chroma(h) <= Unclamped(h).0 <= h.brightness
    ensures h.brightness - Chroma(h) <= Unclamped(h).1 <= h.brightness
    ensures h.brightness - Chroma(h) <= Unclamped(h).2 <= h.brightness
    ensures Max(Unclamped(h).0, Unclamped(h).1, Unclamped(h).2) == h.brightness
  {
    ChromaBounds(h);
    HextripleBounds(h.hue / 60.0, Chroma(h), h.brightness - Chroma(h));
  }

  /**
   * For saturation and brightness B in [0, 1] and a non-negative hue, every
   * channel of ToColor lies in [B − B·S, B] and the largest one is B, so the
   * colour's clamp changes nothing; alpha in [0, 1] passes unchanged.
   */
  lemma ToColorBounds(h: HSBColor)
    requires 0.0 <= h.saturation <= 1.0 && 0.0 <= h.brightness <= 1.0 && 0.0 <= h.hue
    ensures var c := ToColor(h);
      && h.brightness - Chroma(h) <= c.red <= h.brightness
      && h.brightness - Chroma(h) <= c.green <= h.brightness
      && h.brightness - Chroma(h) <= c.blue <= h.brightness
      && Max(c.red, c.green, c.blue) == h.brightness
      && (0.0 <= h.alpha <= 1.0 ==> c.alpha == h.alpha)
      && Unclamped(h) == (c.red as real, c.green as real, c.blue as real)
  {
    UnclampedBounds(h);
    var u := Unclamped(h);
    assert 0.0 <= u.0 <= 1.0 && 0.0 <= u.1 <= 1.0 && 0.0 <= u.2 <= 1.0;
    assert ToColor(h) == FromRgba(u.0, u.1, u.2, h.alpha);
  }

  lemma MulQuotient(a: real, c: real)
    requires c != 0.0
    ensures c * (a / c) == a
  {
  }

  /** Hextriple once its sextant and second component are known. */
  lemma HextripleOf(s: real, chroma: real, m: real, k: nat, x: real)
    requires Sextant(s) == k && chroma * SecondWeight(s) == x
    ensures var triple := Hexcone(k, chroma, x);
      Hextriple(s, chroma, m) == (triple.0 + m, triple.1 + m, triple.2 + m)
  {
  }

  /** With no chroma every channel is the brightness. */
  lemma GrayRoundTrip(red: real, green: real, blue: real)
    requires red == green == blue
    ensures var brightness := Max(red, green, blue);
      var chroma := brightness - Min(red, green, blue);
      Hextriple(Sextants(red, green, blue, brightness, chroma), chroma, brightness - chroma) == (red, green, blue)
  {
    assert Max(red, green, blue) == red && Min(red, green, blue) == red;
    assert Sextants(red, green, blue, red, 0.0) == 0.0;
    HextripleOf(0.0, 0.0, red, 0, 0.0);
  }

  /** On [2j, 2j + 1] the weight rises from 0 to 1. */
  lemma SecondWeightRising(s: real, j: nat)
    requires 2.0 * j as real <= s <= 2.0 * j as real + 1.0
    ensures SecondWeight(s) == s - 2.0 * j as real
  {
    FModShift(s, 2.0, j);
  }

  /** On [2j + 1, 2j + 2) the weight falls from 1 towards 0. */
  lemma SecondWeightFalling(s: real, j: nat)
    requires 2.0 * j as real + 1.0 <= s < 2.0 * j as real + 2.0
    ensures SecondWeight(s) == 2.0 * j as real + 2.0 - s
  {
    FModShift(s, 2.0, j);
  }

  lemma NegatedProduct(c: real, t: real)
    ensures c * -t == -(c * t)
  {
  }

  /** Red largest, green at least blue: the hue t = (green − blue)/chroma lies in [0, 1]. */
  lemma RedRising(red: real, green: real, blue: real, chroma: real, t: real)
    requires chroma == red - blue && blue <= green <= red && chroma * t == green - blue && 0.0 <= t <= 1.0
    ensures Hextriple(t, chroma, blue) == (red, green, blue)
  {
    SecondWeightRising(t, 0);
    HextripleOf(t, chroma, blue, Sextant(t), green - blue);
  }

  /** Red largest, blue above green: the hue t + 6 lies in [5, 6). */
  lemma RedFalling(red: real, green: real, blue: real, chroma: real, t: real)
    requires chroma == red - green && green < blue <= red && chroma * t == green - blue && -1.0 <= t < 0.0
    ensures Hextriple(t + 6.0, chroma, green) == (red, green, blue)
  {
    SecondWeightFalling(t + 6.0, 2);
    NegatedProduct(chroma, t);
    HextripleOf(t + 6.0, chroma, green, 5, blue - green);
  }

  /** Green largest, blue at least red: the hue 2 + t lies in [2, 3]. */
  lemma GreenRising(red: real, green: real, blue: real, chroma: real, t: real)
    requires chroma == green - red && red <= blue <= green && chroma * t == blue - red && 0.0 <= t <= 1.0
    ensures Hextriple(2.0 + t, chroma, red) == (red, green, blue)
  {
    SecondWeightRising(2.0 + t, 1);
    HextripleOf(2.0 + t, chroma, red, Sextant(2.0 + t), blue - red);
  }

  /** Green largest, red above blue: the hue 2 + t lies in [1, 2). */
  lemma GreenFalling(red: real, green: real, blue: real, chroma: real, t: real)
    requires chroma == green - blue && blue < red <= green && chroma * t == blue - red && -1.0 <= t < 0.0
    ensures Hextriple(2.0 + t, chroma, blue) == (red, green, blue)
  {
    SecondWeightFalling(2.0 + t, 0);
    NegatedProduct(chroma, t);
    HextripleOf(2.0 + t, chroma, blue, 1, red - blue);
  }

  /** Blue largest, red at least green: the hue 4 + t lies in [4, 5). */
  lemma BlueRising(red: real, green: real, blue: real, chroma: real, t: real)
    requires chroma == blue - green && green <= red < blue && chroma * t == red - green && 0.0 <= t < 1.0
    ensures Hextriple(4.0 + t, chroma, green) == (red, green, blue)
  {
    SecondWeightRising(4.0 + t, 2);
    HextripleOf(4.0 + t, chroma, green, 4, red - green);
  }

  /** Blue largest, green above red: the hue 4 + t lies in [3, 4). */
  lemma BlueFalling(red: real, green: real, blue: real, chroma: real, t: real)
    requires chroma == blue - red && red < green < blue && chroma * t == red - green && -1.0 <= t < 0.0
    ensures Hextriple(4.0 + t, chroma, red) == (red, green, blue)
  {
    SecondWeightFalling(4.0 + t, 1);
    NegatedProduct(chroma, t);
    HextripleOf(4.0 + t, chroma, red, 3, green - red);
  }

  /** Red holds the brightness: sextant 0 or 1 when green is at least blue, sextant 5 otherwise. */
  lemma RedRoundTrip(red: real, green: real, blue: real)
    requires Max(red, green, blue) == red != Min(red, green, blue)
    ensures var chroma := red - Min(red, green, blue);
      Hextriple(Sextants(red, green, blue, red, chroma), chroma, red - chroma) == (red, green, blue)
  {
    var chroma := red - Min(red, green, blue);
    var t := (green - blue) / chroma;
    RatioBound(green - blue, chroma);
    MulQuotient(green - blue, chroma);
    QuotientLower(green - blue, chroma, 0.0);
    if green >= blue {
      FModShift(t + 6.0, 6.0, 1);
      RedRising(red, green, blue, chroma, t);
    } else {
      FModShift(t + 6.0, 6.0, 0);
      RedFalling(red, green, blue, chroma, t);
    }
  }

  /** Green holds the brightness: sextant 2 or 3 when blue is at least red, sextant 1 otherwise. */
  lemma GreenRoundTrip(red: real, green: real, blue: real)
    requires Max(red, green, blue) == green != Min(red, green, blue)
    requires green != red
    ensures var chroma := green - Min(red, green, blue);
      Hextriple(Sextants(red, green, blue, green, chroma), chroma, green - chroma) == (red, green, blue)
  {
    var chroma := green - Min(red, green, blue);
    var t := (blue - red) / chroma;
    RatioBound(blue - red, chroma);
    MulQuotient(blue - red, chroma);
    QuotientLower(blue - red, chroma, 0.0);
    if blue >= red {
      GreenRising(red, green, blue, chroma, t);
    } else {
      GreenFalling(red, green, blue, chroma, t);
    }
  }

  /** Blue holds the brightness: sextant 4 when red is at least green, sextant 3 otherwise. */
  lemma BlueRoundTrip(red: real, green: real, blue: real)
    requires Max(red, green, blue) == blue != Min(red, green, blue)
    requires blue != red && blue != green
    ensures var chroma := blue - Min(red, green, blue);
      Hextriple(Sextants(red, green, blue, blue, chroma), chroma, blue - chroma) == (red, green, blue)
  {
    var chroma := blue - Min(red, green, blue);
    var t := (red - green) / chroma;
    RatioBound(red - green, chroma);
    MulQuotient(red - green, chroma);
    QuotientBounds(red - green, chroma, 0.0);
    if red >= green {
      BlueRising(red, green, blue, chroma, t);
    } else {
      BlueFalling(red, green, blue, chroma, t);
    }
  }

  /** The hexcone of the constructor's hue, chroma and minimum gives back the channels. */
  lemma SextantsRoundTrip(red: real, green: real, blue: real)
    ensures var brightness := Max(red, green, blue);
      var chroma := brightness - Min(red, green, blue);
      Hextriple(Sextants(red, green, blue, brightness, chroma), chroma, brightness - chroma) == (red, green, blue)
  {
    var brightness := Max(red, green, blue);
    if brightness == Min(red, green, blue) {
      GrayRoundTrip(red, green, blue);
    } else if brightness == red {
      RedRoundTrip(red, green, blue);
    } else if brightness == green {
      GreenRoundTrip(red, green, blue);
    } else {
      BlueRoundTrip(red, green, blue);
    }
  }

  /** The hue the constructor stores is its sextant count times 60°, never shifted by 360°. */
  lemma FromColorHue(c: Color)
    ensures var brightness := Max(c.red, c.green, c.blue);
      FromColor(c).hue / 60.0
        == Sextants(c.red, c.green, c.blue, brightness, brightness - Min(c.red, c.green, c.blue))
  {
    SextantsBound(c.red, c.green, c.blue);
  }

  /** The chroma ToColor recomputes from the stored brightness and saturation is the constructor's. */
  lemma FromColorChroma(c: Color)
    ensures Chroma(FromColor(c)) == Max(c.red, c.green, c.blue) - Min(c.red, c.green, c.blue)
  {
    var h := FromColor(c);
    SaturationProperties(h.brightness, h.brightness - Min(c.red, c.green, c.blue));
  }

  /** Before the clamp, ToColor of the constructor's value already gives the channels back. */
  lemma FromColorUnclamped(c: Color)
    ensures Unclamped(FromColor(c)) == (c.red as real, c.green as real, c.blue as real)
  {
    var h := FromColor(c);
    FromColorChroma(c);
    FromColorHue(c);
    SextantsRoundTrip(c.red, c.green, c.blue);
  }

  /** Converting a colour to HSB and back gives the colour itself. */
  lemma RoundTrip(c: Color)
    ensures ToColor(FromColor(c)) == c
  {
    FromColorUnclamped(c);
  }
}
