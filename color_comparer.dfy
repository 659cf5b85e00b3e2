/** The strict colour equality comparer (Model/ColorComparer.cs). */
module ColorComparer {
  import opened Graphics

  /**
   * ColorComparer.Equals: true exactly when red, green, blue and alpha are
   * each equal. No tolerance is applied, so this is value equality of colours.
   */
  function Equals(x: Color, y: Color): (r: bool)
    ensures r <==> x == y
  {
    x.red == y.red && x.blue == y.blue && x.green == y.green && x.alpha == y.alpha
  }

  lemma EqualsReflexive(x: Color)
    ensures Equals(x, x)
  {
  }

  lemma EqualsSymmetric(x: Color, y: Color)
    ensures Equals(x, y) == Equals(y, x)
  {
  }

  lemma EqualsTransitive(x: Color, y: Color, z: Color)
    requires Equals(x, y) && Equals(y, z)
    ensures Equals(x, z)
  {
  }

  /** Colours that differ in a single channel, by however little, are not equal. */
  lemma NoTolerance(x: Color, y: Color)
    requires x.red != y.red || x.green != y.green || x.blue != y.blue || x.alpha != y.alpha
    ensures !Equals(x, y)
  {
  }
}
