/** A named colour and its three Equals overloads (instance part of Model/NamedColor.cs). */
module NamedColors {
  import opened Graphics
  import opened Optional
  import ColorComparer

  /**
   * StringComparer.Ordinal: lexicographic by character code. Only whether it
   * returns zero matters to the model.
   */
  function OrdinalCompare(a: string, b: string): (r: int)
    ensures r == 0 <==> a == b
    decreases |a|
  {
    if a == [] && b == [] then 0
    else if a == [] then -1
    else if b == [] then 1
    else if a[0] < b[0] then -1
    else if a[0] > b[0] then 1
    else
      assert a == [a[0]] + a[1..] && b == [b[0]] + b[1..];
      OrdinalCompare(a[1..], b[1..])
  }

  /** What `Equals(object)` can be handed: null, a NamedColor, a Color, or some other object. */
  datatype Obj = NullObject | NamedColorObject(named: NamedColor) | ColorObject(color: Color) | OtherObject

  /** An immutable (name, colour) pair; instances are created only by the registry. */
  class NamedColor {
    const name: string
    const color: Color

    constructor (name: string, color: Color)
      ensures this.name == name && this.color == color
    {
      this.name := name;
      this.color := color;
    }

    /** Equals(NamedColor): false for null, otherwise exact colour equality and ordinal name equality. */
    function EqualsNamed(other: NamedColor?): (r: bool)
      ensures r <==> other != null && other.color == color && other.name == name
    {
      if other != null then EqualsColor(Some(other.color)) && OrdinalCompare(name, other.name) == 0
      else false
    }

    /** Equals(Color): false for null, otherwise exact colour equality. */
    function EqualsColor(c: Option<Color>): (r: bool)
      ensures r <==> c == Some(color)
    {
      if c.Some? then ColorComparer.Equals(color, c.value) else false
    }

    /** Equals(object): a NamedColor compares name and colour, a Color compares colour, anything else is unequal. */
    function EqualsObject(obj: Obj): (r: bool)
      ensures obj.NamedColorObject? ==> (r <==> obj.named.name == name && obj.named.color == color)
      ensures obj.ColorObject? ==> (r <==> obj.color == color)
      ensures obj.NullObject? || obj.OtherObject? ==> !r
    {
      match obj
      case NamedColorObject(n) => EqualsNamed(n)
      case ColorObject(c) => EqualsColor(Some(c))
      case _ => false
    }
  }

  /** Two named colours equal by name and colour also agree when compared as colours. */
  lemma EqualsNamedImpliesEqualsColor(a: NamedColor, b: NamedColor)
    requires a.EqualsNamed(b)
    ensures a.EqualsColor(Some(b.color)) && b.EqualsNamed(a)
  {
  }
}
