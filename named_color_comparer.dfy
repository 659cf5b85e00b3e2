/** The null-aware comparer that orders named colours by name (Model/NamedColorComparer.cs). */
module NamedColorComparer {
  import opened NamedColors
  import Sorting

  /**
   * What IComparer promises of a string comparer such as
   * StringComparer.CurrentCulture, whose actual order the model leaves
   * abstract: every string compares equal to itself, the sign flips when the
   * arguments are swapped, and "may precede" is transitive.
   */
  ghost predicate IsStringComparer(order: (string, string) -> int)
  {
    && (forall a :: order(a, a) == 0)
    && (forall a, b :: order(a, b) < 0 <==> order(b, a) > 0)
    && (forall a, b, c :: order(a, b) <= 0 && order(b, c) <= 0 ==> order(a, c) <= 0)
  }

  /** NamedColorComparer.Compare: null before everything else, otherwise the name order. */
  function Compare(x: NamedColor?, y: NamedColor?, nameOrder: (string, string) -> int): (r: int)
    ensures x == null && y == null ==> r == 0
    ensures x == null && y != null ==> r == -1
    ensures x != null && y == null ==> r == 1
    ensures x != null && y != null ==> r == nameOrder(x.name, y.name)
  {
    if x == null && y == null then 0
    else if x == null then -1
    else if y == null then 1
    else nameOrder(x.name, y.name)
  }

  /** The comparer as a function value, as List<T>.Sort receives it. */
  function ByName(nameOrder: (string, string) -> int): (NamedColor, NamedColor) -> int
  {
    (a: NamedColor, b: NamedColor) => Compare(a, b, nameOrder)
  }

  /** Every named colour (and null) compares equal to itself. */
  lemma CompareReflexive(x: NamedColor?, nameOrder: (string, string) -> int)
    requires IsStringComparer(nameOrder)
    ensures Compare(x, x, nameOrder) == 0
  {
  }

  /** Swapping the arguments flips the sign whenever the name order does. */
  lemma CompareAntisymmetric(x: NamedColor?, y: NamedColor?, nameOrder: (string, string) -> int)
    requires IsStringComparer(nameOrder)
    ensures Compare(x, y, nameOrder) < 0 <==> Compare(y, x, nameOrder) > 0
    ensures Compare(x, y, nameOrder) == 0 <==> Compare(y, x, nameOrder) == 0
  {
  }

  /** Null is the least element: it may precede anything, and nothing non-null may precede it. */
  lemma NullIsLeast(y: NamedColor?, nameOrder: (string, string) -> int)
    ensures Compare(null, y, nameOrder) <= 0
    ensures y != null ==> Compare(y, null, nameOrder) > 0
  {
  }

  /** With a string comparer underneath, the named-colour comparer is total and transitive. */
  lemma CompareIsTotalPreorder(x: NamedColor?, y: NamedColor?, z: NamedColor?, nameOrder: (string, string) -> int)
    requires IsStringComparer(nameOrder)
    ensures Compare(x, y, nameOrder) <= 0 || Compare(y, x, nameOrder) <= 0
    ensures Compare(x, y, nameOrder) <= 0 && Compare(y, z, nameOrder) <= 0 ==> Compare(x, z, nameOrder) <= 0
  {
    if x != null && y != null {
      assert nameOrder(x.name, y.name) <= 0 || nameOrder(y.name, x.name) <= 0;
    }
  }

  /** Hence List<T>.Sort may be called with it on any list of named colours. */
  lemma ByNameIsComparer(s: seq<NamedColor>, nameOrder: (string, string) -> int)
    requires IsStringComparer(nameOrder)
    ensures Sorting.IsComparerOn(ByName(nameOrder), s)
  {
    forall a, b | a in s && b in s ensures ByName(nameOrder)(a, b) <= 0 || ByName(nameOrder)(b, a) <= 0 {
      CompareIsTotalPreorder(a, b, b, nameOrder);
    }
    forall a, b, c | a in s && b in s && c in s
      ensures ByName(nameOrder)(a, b) <= 0 && ByName(nameOrder)(b, c) <= 0 ==> ByName(nameOrder)(a, c) <= 0
    {
      CompareIsTotalPreorder(a, b, c, nameOrder);
    }
  }
}
