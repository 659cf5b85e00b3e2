/**
 * The registry of named colours: the static part of Model/NamedColor.cs. It is
 * built once from a catalog of (name, colour) pairs, indexes it by name and by
 * colour, and keeps every entry in a list sorted by NamedColorComparer.
 */
module NamedColorRegistry {
  import opened Graphics
  import opened NamedColors
  import NamedColorComparer
  import Sorting

  /** The names of a catalog, in catalog order. */
  function Names(catalog: seq<(string, Color)>): (r: seq<string>)
    ensures |r| == |catalog| && forall k | 0 <= k < |catalog| :: r[k] == catalog[k].0
  {
    seq(|catalog|, k requires 0 <= k < |catalog| => catalog[k].0)
  }

  /** The colours of a catalog, in catalog order. */
  function ColorsOf(catalog: seq<(string, Color)>): (r: seq<Color>)
    ensures |r| == |catalog| && forall k | 0 <= k < |catalog| :: r[k] == catalog[k].1
  {
    seq(|catalog|, k requires 0 <= k < |catalog| => catalog[k].1)
  }

  /** The index of the first occurrence of x in keys, or |keys| when there is none. */
  function FirstIndex<K(==)>(keys: seq<K>, x: K): (k: nat)
    ensures k <= |keys|
    ensures k < |keys| ==> keys[k] == x
    ensures forall j | 0 <= j < k :: keys[j] != x
  {
    if keys == [] then 0
    else if keys[0] == x then 0
    else 1 + FirstIndex(keys[1..], x)
  }

  /** Catalog names are pairwise distinct; the by-name dictionary's Add fails otherwise. */
  ghost predicate DistinctNames(catalog: seq<(string, Color)>)
  {
    forall i, j | 0 <= i < j < |catalog| :: catalog[i].0 != catalog[j].0
  }

  /**
   * The dictionary m registers, for each key among the first i of keys, the
   * value created for that key's first occurrence.
   */
  ghost predicate IndexesFirst<K(!new), V>(keys: seq<K>, i: nat, m: map<K, V>, values: seq<V>)
  {
    && (forall x :: x in m <==> FirstIndex(keys, x) < i)
    && (forall x | x in m :: FirstIndex(keys, x) < |values| && m[x] == values[FirstIndex(keys, x)])
  }

  /** One step of the registration loop: add the key unless an earlier occurrence already registered it. */
  lemma {:induction false} IndexesFirstStep<K(!new), V>(keys: seq<K>, i: nat, m: map<K, V>, values: seq<V>, v: V)
    requires i < |keys| && |values| == i
    requires IndexesFirst(keys, i, m, values)
    ensures keys[i] in m <==> FirstIndex(keys, keys[i]) < i
    ensures IndexesFirst(keys, i + 1, if keys[i] in m then m else m[keys[i] := v], values + [v])
  {
    var m' := if keys[i] in m then m else m[keys[i] := v];
    forall x ensures x in m' <==> FirstIndex(keys, x) < i + 1 {
      if x == keys[i] {
        assert FirstIndex(keys, x) <= i;
      } else if FirstIndex(keys, x) == i {
        assert keys[FirstIndex(keys, x)] == x;
      }
    }
    forall x | x in m' ensures FirstIndex(keys, x) < i + 1 && m'[x] == (values + [v])[FirstIndex(keys, x)] {
      if x == keys[i] && keys[i] !in m {
        assert FirstIndex(keys, x) <= i;
      }
    }
  }

  class Registry {
    /** The catalog the registry was built from, in registration order. */
    ghost const catalog: seq<(string, Color)>
    /** The culture string order the All list is sorted by. */
    ghost const nameOrder: (string, string) -> int
    /** The NamedColor created for each catalog entry, in registration order. */
    ghost const entries: seq<NamedColor>

    /** NamedColor.All: every entry, aliases included, sorted by name. */
    const all: seq<NamedColor>
    const fromName: map<string, NamedColor>
    const fromColor: map<Color, NamedColor>

    ghost predicate Valid()
    {
      && |entries| == |catalog|
      && (forall k | 0 <= k < |catalog| :: entries[k].name == catalog[k].0 && entries[k].color == catalog[k].1)
      && DistinctNames(catalog)
      && IndexesFirst(Names(catalog), |catalog|, fromName, entries)
      && IndexesFirst(ColorsOf(catalog), |catalog|, fromColor, entries)
      && NamedColorComparer.IsStringComparer(nameOrder)
      && multiset(all) == multiset(entries)
      && Sorting.SortedBy(NamedColorComparer.ByName(nameOrder), all)
    }

    /**
     * The static constructor: one NamedColor per catalog entry, registered by
     * name, registered by colour unless an earlier entry has the same colour,
     * and appended to a list that is then sorted by name.
     */
    constructor (catalog: seq<(string, Color)>, nameOrder: (string, string) -> int)
      requires DistinctNames(catalog)
      requires NamedColorComparer.IsStringComparer(nameOrder)
      ensures Valid()
      ensures this.catalog == catalog && this.nameOrder == nameOrder
    {
      var names := Names(catalog);
      var colors := ColorsOf(catalog);
      var created: seq<NamedColor> := [];
      var byName: map<string, NamedColor> := map[];
      var byColor: map<Color, NamedColor> := map[];
      var i := 0;
      while i < |catalog|
        invariant 0 <= i <= |catalog|
        invariant |created| == i
        invariant forall k | 0 <= k < i :: created[k].name == catalog[k].0 && created[k].color == catalog[k].1
        invariant IndexesFirst(names, i, byName, created)
        invariant IndexesFirst(colors, i, byColor, created)
      {
        var (name, value) := catalog[i];
        var color := new NamedColor(name, value);
        assert FirstIndex(names, name) == i by {
          forall j | 0 <= j < i ensures names[j] != name {
            assert catalog[j].0 != catalog[i].0;
          }
        }
        IndexesFirstStep(names, i, byName, created, color);
        IndexesFirstStep(colors, i, byColor, created, color);
        byName := byName[name := color];
        if value !in byColor {
          // some colours have several names (Aqua and Cyan); the first one registered wins
          byColor := byColor[value := color];
        }
        created := created + [color];
        i := i + 1;
      }
      ghost var registered := created;
      NamedColorComparer.ByNameIsComparer(created, nameOrder);
      var sorted := Sorting.Sort(created, NamedColorComparer.ByName(nameOrder));
      this.catalog := catalog;
      this.nameOrder := nameOrder;
      this.entries := registered;
      this.all := sorted;
      this.fromName := byName;
      this.fromColor := byColor;
    }

    /** NamedColor.FromName: the entry registered under name, or null. */
    function FromName(name: string): (r: NamedColor?)
      requires Valid()
      ensures r == null <==> forall k | 0 <= k < |catalog| :: catalog[k].0 != name
      ensures forall k | 0 <= k < |catalog| && catalog[k].0 == name :: r == entries[k]
    {
      if name in fromName then fromName[name] else null
    }

    /**
     * NamedColor.FromColor: the first registered entry whose colour exactly
     * equals c, or null when no entry has that colour.
     */
    function FromColor(c: Color): (r: NamedColor?)
      requires Valid()
      ensures r == null <==> forall k | 0 <= k < |catalog| :: catalog[k].1 != c
      ensures r != null ==> r.color == c
      ensures r != null ==> exists k | 0 <= k < |catalog| :: r == entries[k] && forall j | 0 <= j < k :: catalog[j].1 != c
    {
      if c in fromColor then fromColor[c] else null
    }

    /** Every registered entry is in All, and All holds nothing else. */
    lemma AllHoldsEveryEntry(x: NamedColor)
      requires Valid()
      ensures x in all <==> x in entries
    {
      assert x in multiset(all) <==> x in multiset(entries);
    }

    /**
     * Looking a name up and then its colour gives an entry of the same colour,
     * registered no later than the name itself: an earlier alias may win.
     */
    lemma FromColorOfFromName(name: string)
      requires Valid()
      requires FromName(name) != null
      ensures FromColor(FromName(name).color) != null
      ensures FromColor(FromName(name).color).color == FromName(name).color
      ensures FirstIndex(ColorsOf(catalog), FromName(name).color) <= FirstIndex(Names(catalog), name)
    {
      var k := FirstIndex(Names(catalog), name);
      assert catalog[k].0 == name;
      assert entries[k] == FromName(name);
    }

    /** Every registered entry's colour is found by FromColor. */
    lemma EntryColorIsNamed(x: NamedColor)
      requires Valid()
      requires x in entries
      ensures FromColor(x.color) != null && FromColor(x.color).color == x.color
    {
      var k :| 0 <= k < |entries| && entries[k] == x;
      assert catalog[k].1 == x.color;
    }
  }
}
