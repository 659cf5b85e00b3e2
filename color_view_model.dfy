/**
 * The colour selector's view model (Model/ColorViewModel.cs): one current
 * colour, per-channel byte accessors, and a SelectionList of named colours
 * kept consistent with the colour in both directions.
 */
module ViewModel {
  import opened Graphics
  import opened Optional
  import opened NamedColors
  import opened NamedColorRegistry
  import opened Selection
  import ColorComparer

  /**
   * A notification the view model's subscribers can see: its own
   * PropertyChanged, identified by the property name it carries, or one raised
   * by its Colors list and received by the view model's handler.
   */
  datatype Notification = PropertyChanged(propertyName: string) | ListChanged(change: ListNotification)

  /** The list's SelectedItem notification. */
  const SelectionChanged: Notification := ListChanged(SelectedItemChanged)

  const ColorChanged: Notification := PropertyChanged("Color")
  const RedChanged: Notification := PropertyChanged("Red")
  const GreenChanged: Notification := PropertyChanged("Green")
  const BlueChanged: Notification := PropertyChanged("Blue")
  /** The Alpha notification is built with the name of Blue, so the two cannot be told apart. */
  const AlphaChanged: Notification := PropertyChanged("Blue")

  /** ToFloat: a byte scaled into a channel; the byte getter reads it back unchanged. */
  function ToFloat(value: Byte): (r: Channel)
    ensures r * 255.0 == value as real
    ensures ToByte(r) == value
  {
    ToByteOfScaledByte(value);
    value as real / 255.0
  }

  function Flag(b: bool): nat
  {
    if b then 1 else 0
  }

  /** The notification n when the channel changed, nothing otherwise. */
  function Change(changed: bool, n: Notification): (r: seq<Notification>)
  {
    if changed then [n] else []
  }

  /**
   * The notifications NotifyColorComponentChanges raises: one per channel
   * whose value differs, in the order red, blue, green, alpha.
   */
  function ComponentChanges(before: Color, after: Color): (r: seq<Notification>)
    ensures |r| == Flag(before.red != after.red) + Flag(before.blue != after.blue)
                   + Flag(before.green != after.green) + Flag(before.alpha != after.alpha)
    // each changed channel sits after the changed channels that precede it in the order red, blue, green, alpha
    ensures before.red != after.red ==> r[0] == RedChanged
    ensures before.blue != after.blue ==> r[Flag(before.red != after.red)] == BlueChanged
    ensures before.green != after.green ==>
      r[Flag(before.red != after.red) + Flag(before.blue != after.blue)] == GreenChanged
    ensures before.alpha != after.alpha ==>
      r[Flag(before.red != after.red) + Flag(before.blue != after.blue) + Flag(before.green != after.green)] == AlphaChanged
    ensures forall i | 0 <= i < |r| :: r[i] == RedChanged || r[i] == BlueChanged || r[i] == GreenChanged
    ensures RedChanged in r <==> before.red != after.red
    ensures GreenChanged in r <==> before.green != after.green
    ensures BlueChanged in r <==> before.blue != after.blue || before.alpha != after.alpha
    ensures ColorChanged !in r
    ensures r == [] <==> before == after
  {
    Change(before.red != after.red, RedChanged)
    + Change(before.blue != after.blue, BlueChanged)
    + Change(before.green != after.green, GreenChanged)
    + Change(before.alpha != after.alpha, AlphaChanged)
  }

  /** With every channel changed, the four notifications come as Red, Blue, Green and then Blue again for alpha. */
  lemma AllComponentsChanged(before: Color, after: Color)
    requires before.red != after.red && before.green != after.green
    requires before.blue != after.blue && before.alpha != after.alpha
    ensures ComponentChanges(before, after) == [RedChanged, BlueChanged, GreenChanged, PropertyChanged("Blue")]
  {
  }

  /** With only alpha changed, the one component notification names Blue. */
  lemma AlphaChangeIsReportedAsBlue(before: Color, a: Channel)
    requires a != before.alpha
    ensures ComponentChanges(before, before.(alpha := a)) == [PropertyChanged("Blue")]
  {
  }

  /** The Option form of a nullable NamedColor reference. */
  function AsOption(n: NamedColor?): (r: Option<NamedColor>)
    ensures r.None? <==> n == null
    ensures r.Some? ==> r.value == n
  {
    if n == null then None else Some(n)
  }

  /**
   * The selection the Color setter leaves: the registry's entry for the new
   * colour (null when it has none), except that a current selection of
   * exactly that colour, such as an alias, is kept.
   */
  function SyncedSelection(current: Option<NamedColor>, found: NamedColor?): (r: Option<NamedColor>)
    ensures r.None? <==> found == null
    ensures r.Some? ==> r.value.color == found.color
    ensures found != null && current.Some? && current.value.color == found.color ==> r == current
    ensures found != null && !(current.Some? && current.value.color == found.color) ==> r == Some(found)
  {
    if found == null || current.None? || !current.value.EqualsColor(Some(found.color)) then AsOption(found)
    else current
  }

  class ColorViewModel {
    const registry: Registry
    /** The Colors list: every named colour, with a selection that follows the colour. */
    const colors: SelectionList<NamedColor>
    var color: Color
    /**
     * One ordered record of what has been raised so far: the view model's own
     * PropertyChanged notifications and, at the point it is raised, the list's
     * SelectedItem notification.
     */
    var notifications: seq<Notification>
    /** How many times the Color setter has been entered. */
    ghost var setterCalls: nat

    ghost predicate Base()
    {
      registry.Valid()
    }

    /** The selected item is null or has exactly the current colour. */
    ghost predicate Consistent()
      reads this, colors
    {
      colors.selected.None? || colors.selected.value.color == color
    }

    ghost predicate Valid()
      reads this, colors
    {
      Base() && Consistent()
    }

    /** Black, with every named colour in the list and nothing selected. */
    constructor (registry: Registry)
      requires registry.Valid()
      ensures Valid() && fresh(colors)
      ensures this.registry == registry
      ensures color == Black && notifications == [] && setterCalls == 0
      ensures colors.items == registry.all && colors.selected == None && colors.notifications == []
    {
      this.registry := registry;
      colors := new SelectionList(registry.all);
      color := Black;
      notifications := [];
      setterCalls := 0;
    }

    function Red(): Byte
      reads this
    {
      ToByte(color.red)
    }

    function Green(): Byte
      reads this
    {
      ToByte(color.green)
    }

    function Blue(): Byte
      reads this
    {
      ToByte(color.blue)
    }

    function Alpha(): Byte
      reads this
    {
      ToByte(color.alpha)
    }

    /**
     * The Color setter. An exactly equal colour changes nothing. Otherwise the
     * colour is stored first; then the list selection moves to the registry's
     * entry for it, unless the selection already has that colour; then Color
     * and the changed components are notified. Moving the selection runs the
     * list handler, which finds the colours equal and does not re-enter.
     */
    method SetColor(value: Color)
      requires Base()
      modifies this, colors
      decreases if value != color then 2 else 0
      ensures setterCalls == old(setterCalls) + 1
      ensures colors.items == old(colors.items)
      ensures value == old(color) ==>
        && color == old(color)
        && colors.selected == old(colors.selected)
        && colors.notifications == old(colors.notifications)
        && notifications == old(notifications)
      ensures value != old(color) ==>
        && color == value
        && Consistent()
        && colors.selected == SyncedSelection(old(colors.selected), registry.FromColor(value))
        && colors.notifications == old(colors.notifications)
             + (if colors.selected != old(colors.selected) then [SelectedItemChanged] else [])
        // the list's SelectedItem notification, if any, comes before Color and the components
        && notifications == old(notifications)
             + (if colors.selected != old(colors.selected) then [SelectionChanged] else [])
             + [ColorChanged] + ComponentChanges(old(color), value)
    {
      setterCalls := setterCalls + 1;
      if !ColorComparer.Equals(color, value) {
        var oldColor := color;
        color := value;
        var namedColor := registry.FromColor(color);
        // avoid changing the selected item unnecessarily
        if namedColor == null || colors.selected.None? || !colors.selected.value.EqualsColor(Some(namedColor.color)) {
          var raised := colors.SetSelectedItem(AsOption(namedColor));
          if raised {
            notifications := notifications + [SelectionChanged];
            OnColorsPropertyChanged(SelectedItemChanged);
          }
        }
        ghost var moved := old(notifications) + (if colors.selected != old(colors.selected) then [SelectionChanged] else []);
        assert notifications == moved;
        notifications := notifications + [ColorChanged];
        NotifyColorComponentChanges(oldColor);
        assert notifications == moved + [ColorChanged] + ComponentChanges(oldColor, value);
      }
    }

    /**
     * The handler subscribed to the list's PropertyChanged. When the selection
     * changed to an item whose colour differs from the current one, it sets
     * Color to that item's colour; a null selection or an equal colour leaves
     * everything as it is.
     */
    method OnColorsPropertyChanged(e: ListNotification)
      requires Base()
      modifies this, colors
      decreases if e == SelectedItemChanged && colors.selected.Some? && colors.selected.value.color != color then 3 else 0
      ensures colors.items == old(colors.items)
      ensures e == SelectedItemChanged ==> Consistent()
      ensures !(e == SelectedItemChanged && old(colors.selected).Some? && old(colors.selected).value.color != old(color)) ==>
        && color == old(color)
        && colors.selected == old(colors.selected)
        && colors.notifications == old(colors.notifications)
        && notifications == old(notifications)
        && setterCalls == old(setterCalls)
      ensures e == SelectedItemChanged && old(colors.selected).Some? && old(colors.selected).value.color != old(color) ==>
        var item := old(colors.selected).value;
        && color == item.color
        && setterCalls == old(setterCalls) + 1
        && colors.selected == SyncedSelection(old(colors.selected), registry.FromColor(item.color))
        && colors.notifications == old(colors.notifications)
             + (if colors.selected != old(colors.selected) then [SelectedItemChanged] else [])
        && notifications == old(notifications)
             + (if colors.selected != old(colors.selected) then [SelectionChanged] else [])
             + [ColorChanged] + ComponentChanges(old(color), item.color)
    {
      if e == SelectedItemChanged {
        if colors.selected.None? {
        } else if !colors.selected.value.EqualsColor(Some(color)) {
          SetColor(colors.selected.value.color);
        }
      }
    }

    /** NotifyColorComponentChanges: compares each channel of the old colour with the current one. */
    method NotifyColorComponentChanges(oldColor: Color)
      modifies this`notifications
      ensures notifications == old(notifications) + ComponentChanges(oldColor, color)
    {
      if oldColor.red != color.red {
        notifications := notifications + [RedChanged];
      }
      ghost var raised := Change(oldColor.red != color.red, RedChanged);
      assert notifications == old(notifications) + raised;
      if oldColor.blue != color.blue {
        notifications := notifications + [BlueChanged];
      }
      raised := raised + Change(oldColor.blue != color.blue, BlueChanged);
      assert notifications == old(notifications) + raised;
      if oldColor.green != color.green {
        notifications := notifications + [GreenChanged];
      }
      raised := raised + Change(oldColor.green != color.green, GreenChanged);
      assert notifications == old(notifications) + raised;
      if oldColor.alpha != color.alpha {
        notifications := notifications + [AlphaChanged];
      }
      raised := raised + Change(oldColor.alpha != color.alpha, AlphaChanged);
      assert notifications == old(notifications) + raised;
    }

    /**
     * Colors.SelectedItem assigned from outside, as the named-colour list
     * does: the list notifies when the reference changes and the handler then
     * moves the colour to the item's colour. The Color setter runs at most once.
     */
    method SelectItem(item: Option<NamedColor>)
      requires Valid()
      modifies this, colors
      ensures Valid()
      ensures colors.items == old(colors.items)
      ensures setterCalls <= old(setterCalls) + 1
      ensures item == old(colors.selected) ==>
        && color == old(color) && colors.selected == old(colors.selected)
        && notifications == old(notifications) && colors.notifications == old(colors.notifications)
      ensures item != old(colors.selected) ==>
        && |colors.notifications| > |old(colors.notifications)|
        && colors.notifications[|old(colors.notifications)|] == SelectedItemChanged
      ensures item.None? ==>
        && color == old(color) && colors.selected == None
        && notifications == old(notifications) + (if item != old(colors.selected) then [SelectionChanged] else [])
      ensures item.Some? && item.value.color == old(color) ==>
        && color == old(color) && colors.selected == item
        && notifications == old(notifications) + (if item != old(colors.selected) then [SelectionChanged] else [])
      ensures item.Some? && item.value.color != old(color) ==>
        && color == item.value.color
        && setterCalls == old(setterCalls) + 1
        // an item whose colour has no registry entry moves the selection once more, to null
        && notifications == old(notifications) + [SelectionChanged]
             + (if colors.selected != item then [SelectionChanged] else [])
             + [ColorChanged] + ComponentChanges(old(color), item.value.color)
      ensures item.Some? && item.value in registry.entries ==> colors.selected == item
      ensures item.Some? && item.value.color != old(color) ==>
        colors.selected == SyncedSelection(item, registry.FromColor(item.value.color))
    {
      var raised := colors.SetSelectedItem(item);
      if raised {
        notifications := notifications + [SelectionChanged];
        OnColorsPropertyChanged(SelectedItemChanged);
      }
      if item.Some? && item.value in registry.entries && item.value.color != old(color) {
        registry.EntryColorIsNamed(item.value);
      }
    }

    /** The Red setter: a no-op when value/255 equals the red channel; otherwise only red changes. */
    method SetRed(value: Byte)
      requires Valid()
      modifies this, colors
      ensures Valid() && Red() == value && colors.items == old(colors.items)
      ensures ToFloat(value) == old(color.red) ==>
        color == old(color) && notifications == old(notifications) && colors.selected == old(colors.selected)
        && setterCalls == old(setterCalls)
      ensures ToFloat(value) != old(color.red) ==>
        && color == old(color).(red := ToFloat(value))
        && notifications == old(notifications)
             + (if colors.selected != old(colors.selected) then [SelectionChanged] else []) + [ColorChanged, RedChanged]
        && colors.selected == SyncedSelection(old(colors.selected), registry.FromColor(color))
        && setterCalls == old(setterCalls) + 1
    {
      var red := ToFloat(value);
      if red != color.red {
        SetColor(Color(red, color.green, color.blue, color.alpha));
      }
    }

    /** The Green setter: a no-op when value/255 equals the green channel; otherwise only green changes. */
    method SetGreen(value: Byte)
      requires Valid()
      modifies this, colors
      ensures Valid() && Green() == value && colors.items == old(colors.items)
      ensures ToFloat(value) == old(color.green) ==>
        color == old(color) && notifications == old(notifications) && colors.selected == old(colors.selected)
        && setterCalls == old(setterCalls)
      ensures ToFloat(value) != old(color.green) ==>
        && color == old(color).(green := ToFloat(value))
        && notifications == old(notifications)
             + (if colors.selected != old(colors.selected) then [SelectionChanged] else []) + [ColorChanged, GreenChanged]
        && colors.selected == SyncedSelection(old(colors.selected), registry.FromColor(color))
        && setterCalls == old(setterCalls) + 1
    {
      var green := ToFloat(value);
      if green != color.green {
        SetColor(Color(color.red, green, color.blue, color.alpha));
      }
    }

    /** The Blue setter: a no-op when value/255 equals the blue channel; otherwise only blue changes. */
    method SetBlue(value: Byte)
      requires Valid()
      modifies this, colors
      ensures Valid() && Blue() == value && colors.items == old(colors.items)
      ensures ToFloat(value) == old(color.blue) ==>
        color == old(color) && notifications == old(notifications) && colors.selected == old(colors.selected)
        && setterCalls == old(setterCalls)
      ensures ToFloat(value) != old(color.blue) ==>
        && color == old(color).(blue := ToFloat(value))
        && notifications == old(notifications)
             + (if colors.selected != old(colors.selected) then [SelectionChanged] else []) + [ColorChanged, BlueChanged]
        && colors.selected == SyncedSelection(old(colors.selected), registry.FromColor(color))
        && setterCalls == old(setterCalls) + 1
    {
      var blue := ToFloat(value);
      if blue != color.blue {
        SetColor(Color(color.red, color.green, blue, color.alpha));
      }
    }

    /** The Alpha setter: a no-op when value/255 equals the alpha channel; otherwise only alpha changes. */
    method SetAlpha(value: Byte)
      requires Valid()
      modifies this, colors
      ensures Valid() && Alpha() == value && colors.items == old(colors.items)
      ensures ToFloat(value) == old(color.alpha) ==>
        color == old(color) && notifications == old(notifications) && colors.selected == old(colors.selected)
        && setterCalls == old(setterCalls)
      ensures ToFloat(value) != old(color.alpha) ==>
        && color == old(color).(alpha := ToFloat(value))
        && notifications == old(notifications)
             + (if colors.selected != old(colors.selected) then [SelectionChanged] else []) + [ColorChanged, PropertyChanged("Blue")]
        && colors.selected == SyncedSelection(old(colors.selected), registry.FromColor(color))
        && setterCalls == old(setterCalls) + 1
    {
      var alpha := ToFloat(value);
      if alpha != color.alpha {
        SetColor(Color(color.red, color.green, color.blue, alpha));
      }
    }
  }
}
