/** A list with a selected-item pointer (Model/SelectionList.cs). */
module Selection {
  import opened Optional
  import Sorting

  /**
   * The two notifications a SelectionList raises: PropertyChanged for
   * SelectedItem, and CollectionChanged with a Reset action.
   */
  datatype ListNotification = SelectedItemChanged | CollectionReset

  /**
   * The list's items, its selected item (None is null) and the notifications
   * it has raised so far, in order. T is used with reference types, so `==`
   * on T is the source's ReferenceEquals.
   */
  class SelectionList<T(==)> {
    var items: seq<T>
    var selected: Option<T>
    var notifications: seq<ListNotification>

    /** Copies the values in order; nothing is selected. */
    constructor (values: seq<T>)
      ensures items == values && selected == None && notifications == []
      ensures Count() == |values|
    {
      items := values;
      selected := None;
      notifications := [];
    }

    function Count(): nat
      reads this
    {
      |items|
    }

    /** The indexer's getter; None stands for the out-of-range exception. */
    function Get(index: int): (r: Option<T>)
      reads this
      ensures r.Some? <==> 0 <= index < Count()
      ensures r.Some? ==> r.value == items[index]
    {
      if 0 <= index < |items| then Some(items[index]) else None
    }

    /**
     * The SelectedItem setter. It stores and notifies only when the new item
     * is a different reference; `raised` says whether it notified, so that
     * the caller can run the handlers subscribed to the notification.
     */
    method SetSelectedItem(value: Option<T>) returns (raised: bool)
      modifies this
      ensures raised <==> value != old(selected)
      ensures selected == value && items == old(items)
      ensures notifications == old(notifications) + (if raised then [SelectedItemChanged] else [])
    {
      raised := false;
      if selected != value {
        selected := value;
        notifications := notifications + [SelectedItemChanged];
        raised := true;
      }
    }

    /** The protected indexer setter: replaces one item, raising nothing; false for an index out of range. */
    method SetItem(index: int, value: T) returns (ok: bool)
      modifies this
      ensures ok <==> 0 <= index < old(Count())
      ensures items == if ok then old(items)[index := value] else old(items)
      ensures selected == old(selected) && notifications == old(notifications)
    {
      ok := 0 <= index < |items|;
      if ok {
        items := items[index := value];
      }
    }

    /**
     * Sorts the list in place with the comparer and raises one Reset
     * notification; the selected item is untouched.
     */
    method Sort(cmp: (T, T) -> int)
      requires Sorting.IsComparerOn(cmp, items)
      modifies this
      ensures multiset(items) == multiset(old(items))
      ensures Sorting.SortedBy(cmp, items)
      ensures selected == old(selected)
      ensures notifications == old(notifications) + [CollectionReset]
    {
      items := Sorting.Sort(items, cmp);
      notifications := notifications + [CollectionReset];
    }
  }
}
