/** `toDropdown(arr)` */
module Dropdown {
  /** The argument: an array of items, or anything else. */
  datatype Input<T> = ArrayInput(items: seq<T>) | NotAnArray

  /** `{ label, value }`; the field `label` is called `caption` here because `label` is a Dafny keyword. */
  datatype DropdownItem<T> = DropdownItem(caption: T, value: T)

  function ToDropdown<T>(arr: Input<T>): (r: seq<DropdownItem<T>>)
    ensures arr.NotAnArray? ==> r == []
    ensures arr.ArrayInput? ==> |r| == |arr.items|
  {
    match arr
    case NotAnArray => []
    case ArrayInput(items) => seq(|items|, i requires 0 <= i < |items| => DropdownItem(items[i], items[i]))
  }

  function Labels<T>(options: seq<DropdownItem<T>>): seq<T>
  {
    if options == [] then [] else [options[0].caption] + Labels(options[1..])
  }

  function Values<T>(options: seq<DropdownItem<T>>): seq<T>
  {
    if options == [] then [] else [options[0].value] + Values(options[1..])
  }

  /** Each option's label and value are the item at its position. */
  lemma {:induction false} ToDropdownPointwise<T>(items: seq<T>, i: nat)
    requires i < |items|
    ensures ToDropdown(ArrayInput(items))[i] == DropdownItem(items[i], items[i])
  {
  }

  /** Reading back the labels, or the values, of the options gives the items. */
  lemma {:induction false} LabelsAndValues<T>(items: seq<T>)
    ensures Labels(ToDropdown(ArrayInput(items))) == items
    ensures Values(ToDropdown(ArrayInput(items))) == items
  {
    if items != [] {
      LabelsAndValues(items[1..]);
      assert ToDropdown(ArrayInput(items))[1..] == ToDropdown(ArrayInput(items[1..]));
    }
  }

  /** Mapping commutes with concatenating the arrays. */
  lemma {:induction false} ToDropdownAppend<T>(a: seq<T>, b: seq<T>)
    ensures ToDropdown(ArrayInput(a + b)) == ToDropdown(ArrayInput(a)) + ToDropdown(ArrayInput(b))
  {
  }
}
