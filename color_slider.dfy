/** The byte slider's tap handlers (Controls/ColorSlider.xaml.cs): a step of one that saturates at 0 and 255. */
module Slider {
  import opened Graphics

  /** The value after a tap on the decrement button. */
  function Decrement(value: Byte): (r: Byte)
    ensures value > 0 ==> r == value - 1
    ensures value == 0 ==> r == 0
  {
    if value > 0 then value - 1 else value
  }

  /** The value after a tap on the increment button. */
  function Increment(value: Byte): (r: Byte)
    ensures value < 255 ==> r == value + 1
    ensures value == 255 ==> r == 255
  {
    if value < 255 then value + 1 else value
  }

  /** A tap moves the value by at most one and leaves it in place exactly at its bound. */
  lemma StepIsSaturating(value: Byte)
    ensures value - 1 <= Decrement(value) <= value
    ensures value <= Increment(value) <= value + 1
    ensures Decrement(value) == value <==> value == 0
    ensures Increment(value) == value <==> value == 255
  {
  }

  /** Increment undoes Decrement away from 0, and Decrement undoes Increment away from 255. */
  lemma StepsAreInverse(value: Byte)
    ensures value > 0 ==> Increment(Decrement(value)) == value
    ensures value < 255 ==> Decrement(Increment(value)) == value
  {
  }

  /** The slider control's Value property. */
  class ColorSlider {
    var value: Byte

    constructor(value: Byte)
      ensures this.value == value
    {
      this.value := value;
    }

    /** OnDecrementTapped. */
    method OnDecrementTapped()
      modifies this
      ensures value == Decrement(old(value))
    {
      var v := value;
      if v > 0 {
        v := v - 1;
        value := v;
      }
    }

    /** OnIncrementTapped. */
    method OnIncrementTapped()
      modifies this
      ensures value == Increment(old(value))
    {
      var v := value;
      if v < 255 {
        v := v + 1;
        value := v;
      }
    }
  }
}
