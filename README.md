# ColorSelector model layer in Dafny

This project models the model layer of the ColorSelector sample, a .NET MAUI colour picker, and proves properties of it.

- **Colour view model.** The view model holds one current colour. It has byte accessors for each channel, and a list of named colours whose selection follows the colour. Changing the colour and changing the selection update each other without getting into a loop. The view model keeps one ordered record of the notifications its subscribers see. The record holds its own `PropertyChanged` notifications, and also the list's SelectedItem notification at the point the list raises it.
- **Selection list.** A list with a selected-item pointer. It notifies only when the reference changes. It also sorts in place and raises a single Reset notification.
- **Named-colour registry.** Built once from a catalog of (name, colour) pairs. It has a by-name index, and a by-colour index where the first registered alias wins (Aqua before Cyan). Its `All` list is sorted by the null-aware name comparer.
- **Exact colour equality**, and the **null-aware name comparer**.
- **HSB↔RGB conversion** in the hexcone model, over real numbers:
  - bounds in both directions;
  - the round trip `ToColor(FromColor(c)) == c`.
- **Colour-wheel rasteriser:**
  - the integer diameter clamp, with its overflow bound;
  - the row-major pixel fill over an `array`, driven by a `row` accumulator;
  - the circular mask;
  - the regeneration test in the paint handler;
  - the guard in colour picking.
- **Saturating byte stepper** of the colour slider.

Modules:

| Module | Contents |
|---|---|
| `Graphics` | The library colour: four channels in [0, 1]. Also clamping, `FromRgba`, and the truncating byte cast. |
| `ColorComparer` | Exact equality of colours. |
| `Sorting` | `List<T>.Sort` with a comparer. Modelled as an insertion sort that yields a sorted permutation. |
| `NamedColors` | The `NamedColor` class and its three `Equals` overloads. |
| `NamedColorComparer` | The comparer. |
| `NamedColorRegistry` | The static part of `NamedColor`. Its constructor is the registration loop. |
| `Selection` | `SelectionList<T>`. |
| `ViewModel` | `ColorViewModel`. |
| `ColorSpace` | `HSBColor`. |
| `Wheel` | `ColorWheel`. |
| `Slider` | `ColorSlider`. |

Some behaviours are modelled exactly as the code does them:

- **The byte getter truncates.** It takes `floor(channel * 255)` and does not round (`Graphics.ToByte`).
- **Component notifications compare channels.** They fire when the float channels differ, not the byte values, in the order red, blue, green, alpha.
- **The alpha notification is misnamed.** It carries the property name "Blue", so a change of alpha alone is reported as a change of Blue (`ViewModel.AlphaChangeIsReportedAsBlue`).
- **The regeneration test compares the wrong dimension.** It checks the bitmap's height against the canvas *width*. As a result, a change of canvas height alone never regenerates the wheel (`Wheel.RegenerationIgnoresHeight`, `Wheel.HeightChangeNotDetected`).

Event dispatch is synchronous:

- `Selection.SelectionList.SetSelectedItem` returns whether it raised its notification. When it did, the view model records the notification and then runs its own handler.
- The setter and the handler call each other. That re-entry terminates because each contract has a `decreases` clause over the state.
- A ghost counter of setter entries shows the setter runs at most once per outside change.

## Model

| member | source | states |
|---|---|---|
| Graphics.Clamp | Model/HSBColor.cs:200 | The library colour's clamp: values in [0, 1] pass through, anything below becomes 0, anything above becomes 1. |
| Graphics.FromRgba | Model/HSBColor.cs:200 | The floating-point factory: each argument in [0, 1] becomes that channel unchanged. Other arguments are clamped by `Clamp`. |
| Graphics.FromBytes | Controls/ColorWheel.cs:103 | Each byte channel becomes the channel whose value times 255 is that byte. |
| Graphics.ToByte | Model/ColorViewModel.cs:73 | The `(byte)(channel * 255)` cast is the floor: `b <= channel*255 < b+1`. |
| Graphics.ToByteOfScaledByte | Model/ColorViewModel.cs:170-173 | Scaling a byte by 1/255 and casting it back gives the same byte. |
| ColorComparer.Equals | Model/ColorComparer.cs:30-33 | True exactly when all four channels are equal, i.e. value equality of colours. |
| ColorComparer.EqualsReflexive | Model/ColorComparer.cs:32 | Every colour equals itself. |
| ColorComparer.EqualsSymmetric | Model/ColorComparer.cs:32 | Equality does not depend on argument order. |
| ColorComparer.EqualsTransitive | Model/ColorComparer.cs:32 | Equality is transitive. |
| ColorComparer.NoTolerance | Model/ColorComparer.cs:8-13 | Colours that differ in any single channel, however slightly, are not equal. |
| Sorting.InsertionSortSorted | Model/NamedColor.cs:37-38 | On elements where the comparer is total and transitive, the sort's result is ordered by the comparer. |
| Sorting.Sort | Model/SelectionList.cs:31 | The result is a permutation of the input that is ordered by the comparer. |
| NamedColors.OrdinalCompare | Model/NamedColor.cs:112 | The ordinal string comparison returns 0 exactly when the strings are equal. |
| NamedColors.NamedColor.constructor | Model/NamedColor.cs:77-81 | Stores the name and the colour. |
| NamedColors.NamedColor.EqualsNamed | Model/NamedColor.cs:108-115 | False for null; otherwise true exactly when the colours are equal and the names are ordinal-equal. |
| NamedColors.NamedColor.EqualsColor | Model/NamedColor.cs:124-131 | False for null; otherwise exact colour equality. |
| NamedColors.NamedColor.EqualsObject | Model/NamedColor.cs:144-155 | A NamedColor argument compares name and colour; a Color argument compares the colour only; anything else is false. |
| NamedColors.EqualsNamedImpliesEqualsColor | Model/NamedColor.cs:108-131 | Two named colours that are equal as named colours also have equal colours. |
| NamedColorComparer.Compare | Model/NamedColorComparer.cs:43-63 | Both null gives 0. Only x null gives -1. Only y null gives 1. Otherwise the result of the name order. |
| NamedColorComparer.CompareReflexive | Model/NamedColorComparer.cs:43-63 | Comparing an item with itself gives 0 when the name order is reflexive. |
| NamedColorComparer.CompareAntisymmetric | Model/NamedColorComparer.cs:43-63 | Swapping the arguments flips the sign whenever the name order does. |
| NamedColorComparer.NullIsLeast | Model/NamedColorComparer.cs:50-57 | Null precedes every item. |
| NamedColorComparer.CompareIsTotalPreorder | Model/NamedColorComparer.cs:43-63 | Null included, the comparer is total and transitive when the name order is. |
| NamedColorComparer.ByNameIsComparer | Model/NamedColor.cs:37-38 | The comparer passed to the list sort meets the sort's total-and-transitive requirement on any list of named colours. |
| NamedColorRegistry.FirstIndex | Model/NamedColor.cs:29-33 | The first position of a key. Every earlier position holds a different key. The result is the length when the key is absent. |
| NamedColorRegistry.IndexesFirstStep | Model/NamedColor.cs:28-33 | One registration step keeps the invariant: each key maps to the entry created for its first occurrence. |
| NamedColorRegistry.Registry.constructor | Model/NamedColor.cs:15-39 | Requires distinct names. One entry is built per catalog pair. By name, every entry is registered; by colour, the first entry with that colour is registered. `All` is a permutation of the entries sorted by the comparer. |
| NamedColorRegistry.Registry.FromName | Model/NamedColor.cs:67-71 | Null exactly when no catalog entry has the name; otherwise the entry registered under it. |
| NamedColorRegistry.Registry.FromColor | Model/NamedColor.cs:58-62 | Null exactly when no entry has the colour. Otherwise it is an entry with exactly that colour, and no earlier entry has that colour (later aliases never replace it). |
| NamedColorRegistry.Registry.AllHoldsEveryEntry | Model/NamedColor.cs:34-38 | An item is in `All` exactly when it is a registered entry, aliases included. |
| NamedColorRegistry.Registry.FromColorOfFromName | Model/NamedColor.cs:28-33 | Looking up the colour of a name's entry finds an entry with the same colour, registered no later than the name (possibly an earlier alias). |
| NamedColorRegistry.Registry.EntryColorIsNamed | Model/NamedColor.cs:29-33 | Every registered entry's colour is found by `FromColor`. |
| Selection.SelectionList.constructor | Model/SelectionList.cs:20-23 | The items are the input values in order. Count is their number, nothing is selected, and nothing has been notified. |
| Selection.SelectionList.Get | Model/SelectionList.cs:66-70 | The indexer's getter returns element i for an index in range; there is no element otherwise. |
| Selection.SelectionList.SetSelectedItem | Model/SelectionList.cs:40-51 | Notifies exactly when the reference differs, and then exactly once. The selection becomes the value. The items never change. |
| Selection.SelectionList.SetItem | Model/SelectionList.cs:66-70 | The indexer's setter replaces only element i. Nothing is raised and the selection is kept. |
| Selection.SelectionList.Sort | Model/SelectionList.cs:29-33 | The items become a permutation of the old items, ordered by the comparer. One Reset notification is appended. The selection is unchanged. |
| ViewModel.ToFloat | Model/ColorViewModel.cs:170-173 | The channel is byte/255, and the byte getter reads it back as the same byte. |
| ViewModel.ComponentChanges | Model/ColorViewModel.cs:150-168 | One notification per changed channel, in the order red, blue, green, alpha: each changed channel's notification sits at the index equal to the number of changed channels before it. Only Red, Green and Blue names occur, since alpha is reported as Blue. Red and Green are each present iff their channel differs; Blue is present iff blue or alpha differs. The result is empty iff the colours are equal. |
| ViewModel.AllComponentsChanged | Model/ColorViewModel.cs:152-167 | With all four channels changed, the notifications are exactly Red, Blue, Green, then "Blue" for alpha. |
| ViewModel.AlphaChangeIsReportedAsBlue | Model/ColorViewModel.cs:203 | A change of alpha alone produces exactly one notification, named "Blue". |
| ViewModel.SyncedSelection | Model/ColorViewModel.cs:49-61 | The new selection is null iff the registry has no entry for the colour. Otherwise it has that colour: a current selection of that colour (an alias) is kept, else the registry's entry is taken. |
| ViewModel.ColorViewModel.constructor | Model/ColorViewModel.cs:16-20 | The colour is black. The list holds every registered colour, in `All` order, with nothing selected and nothing notified. |
| ViewModel.ColorViewModel.SetColor | Model/ColorViewModel.cs:40-66 | An equal colour changes nothing and notifies nothing. Otherwise the colour is stored and the selection synchronised. In the record, the list's SelectedItem notification comes first, present exactly when the selection moved; then Color; then the changed components. The setter is entered once only. |
| ViewModel.ColorViewModel.OnColorsPropertyChanged | Model/ColorViewModel.cs:136-148 | A selection change to an item of a different colour sets the colour to that item's colour, through one setter call. Its record is then as for the setter: a further SelectedItem notification if the selection moved again, then Color and the components. A null selection, an equal colour or another event changes nothing. |
| ViewModel.ColorViewModel.NotifyColorComponentChanges | Model/ColorViewModel.cs:150-168 | Appends exactly `ComponentChanges(old colour, current colour)`. |
| ViewModel.ColorViewModel.SelectItem | Model/ColorViewModel.cs:136-148 | Selecting from outside: the same reference changes nothing. A new reference records the list's SelectedItem notification first. A null selection, or an item of the current colour, keeps the colour and records nothing else. An item of another colour becomes the colour through one setter call, which records Color and the components. The final selection is `SyncedSelection` of the item and the registry's entry for its colour. An item whose colour has no registry entry therefore moves the selection to null, which records a second SelectedItem notification before Color. An item of a registered colour, and every registry entry, stays selected. |
| ViewModel.ColorViewModel.SetRed | Model/ColorViewModel.cs:71-82 | A no-op when value/255 equals red. Otherwise only red changes, to value/255, through the Color setter. The record gains an optional SelectedItem notification, then Color, then Red. Afterwards the getter returns the value and the selection is consistent. |
| ViewModel.ColorViewModel.SetGreen | Model/ColorViewModel.cs:87-98 | The same for green. |
| ViewModel.ColorViewModel.SetBlue | Model/ColorViewModel.cs:103-114 | The same for blue. |
| ViewModel.ColorViewModel.SetAlpha | Model/ColorViewModel.cs:119-130 | The same for alpha; its last notification is named "Blue". |
| ColorSpace.Min | Model/HSBColor.cs:126-138 | The result is one of the three arguments and no larger than any of them. |
| ColorSpace.Max | Model/HSBColor.cs:140-152 | The result is one of the three arguments and no smaller than any of them. |
| ColorSpace.FMod | Model/HSBColor.cs:32 | C#'s `%` on doubles, which truncates: in [0, m) for a non-negative dividend and in (-m, 0] for a negative one. |
| ColorSpace.FModShift | Model/HSBColor.cs:32 | For x in [k·m, (k+1)·m), `x % m` is `x − k·m`. |
| ColorSpace.SextantsBound | Model/HSBColor.cs:26-41 | For channels in [0, 1], the raw hue before scaling lies in [0, 6). |
| ColorSpace.SaturationProperties | Model/HSBColor.cs:24 | Saturation lies in [0, 1], times brightness gives the chroma, and is 0 exactly when the chroma is 0. |
| ColorSpace.FromColor | Model/HSBColor.cs:14-56 | Hue in [0, 360). Brightness is the maximum channel. Saturation is chroma/brightness, or 0 for a gray. Alpha is copied. |
| ColorSpace.FromColorProperties | Model/HSBColor.cs:21-46 | Saturation and brightness lie in [0, 1]. A gray (equal channels) has hue 0 and saturation 0. |
| ColorSpace.Sextant | Model/HSBColor.cs:166-195 | Exactly one branch k ≤ 5 is taken. For k < 5, hue/60 lies in [k, k+1), and values of 5 or more fall to the last branch. |
| ColorSpace.SecondWeight | Model/HSBColor.cs:162 | For a non-negative hue/60, `1 − |hue/60 % 2 − 1|` lies in [0, 1]. |
| ColorSpace.HexconeBounds | Model/HSBColor.cs:165-195 | Each branch gives channels in [0, chroma], and the largest of them is chroma. |
| ColorSpace.ChromaBounds | Model/HSBColor.cs:160 | Brightness times saturation lies in [0, brightness]. |
| ColorSpace.OffsetHexconeBounds | Model/HSBColor.cs:197-199 | Adding m shifts the branch's channels into [m, m + chroma], and their maximum to m + chroma. |
| ColorSpace.HextripleBounds | Model/HSBColor.cs:160-199 | Every channel lies between the offset and offset + chroma, and the largest is offset + chroma. |
| ColorSpace.UnclampedBounds | Model/HSBColor.cs:160-199 | Before clamping, every channel lies in [B − B·S, B] ⊆ [0, 1], and the maximum channel is B. |
| ColorSpace.ToColor | Model/HSBColor.cs:158-201 | A zero saturation gives the gray of the brightness, whatever the hue. Alpha in [0, 1] is copied. Its bounds are in `ToColorBounds`, and `RoundTrip` is its partner. |
| ColorSpace.ToColorBounds | Model/HSBColor.cs:158-201 | For S and B in [0, 1] and a non-negative hue: every output channel lies in [B − B·S, B], the largest equals B, the clamp leaves them as computed, and alpha is copied. |
| ColorSpace.GrayRoundTrip | Model/HSBColor.cs:26-29 | A gray maps back to itself. |
| ColorSpace.RedRoundTrip | Model/HSBColor.cs:30-33 | When red is the maximum, the branch chosen by the hue rebuilds the three channels. |
| ColorSpace.GreenRoundTrip | Model/HSBColor.cs:34-37 | The same when green is the maximum. |
| ColorSpace.BlueRoundTrip | Model/HSBColor.cs:38-41 | The same when blue is the maximum. |
| ColorSpace.RedRising | Model/HSBColor.cs:166-170 | The first sextant rebuilds (red, green, blue) from red-maximum channels with green ≥ blue. |
| ColorSpace.RedFalling | Model/HSBColor.cs:191-195 | The last sextant rebuilds red-maximum channels with blue > green, after the negative hue is wrapped by 6. |
| ColorSpace.GreenRising | Model/HSBColor.cs:176-180 | The third sextant rebuilds green-maximum channels with blue ≥ red. |
| ColorSpace.GreenFalling | Model/HSBColor.cs:171-175 | The second sextant rebuilds green-maximum channels with red > blue. |
| ColorSpace.BlueRising | Model/HSBColor.cs:186-190 | The fifth sextant rebuilds blue-maximum channels with red ≥ green. |
| ColorSpace.BlueFalling | Model/HSBColor.cs:181-185 | The fourth sextant rebuilds blue-maximum channels with green > red. |
| ColorSpace.SecondWeightRising | Model/HSBColor.cs:162 | On a rising half-sextant the weight is hue/60 minus the sextant start. |
| ColorSpace.SecondWeightFalling | Model/HSBColor.cs:162 | On a falling half-sextant the weight is the sextant end minus hue/60. |
| ColorSpace.SextantsRoundTrip | Model/HSBColor.cs:26-41 | The hexcone triple of the raw hue, chroma and minimum channel is the original (red, green, blue). |
| ColorSpace.FromColorHue | Model/HSBColor.cs:42-46 | The stored hue divided by 60 is the raw hue, after the wrap of negative values. |
| ColorSpace.FromColorChroma | Model/HSBColor.cs:160 | The chroma recomputed from brightness and saturation is the original max − min. |
| ColorSpace.FromColorUnclamped | Model/HSBColor.cs:158-199 | Converting the HSB form back, before clamping, gives the original red, green and blue. |
| ColorSpace.RoundTrip | Model/HSBColor.cs:158-201 | Converting to HSB and back reproduces the colour exactly (red, green, blue and alpha). |
| Wheel.RoundedSqrtInt32MaxIsNearest | Controls/ColorWheel.cs:22 | 46341 is the integer nearest the square root of Int32.MaxValue, which is what `Convert.ToInt32(Math.Sqrt(...))` yields. |
| Wheel.MaxDiameterFits | Controls/ColorWheel.cs:22 | `MaxDiameter` is 11581, and its square is less than Int32.MaxValue, so `diameter * diameter` cannot overflow. |
| Wheel.Bitmap.GetPixel | Controls/ColorWheel.cs:102 | There is a pixel exactly when the point is inside the bitmap, and it is the row-major entry `y*width + x`. |
| Wheel.Truncate | Controls/ColorWheel.cs:111-112 | The `(int)` cast truncates toward zero. |
| Wheel.Diameter | Controls/ColorWheel.cs:115-119 | The diameter is at most the width, at most the height and at most `MaxDiameter`, and equals one of them. It is never rejected. |
| Wheel.Rows | Controls/ColorWheel.cs:125-152 | The first n rows of the image hold n × diameter pixels. |
| Wheel.RowsAt | Controls/ColorWheel.cs:125-152 | The pixel at row y and column x of the row-major image is at index y·d + x, in range, and is the wheel pixel for (x, y). |
| Wheel.WheelImageAt | Controls/ColorWheel.cs:148 | Every index `row + x` written lies in [0, d²), and holds the wheel pixel for (x, y). |
| Wheel.PaintRow | Controls/ColorWheel.cs:128-150 | The inner loop. Given that the buffer holds the first y rows and is otherwise untouched, afterwards it holds the first y+1 rows and the rest is still untouched. |
| Wheel.CreateImage | Controls/ColorWheel.cs:109-156 | The image rectangle is the whole canvas (0, 0, width, height), not the square. The bitmap is d × d, with d the clamped diameter and d² < Int32.MaxValue. Its pixels are exactly the row-major wheel image. |
| Wheel.WheelHueRange | Controls/ColorWheel.cs:138-145 | For an angle in (−π, π], the hue lies in [0, 360). |
| Wheel.InDiskPixel | Controls/ColorWheel.cs:136-148 | An in-disk pixel comes from an HSB colour with saturation in [0, 1), hue in [0, 360) and brightness 1. It is opaque and some channel is 255. |
| Wheel.OutsideDiskTransparent | Controls/ColorWheel.cs:130-135 | Pixels at distance/radius ≥ 1, the boundary included, keep the default transparent value. |
| Wheel.CenterIsWhite | Controls/ColorWheel.cs:130-148 | The centre pixel has saturation 0 and is opaque white. |
| Wheel.RegenerationIgnoresHeight | Controls/ColorWheel.cs:79-86 | As written, the regeneration test gives the same answer for every canvas height. |
| Wheel.HeightChangeNotDetected | Controls/ColorWheel.cs:85 | A 300×300 wheel is kept for a 300×200 canvas, although a regenerated wheel would have diameter 200. |
| Wheel.ColorWheel.constructor | Controls/ColorWheel.cs:23-55 | No bitmap, an empty image rectangle, and the default colour white; `Valid` holds. |
| Wheel.ColorWheel.OnPaintSurface | Controls/ColorWheel.cs:74-92 | Requires a canvas of at least 2 × 2 only when the bitmap is regenerated. Regenerates exactly when there is no bitmap, or its width or height differs from the canvas width: the bitmap and rectangle become those `CreateImage` gives. Otherwise nothing changes. The colour is never touched, and `Valid` (a bitmap holds width × height pixels) is kept. |
| Wheel.ColorWheel.PickColor | Controls/ColorWheel.cs:96-105 | Sets the colour to the picked pixel only when a bitmap exists and the truncated point lies in the image rectangle (and within the bitmap). Otherwise the colour is unchanged. |
| Slider.Decrement | Controls/ColorSlider.xaml.cs:60-67 | A value above 0 steps down by one; 0 stays 0. |
| Slider.Increment | Controls/ColorSlider.xaml.cs:69-76 | A value below 255 steps up by one; 255 stays 255. |
| Slider.StepIsSaturating | Controls/ColorSlider.xaml.cs:60-76 | Both steps stay in [0, 255] and change the value by at most 1. |
| Slider.StepsAreInverse | Controls/ColorSlider.xaml.cs:60-76 | Away from the end stops, an increment undoes a decrement, and the reverse. |
| Slider.ColorSlider.OnDecrementTapped | Controls/ColorSlider.xaml.cs:60-67 | The value becomes `Decrement` of the old value. |
| Slider.ColorSlider.OnIncrementTapped | Controls/ColorSlider.xaml.cs:69-76 | The value becomes `Increment` of the old value. |

## Left out

- **Floating point.** Channels, hue, saturation and brightness are reals, so float rounding is not modelled:
  - of `value / 255f`;
  - of the `(float)` casts in `ToColor`;
  - of the doubles in the HSB constructor.
  The round trip and the byte read-back hold over the reals only.
- The `NaN` branch of the HSB constructor (Model/HSBColor.cs:47-50) is not modelled: over the reals the hue is never NaN.
- **Foreign math.** `Math.Sqrt` and `Math.Atan2` are function parameters of the wheel, and the lemmas constrain them only as far as they state. `Math.Pow(radius - x, 2)` is modelled as exact squaring.
- The `Colors` enumeration by reflection (Model/NamedColor.cs:18-27) is replaced by a catalog parameter, a sequence of (name, colour) pairs.
- `NamedColorRegistry.Registry.constructor`: duplicate names make `Dictionary.Add` throw. This is a precondition rather than a modelled exception.
- `Sorting.Sort`: `List<T>.Sort` is unstable. The model promises only a sorted permutation, so the order of entries with equal names is not fixed. It is computed by an insertion sort rather than the runtime's introsort.
- The culture-sensitive string order used for names is a function parameter, assumed total and transitive.
- Hash codes (Model/NamedColor.cs:161-164, Model/ColorComparer.cs:40-43) are not modelled: they delegate to library hashes.
- Null `Color` arguments are not modelled, because `Color` is a value in the model. The exception is `NamedColors.NamedColor.EqualsColor`, the `Equals(Color)` overload, where `None` stands for null. The registry's and the list's null references are modelled with `NamedColor?` and `Option`.
- Thread safety of the static constructor is not modelled: it is a runtime guarantee.
- **Event plumbing.** Bindable-property declarations, `PropertyChanged` subscription, the XAML bindings and `MainPage` are not modelled. The list notifies the view model's handler synchronously.
- **Controls and drawing.** `Label`, `TextUtilities` and touch handling are not modelled, nor is SkiaSharp drawing and disposal.
- `Wheel.CreateImage`: the diameter must be 2 or more. A diameter of 0 runs no loop and asks SkiaSharp for a 0 × 0 bitmap. A diameter of 1 divides 0.0 by a zero radius, which gives a NaN saturation and a NaN pixel. Neither case is modelled, because `WheelSaturation` needs a positive radius. `Wheel.ColorWheel.OnPaintSurface` requires this only when it regenerates the bitmap.
- `Wheel.CreateImage`: the `(int)` cast of a canvas size beyond the Int32 range is not modelled.
- `Wheel.PaintRow`: the inner `for` loop of `CreateImage` is a separate method, with the same writes and the same `row` accumulator.
- `Wheel.Bitmap.GetPixel`: for a point inside the image rectangle but outside the diameter square, SkiaSharp's behaviour is outside this model. The model returns no pixel there, and `PickColor` then leaves the colour unchanged.
- `ColorSpace.Sextants` models the hue if-chain at Model/HSBColor.cs:26-41. It has no contract of its own. Its properties are in `SextantsBound`, `SextantsRoundTrip` and `FromColorHue`.
- `Wheel.NeedsRegeneration` models the repaint test at Controls/ColorWheel.cs:79-86. It has no contract of its own. Its properties are in `RegenerationIgnoresHeight`, `HeightChangeNotDetected` and `ColorWheel.OnPaintSurface`.
- `Wheel.WheelPixel` models the body of the pixel loop at Controls/ColorWheel.cs:130-148. It has no contract of its own. Its properties are in `InDiskPixel`, `OutsideDiskTransparent`, `CenterIsWhite` and `WheelImageAt`.
- `Wheel.ToSkColor` has no contract of its own. It truncates each clamped channel times 255 to a byte, and the wheel's alpha argument of 255 is clamped to 1.
- `ViewModel.ColorViewModel.Red`, `Green`, `Blue` and `Alpha` are the byte getters. Their property is stated through `Graphics.ToByte` and the setters' `ensures`.
- `Selection.SelectionList.Count` is a plain accessor. `Get` is stated through it. The `SelectedItem` getter is the field `selected`, which the contracts read directly.
