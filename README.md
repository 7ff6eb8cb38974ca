# jQuery UI volume slider — a Dafny model

This project models the core of the jQuery volume slider widget, `js/jquery.ui-volume-slider.js`. The widget is a track with a thumb on it. A press or a drag on the track moves the thumb. Pointer positions become an option `value`, optionally rounded to an integer ("smooth: false"). The value lies in `[0, max - min]` when max > min and either smooth is on or max - min is an integer. Otherwise rounding can overshoot the range (`Conversion.SnapCanOvershoot`). An option value becomes a `left` (or, vertically, `top`) css percentage for the thumb. Every instance is kept in one list, and the `$.fn.UISlider` plugin function finds the owner element's instance in that list and creates, updates, destroys or queries it.

The model has six modules:

- `Wrappers` (`wrappers.dfy`) holds the `Option` type.
- `Conversion` (`conversion.dfy`) holds the arithmetic of `setThumbPosition` and `setOption`, as pure functions on reals:
  - clamping to the track;
  - the position→value formula and its inverse;
  - `Math.round`, `parseInt` and the drag step.
- `SliderOptions` (`options.dfy`) holds the option values:
  - the defaults;
  - `$.extend`, which skips `undefined`;
  - the order in which `for (key in options)` visits the names. The model uses insertion order (index-like names are listed under Left out).
- `Instance` (`instance.dfy`) holds one instance's whole state as a value:
  - the options;
  - the thumb's `left`/`top`;
  - the events it triggers;
  - the fields it keeps during a drag.

  Every prototype method is a step function on that value. The lemmas about the instance are here.
- `Widget` (`slider.dfy`) holds the class `Slider`. Its fields are the fields the source assigns and deletes. Each method is proved to take the object from `Snapshot()` to the matching `Instance` step.
- `Plugin` (`plugin.dfy`) holds the registry and `$.fn.UISlider`:
  - `Element` is one element's pass through `this.each`;
  - `Each`/`Select` cover the whole selection, with the `action` and `result` variables it shares;
  - the class `Registry` has a loop over the selection that is proved against `Select`.

Inputs from the browser are parameters:
- pointer coordinates;
- element offsets;
- track sizes;
- the computed pixel position of the thumb;
- which element was hit.

Events (`change`, `thumbmove`) are appended to a `trace` of the instance.

Three behaviours are modelled as the code has them:
- The plugin is registered as `$.fn.UISlider` (line 591), although the usage comment at the top of the file (line 8) shows `UIVolumeSlider`.
- The value is computed as a fraction of `max - min` and never has `min` added. `setOption` places the thumb at `value * 100 / (max - min)`, consistently with that.
- `getOption('value')` returns the value at the press for as long as a drag lasts, when that value is truthy. Reading the option through the plugin (`UISlider('value')`) gives the live value.

## Model

| member | source | states |
|---|---|---|
| Conversion.Clamp | js/jquery.ui-volume-slider.js:365 | the clamped position is on the track. It is the position itself when that is on the track, and the nearer end otherwise |
| Conversion.Round | js/jquery.ui-volume-slider.js:389 | `Math.round` gives the integer within half a unit, with halves rounded up |
| Conversion.ParseInt | js/jquery.ui-volume-slider.js:482-491 | `parseInt` of a pixel length truncates toward zero and keeps the sign |
| Conversion.RawValue | js/jquery.ui-volume-slider.js:370-381 | no contract of its own: the fraction of the track times max - min, inverted when vertical. Its range is stated by Conversion.SmoothPlacement and Conversion.EndValues, its inverse by Conversion.ValueRoundTrip |
| Conversion.PositionFor | js/jquery.ui-volume-slider.js:391-403 | no contract of its own: the pixel position of a value, the inverse of RawValue, as stated by Conversion.ValueRoundTrip and Conversion.PositionRoundTrip |
| Conversion.PercentFor | js/jquery.ui-volume-slider.js:191-204 | no contract of its own: setOption's percentage, value·100/(max - min), inverted when vertical. Its range is stated by Conversion.PercentInRange |
| Conversion.Place | js/jquery.ui-volume-slider.js:363-404 | no contract of its own: what setThumbPosition computes. Stated by Conversion.SmoothPlacement, Conversion.SnappedPlacement, Conversion.PlaceOnlySeesClamped and Conversion.PlaceMatchesPercent |
| Conversion.DragPosition | js/jquery.ui-volume-slider.js:518-535 | a move gives a position exactly when the pointer is at or past the captured track start. That position is the pointer minus the captured delta, capped at the captured track length, and on the track |
| Conversion.PlaceOnlySeesClamped | js/jquery.ui-volume-slider.js:365-404 | setThumbPosition depends on the position only through its clamped value |
| Conversion.SmoothPlacement | js/jquery.ui-volume-slider.js:370-381 | with smooth on, the value lies in [0, max-min] and the css percentage is 100·clamped/length, within [0, 100] |
| Conversion.SnappedPlacement | js/jquery.ui-volume-slider.js:387-404 | with smooth off, the value is an integer within 0.5 of the raw value. When max-min is an integer, it stays in [0, max-min] and the percentage in [0, 100] |
| Conversion.PercentInRange | js/jquery.ui-volume-slider.js:191-204 | setOption's percentage of a value in [0, max-min] lies in [0, 100] |
| Conversion.SmoothMatchesPercent | js/jquery.ui-volume-slider.js:370-381 | the percentage drawn for a smooth position equals setOption's percentage for the value computed from it |
| Conversion.SnappedMatchesPercent | js/jquery.ui-volume-slider.js:391-403 | the position recomputed from a snapped value, drawn as a percentage, equals setOption's percentage for that value |
| Conversion.PlaceMatchesPercent | js/jquery.ui-volume-slider.js:363-422 | setThumbPosition and setOption agree: the thumb is drawn where setOption would put it for the new value |
| Conversion.ValueRoundTrip | js/jquery.ui-volume-slider.js:370-403 | value → position → value is the identity for every value in [0, max-min] |
| Conversion.PositionRoundTrip | js/jquery.ui-volume-slider.js:370-403 | position → value → position gives back the clamped position |
| Conversion.SnapIsStable | js/jquery.ui-volume-slider.js:387-404 | with an integer range, placing the thumb at a snapped value's own position gives the same placement |
| Conversion.EndValues | js/jquery.ui-volume-slider.js:370-381 | the ends of the track give 0 and max-min, inverted on the vertical axis, whatever min is |
| Conversion.SnapCanOvershoot | js/jquery.ui-volume-slider.js:387-402 | with min 0, max 2.5 and smooth off, the end of the track gives value 3 and a thumb at 120% |
| Conversion.FromMinInRange | js/jquery.ui-volume-slider.js:370-404 | counted from min, the value lies in [min, max] and the thumb is drawn where a min-aware setOption would put it |
| SliderOptions.Lookup | js/jquery.ui-volume-slider.js:157-165 | a key is found exactly when it occurs |
| SliderOptions.Assign | js/jquery.ui-volume-slider.js:175 | assigning a key keeps every existing key in place and appends a new key at the end |
| SliderOptions.Extend | js/jquery.ui-volume-slider.js:575-577 | no contract of its own: `$.extend` copies each defined property in turn. Stated by SliderOptions.ExtendLookup and SliderOptions.ExtendFits |
| SliderOptions.AssignLookup | js/jquery.ui-volume-slider.js:175 | after an assignment the key reads the new value and every other key reads what it did |
| SliderOptions.ExtendLookup | js/jquery.ui-volume-slider.js:575-577 | `$.extend` keeps the target's keys first and distinct. A key reads the source's last defined value, else the target's |
| SliderOptions.ExtendFits | js/jquery.ui-volume-slider.js:575-577 | extending well-typed options gives well-typed options |
| SliderOptions.DefaultsShape | js/jquery.ui-volume-slider.js:64-76 | the defaults are well typed, with distinct keys, one for each of the eight known options |
| SliderOptions.Defaults | js/jquery.ui-volume-slider.js:64-76 | no contract of its own: defaultOptions, in declaration order. Stated by SliderOptions.DefaultsShape |
| Instance.SetOption | js/jquery.ui-volume-slider.js:173-211 | setOption stores the value under its name, changes no other option and leaves the drag fields alone |
| Instance.ThumbStyle | js/jquery.ui-volume-slider.js:182-204 | no contract of its own: the css offset setOption writes, NotFinite when an operand is missing or max == min. Stated by Instance.SetOptionMovesThumb and Conversion.PercentInRange |
| Instance.Update | js/jquery.ui-volume-slider.js:157-165 | update keeps every known option well typed. Its effect is stated by Instance.UpdateOptions, Instance.UpdateTrace, Instance.UpdateKeepsGood and Instance.UpdateAppend |
| Instance.SetOptionMovesThumb | js/jquery.ui-volume-slider.js:182-204 | min, max and value redraw the thumb on its axis at setOption's percentage and leave the other axis alone. value also triggers change(new, previous). The percentage is in [0, 100] when the value is in range |
| Instance.UpdateOptions | js/jquery.ui-volume-slider.js:157-165 | after update, each key reads the last value given for it, else its old value |
| Instance.UpdateTrace | js/jquery.ui-volume-slider.js:157-165 | update leaves the drag fields alone and appends one change event for each `value` key it is given |
| Instance.UpdateKeepsGood | js/jquery.ui-volume-slider.js:157-165 | update keeps the instance invariant |
| Instance.UpdateAppend | js/jquery.ui-volume-slider.js:157-165 | updating with a + b is updating with a, then with b |
| Instance.UpdateKeepsOffsets | js/jquery.ui-volume-slider.js:182-207 | an update without min, max or value does not move the thumb |
| Instance.MergedShape | js/jquery.ui-volume-slider.js:575-577 | the constructor's options list the eight defaults first, in order, with distinct keys |
| Instance.Merged | js/jquery.ui-volume-slider.js:575-577 | the constructor's `$.extend({}, defaultOptions, options)` gives well-typed options. Its order is stated by Instance.MergedShape |
| Instance.Created | js/jquery.ui-volume-slider.js:99-137 | no contract of its own: create() applies update to the merged options. Stated by Instance.CreatedOptions and Instance.CreatedGood |
| Instance.CreatedOptions | js/jquery.ui-volume-slider.js:99-137 | a new instance's option is the last defined value given for it, else its default |
| Instance.CreatedGood | js/jquery.ui-volume-slider.js:99-137 | a new instance is valid, has its handlers bound, is not editing and has triggered exactly one change |
| Instance.NumbersGoLeft | js/jquery.ui-volume-slider.js:182-207 | while `vertical` is undefined, assigning min, max and value redraws the thumb's `left` and never its `top` |
| Instance.CreatedVerticalLeavesTopUnset | js/jquery.ui-volume-slider.js:64-76 | the defaults put `vertical` after `value`, so creating a slider writes `left` and never `top`, even for a vertical slider |
| Instance.SetThumbPositionEffect | js/jquery.ui-volume-slider.js:363-422 | when min < max, and max - min is an integer unless smooth is on, the new value is in [0, max-min] and the thumb sits at setOption's percentage for it, in [0, 100]. One thumbmove(value) is triggered. No other option changes and the other axis is untouched |
| Instance.SetThumbPosition | js/jquery.ui-volume-slider.js:363-422 | setThumbPosition keeps the instance invariant and a defined scale |
| Instance.OwnerMouseDown | js/jquery.ui-volume-slider.js:429-466 | a press on the owner or the track keeps the instance invariant |
| Instance.SeekPoint | js/jquery.ui-volume-slider.js:433-447 | no contract of its own: the offset a press seeks to. Stated by Instance.SeekEffect |
| Instance.SeekEffect | js/jquery.ui-volume-slider.js:429-466 | a press on the owner (seekOnOwner) or on the track (seekOnTrack) seeks to the offset, corrected by the track's offset in the owner. The result is exactly setThumbPosition's state (value, thumb offsets, drag fields and bindings) with one change appended after its thumbmove. Any other press changes nothing |
| Instance.ThumbMouseDown | js/jquery.ui-volume-slider.js:473-501 | a press on the thumb keeps the invariant and enters editing. It records the value at the press and, on the active axis only, a drag whose delta and track start are both the pointer minus parseInt of the thumb's pixel position, with the track's length. Options, offsets, trace and bindings are unchanged |
| Instance.WindowMouseMove | js/jquery.ui-volume-slider.js:508-538 | a move keeps the instance invariant and a defined scale |
| Instance.MoveEffect | js/jquery.ui-volume-slider.js:508-538 | a move at or past the track start places the thumb at the pointer minus the captured delta, capped by the captured length. Any other move changes nothing |
| Instance.MovesEffect | js/jquery.ui-volume-slider.js:508-538 | a run of moves triggers only thumbmove events, at most one per move, and changes no option other than value and no drag field |
| Instance.GetOption | js/jquery.ui-volume-slider.js:218-229 | no contract of its own. Instance.Gesture and Plugin.ReadPathsDuringDrag state that it gives the value at the press during a drag and the live option otherwise |
| Instance.SetEditMode | js/jquery.ui-volume-slider.js:332-355 | no contract of its own. Instance.Gesture and Instance.DestroyEffect state that leaving editing clears the value at the press, keeps the captured drag fields and triggers change |
| Instance.WindowMouseUp | js/jquery.ui-volume-slider.js:544-553 | no contract of its own: it is setEditMode(false). Stated by Instance.Gesture |
| Instance.Destroy | js/jquery.ui-volume-slider.js:143-150 | no contract of its own. Stated by Instance.DestroyEffect |
| Instance.Gesture | js/jquery.ui-volume-slider.js:473-553 | press, moves and release trigger exactly one change. During the drag getOption('value') returns the value at the press (when truthy). The release clears it, leaves editing and keeps the options and the captured drag fields (startedX, startedY): only `_startedValue` is deleted |
| Instance.DestroyEffect | js/jquery.ui-volume-slider.js:143-150 | destroy unbinds the press handlers, leaves editing, keeps the options and triggers one change |
| Widget.Slider.constructor | js/jquery.ui-volume-slider.js:566-579 | `new ComponentInstance(owner, options)` builds the state that `Instance.Created` describes. That this state is valid is stated by Instance.CreatedGood, not by the constructor |
| Widget.Slider.SetOption | js/jquery.ui-volume-slider.js:173-211 | the method performs `Instance.SetOption` on the object and keeps its invariant |
| Widget.Slider.Update | js/jquery.ui-volume-slider.js:157-165 | the key loop performs `Instance.Update` on the object |
| Widget.Slider.GetOption | js/jquery.ui-volume-slider.js:218-229 | the method returns `Instance.GetOption` of the object's state |
| Widget.Slider.SetEditMode | js/jquery.ui-volume-slider.js:332-355 | the method performs `Instance.SetEditMode` on the object and keeps its invariant |
| Widget.Slider.SetThumbPosition | js/jquery.ui-volume-slider.js:363-422 | the method's in-place computation equals `Instance.SetThumbPosition` |
| Widget.Slider.OnOwnerMouseDown | js/jquery.ui-volume-slider.js:429-466 | the handler performs `Instance.OwnerMouseDown` |
| Widget.Slider.OnThumbMouseDown | js/jquery.ui-volume-slider.js:473-501 | the handler performs `Instance.ThumbMouseDown` |
| Widget.Slider.OnWindowMouseMove | js/jquery.ui-volume-slider.js:508-538 | the handler performs `Instance.WindowMouseMove`, through the drag step `Conversion.DragPosition` |
| Widget.Slider.OnWindowMouseUp | js/jquery.ui-volume-slider.js:544-553 | the handler performs `Instance.WindowMouseUp` and leaves editing |
| Widget.Slider.Destroy | js/jquery.ui-volume-slider.js:143-150 | the method performs `Instance.Destroy` |
| Plugin.Answer | js/jquery.ui-volume-slider.js:697 | the call returns the selection exactly when `result` is unassigned or undefined, and returns `result` otherwise |
| Plugin.Find | js/jquery.ui-volume-slider.js:610-625 | the lookup returns the first index whose owner is the element, or nothing when no instance has it |
| Plugin.Found | js/jquery.ui-volume-slider.js:618-621 | on a found instance, create becomes update with the same options, and every other action is kept |
| Plugin.Serve | js/jquery.ui-volume-slider.js:645-690 | no contract of its own: the update and default branches on an existing instance. Stated by Plugin.ServeKeepsGood and Plugin.WriteReturnsPrevious |
| Plugin.FoundAgain | js/jquery.ui-volume-slider.js:618-621 | on an element that has an instance, create acts exactly as update |
| Plugin.ServeKeepsGood | js/jquery.ui-volume-slider.js:671-690 | update, an option write and setEditMode keep the invariant. Reads change nothing. Every action except update assigns `result` |
| Plugin.FreshGood | js/jquery.ui-volume-slider.js:636-641 | the instance created for a new element belongs to it and is valid |
| Plugin.Fresh | js/jquery.ui-volume-slider.js:634-641 | no contract of its own: the instance created for a new element. Stated by Plugin.FreshGood |
| Plugin.Element | js/jquery.ui-volume-slider.js:599-694 | one element's pass keeps every instance valid and passes on a well-formed action |
| Plugin.ElementUnique | js/jquery.ui-volume-slider.js:599-694 | one element's pass keeps at most one instance per owner |
| Plugin.Each | js/jquery.ui-volume-slider.js:599-694 | no contract of its own: `this.each` over the remaining elements, carrying the action and `result`. Stated by Plugin.EachInvariant |
| Plugin.Select | js/jquery.ui-volume-slider.js:591-699 | no contract of its own: the whole call. Stated by Plugin.SelectOne, Plugin.EachInvariant and Plugin.Registry.Call |
| Plugin.EachInvariant | js/jquery.ui-volume-slider.js:591-699 | a whole call keeps at most one instance per owner, all of them valid |
| Plugin.CreateEffect | js/jquery.ui-volume-slider.js:610-643 | create appends one instance at the end for a new element. For an element that has one, create updates it in place; as written, later elements then see update too |
| Plugin.CreateTwice | js/jquery.ui-volume-slider.js:610-652 | creating twice on one element leaves the list's owners as after the first call: the second call updates |
| Plugin.DestroyEffect | js/jquery.ui-volume-slider.js:656-667 | destroy removes the element's instance and keeps the rest in order. As written, the instance at index 0 is kept |
| Plugin.FirstNeverDestroyed | js/jquery.ui-volume-slider.js:660 | as written, destroying the first registered slider leaves it at index 0, unchanged |
| Plugin.IntendedDestroyRemovesAll | js/jquery.ui-volume-slider.js:656-667 | destroy with the index test fixed removes the instance of every element of the selection |
| Plugin.CreateStopsAfterKnownOwner | js/jquery.ui-volume-slider.js:618-621 | as written, creating on [a, b], where a has an instance and b has none, leaves b without one |
| Plugin.IntendedCreateReachesAll | js/jquery.ui-volume-slider.js:599-643 | with the action reset for each element, create gives every element of the selection an instance |
| Plugin.SelectOne | js/jquery.ui-volume-slider.js:591-699 | a call on one element is that element's pass, with its assignment as the reply |
| Plugin.WriteReturnsPrevious | js/jquery.ui-volume-slider.js:679-687 | `UISlider(name, v)` stores v, keeps the other options and returns the previous value. Without an instance it returns the selection |
| Plugin.ReadPathsDuringDrag | js/jquery.ui-volume-slider.js:218-229 | during a drag `UISlider('getOption', 'value')` gives the value at the press, while `UISlider('value')` gives the live value |
| Plugin.LastReadWins | js/jquery.ui-volume-slider.js:673-697 | on a selection of two registered elements, the second element's option is returned, even when it is undefined |
| Plugin.Registry.IndexOf | js/jquery.ui-volume-slider.js:610-625 | the search loop returns `Find` |
| Plugin.Registry.constructor | js/jquery.ui-volume-slider.js:87 | `componentInstances = []`: the registry starts empty and valid |
| Plugin.Registry.Call | js/jquery.ui-volume-slider.js:591-699 | the `this.each` loop, with the action and `result` it shares, performs `Select` as written and keeps the registry valid |
| Plugin.Registry.Visit | js/jquery.ui-volume-slider.js:599-694 | one pass over an element performs `Element` as written |
| Plugin.Registry.VisitNew | js/jquery.ui-volume-slider.js:630-643 | on an element without an instance, the pass performs `Element` as written: create appends a new instance, and any other action leaves the list alone |
| Plugin.Registry.VisitAt | js/jquery.ui-volume-slider.js:645-690 | on an element found at index k, with create already turned into update, the switch performs `Element` as written, including the index-0 destroy guard |
| Plugin.Registry.ServeAt | js/jquery.ui-volume-slider.js:647-690 | the update and default branches on the instance at index k replace only that entry, with the state and the assignment to `result` that `Plugin.Serve` gives |
| Plugin.Registry.ServeOne | js/jquery.ui-volume-slider.js:647-690 | the branches on one object perform `Plugin.Serve` on it: the new state and the value assigned to `result` |
| Plugin.Registry.Append | js/jquery.ui-volume-slider.js:634-641 | `push(new ComponentInstance(...))` adds one new object at the end, in the state `Instance.Created` gives, and leaves the earlier instances as they were |
| Plugin.Registry.Push | js/jquery.ui-volume-slider.js:641 | `componentInstances.push(x)` puts the object at the end, and the entries become the old ones followed by x's owner and state |
| Plugin.Registry.RemoveAt | js/jquery.ui-volume-slider.js:658-665 | `destroy()` then `splice(currentIndex, 1)` removes exactly that instance and keeps the others in order. The removed object ends in the state `Instance.Destroy` gives: press handlers unbound, not editing, one more change |

## Findings

| source | as written | input that shows it | evidently intended | confidence | as-written member | corrected member |
|---|---|---|---|---|---|---|
| js/jquery.ui-volume-slider.js:660 | `if (currentIndex)` is false for index 0, so the first slider ever created can never be destroyed | `$(first).UISlider('destroy')` while `first` owns the instance at index 0 | remove the found instance at any index (`currentIndex !== undefined`) | high, not executed | Plugin.FirstNeverDestroyed | Plugin.IntendedDestroyRemovesAll |
| js/jquery.ui-volume-slider.js:618-621 | `action` is shared by all elements of the selection, and turning create into update for one element turns it for every element after it | `$('#a, #b').UISlider({...})` where only `#a` already has an instance: `#b` gets none | decide create or update for each element separately | medium, not executed | Plugin.CreateStopsAfterKnownOwner | Plugin.IntendedCreateReachesAll |
| js/jquery.ui-volume-slider.js:370-381 | the value is the fraction of the track times `max - min`, without `min` added | min 10, max 20, thumb at the start: value 0, below min | value = min + fraction · (max - min), and setOption's percentage counted from min | medium, not executed | Conversion.EndValues | Conversion.FromMinInRange |

The corrected definitions are `Variant.Intended` of `Plugin.Element` and `Conversion.PlaceFromMin`/`Conversion.PercentFromMin`. The instance and registry classes follow the code as written.

## Left out

- JavaScript coercion. Options with a known name must hold a value of the right kind: a number for min, max and value; a boolean for the flags. A string `"5"` for `max`, for example, is not modelled.
- Floating point. Numbers are exact reals, and NaN and Infinity are not modelled. A thumb percentage that would be NaN or Infinity (max == min, or a missing operand) is recorded as `NotFinite`. `setThumbPosition` and the handlers that reach it require a positive track length and, unless smooth is on, max != min, because otherwise they divide by zero. A press on the thumb (`Instance.ThumbMouseDown`) does not divide, but it also requires a positive track length. The drag it records keeps that length for the moves that follow, and the instance invariant (`DragOk`) demands it.
- The DOM. The layout is given as parameters: offsets, track width and height, and the thumb's computed pixel position. So are the elements that `create` appends and looks up (`createElements`, classes), and the element hit by a press.
- Event binding. A handler is called only while it is bound: the window handlers while editing, the press handlers until destroy.
- A second press while already editing binds the window handlers twice. This is not modelled.
- `prepareJQueryTouchEvent` is not modelled: its pointer coordinates are taken as given. So a touch press on the thumb, a touch move and a touch release behave like the mouse ones.
- A touch press on the owner or the track is not modelled. `onOwnerMouseDown` (lines 429-464) does not call `prepareJQueryTouchEvent` and reads `event.offsetX`/`offsetY`, which a touch event does not carry. As written, a touch on the track then seeks nothing. A touch on the owner seeks to NaN and triggers `thumbmove(NaN)` and `change(NaN)`. The model's press takes the offsets of a mouse event.
- A `for (key in options)` loop visits names that look like array indices (`"0"`, `"12"`) first, in ascending numeric order, and then the other names in insertion order. The model visits every name in insertion order. The order matters only for such names, and none of the widget's own options has one.
- `handleAction` is not part of this model. Nothing in the file calls it.
- Dispatch calls, by name, to instance methods other than `getOption` and `setEditMode` are not modelled. These are `setOption`, `setThumbPosition`, `prepareJQueryTouchEvent`, `handleAction` and the handlers, and each would receive only the one argument. Writing an option through the plugin goes by the option's name instead (`UISlider('value', v)`), and that is modelled.
- Names that `Object.prototype` provides (`constructor`, `toString`, …) are not modelled.
- The module loader wrapper (AMD or a global jQuery) is not modelled.
