# VerticalTabLayout selector model

This project models the segmented button control of the VerticalTabLayout demo app, and proves properties of that model.

- A `SegmentedButtonGroup` holds an ordered list of `SegmentedButton`s and a continuous selection position, kept as `currentPosition` + `currentPositionOffset`.
- Moving the position to a real value `r` clips a selected-state overlay open on the buttons at `floor(r)` and `ceil(r)`, so the selector appears to slide between buttons. It also resets the buttons that were active before and are no longer.
- The position is driven by a pager's scroll callback or, without a pager, by an animation started when a button is tapped.
- The group also gives each new button its radius and selector colour, recolours all buttons when its selector colour changes, and after the first layout gives every button the same width.
- A button keeps its clip state and its drawable tint, looks up its drawable gravity by id, and picks its measured width and height from the measure specs.
- The demo activity computes the flat item list of its categories and the per-category index offsets.

Modules, one per source file, plus two small ones:

- `Options`: the Option datatype.
- `Button`: SegmentedButton.kt. The clip state, `DrawableGravity`, the integer part of the measure pass, and the class `SegmentedButton`, whose methods update its fields.
- `SelectorInterpolation`: the selector logic of SegmentedButtonGroup.kt on values.
  - `Selection` holds the clip states of the buttons plus the two position fields.
  - One move is a map of at most four clip requests applied to the list.
  - Animation is a fold of moves over the animated values.
  - `OnlyActiveSelected` is the invariant: every button other than the position's floor and ceiling shows nothing.
- `ButtonGroup`: the class `SegmentedButtonGroup`.
  - It has the fields of the source, and the buttons are objects whose fields its methods change in place.
  - Each method is proved to move `State()` exactly as the `SelectorInterpolation` function says, and to leave every other button field alone.
  - The mutable set of moveTo is an insertion-ordered sequence without repeats, as Kotlin's `mutableSetOf` (a LinkedHashSet) keeps it. The reset loop walks it in that order.
- `Activity`: `getCategoryIndexOffsets` and `getAllItems` of MainActivity.kt, as loops proved against `IndexOffsets` and `Flatten`.

Where the inputs come from:

- Positions and clip amounts are exact reals.
- The animator's frame values, the text height a relayout produces, `minimumWidth` and the paddings are parameters.
- Failures that the source reaches as exceptions are explicit results:
  - `Measure` returns `Failed` for the NullPointerException of a `!!`, carrying any relayout made before it.
  - `OnGlobalLayout` returns `ok == false` for the division by zero with no buttons.
- One might expect a four-button move from 0 to 2.3 to reset button 1 as well. The code resets only the old floor and ceiling, because its set of involved indices is {0, 0, 2, 3}. The model follows the code: `FourButtonsFromZeroToTwoPointThree` proves that button 1 keeps its state.

## Model

All source paths are under `app/src/main/java/com/iammert/tabscrollattacher/`.

| member | source | states |
|---|---|---|
| Button.ClipAmountInRange | app/src/main/java/com/iammert/tabscrollattacher/SegmentedButton.kt:413-423 | For a clip request within [0,1], both clipToLeft and clipToRight leave an amount within [0,1] that adds up to 1 with the request. clipToLeft clears the left-to-right flag and clipToRight sets it. |
| Button.SegmentedButton.ClipToLeft | app/src/main/java/com/iammert/tabscrollattacher/SegmentedButton.kt:413-417 | clipToLeft(clip) sets clipAmount to 1 - clip and clipLeftToRight to false. No other field changes. |
| Button.SegmentedButton.ClipToRight | app/src/main/java/com/iammert/tabscrollattacher/SegmentedButton.kt:419-423 | clipToRight(clip) sets clipAmount to 1 - clip and clipLeftToRight to true. No other field changes. |
| Button.SegmentedButton.SetSelectorColor | app/src/main/java/com/iammert/tabscrollattacher/SegmentedButton.kt:425-427 | The selector paint takes the colour. No other field changes. |
| Button.SegmentedButton.SetDrawableTint | app/src/main/java/com/iammert/tabscrollattacher/SegmentedButton.kt:72-79 | The tint is always recorded. The tint flag and the normal-state filter are switched on exactly for a colour other than WHITE and TRANSPARENT. A tint already on is never switched off. |
| Button.SegmentedButton.constructor | app/src/main/java/com/iammert/tabscrollattacher/SegmentedButton.kt:83-95 | A new button is unclipped, has a black selector paint and no tint. |
| Button.FindGravity | app/src/main/java/com/iammert/tabscrollattacher/SegmentedButton.kt:440-445 | getById's loop returns a value of the enum whose intValue is the id. It returns null exactly when no value has that id. |
| Button.GetByIdRoundTrip | app/src/main/java/com/iammert/tabscrollattacher/SegmentedButton.kt:429-445 | getById(g.intValue) is g for every gravity. getById is null exactly for ids outside 0..3. |
| Button.IsHorizontalExactly | app/src/main/java/com/iammert/tabscrollattacher/SegmentedButton.kt:435-436 | isHorizontal holds exactly for LEFT and RIGHT. |
| Button.MeasureTextWidth | app/src/main/java/com/iammert/tabscrollattacher/SegmentedButton.kt:203-213 | The gravity is read only when a drawable is set. The text layouts are left untouched exactly when the width is below the side bitmap width plus the side paddings. Otherwise the new text width is what remains: paddings, side bitmap and text fill the width exactly, and the text width is non-negative. |
| Button.Measure | app/src/main/java/com/iammert/tabscrollattacher/SegmentedButton.kt:215-277 | The null dereferences are checked in the order the source reaches them: the bitmap, then the gravity in measureTextWidth (drawable only), then the gravity for an AT_MOST width, then the gravity in the height pass and in calculate (line 292). The measure succeeds exactly when a bitmap exists whenever a drawable is set and the gravity is known. Any relayout is the one measureTextWidth makes for a positive EXACTLY width. |
| Button.MeasuredWidthByMode | app/src/main/java/com/iammert/tabscrollattacher/SegmentedButton.kt:221-241 | The measured width for each mode: EXACTLY gives the requirement, and relays the text for a positive requirement. AT_MOST gives paddings plus text width, plus the bitmap width only for a horizontal gravity. UNSPECIFIED gives text plus bitmap width. No mode other than EXACTLY relays the text. |
| Button.RelayoutBeforeFailure | app/src/main/java/com/iammert/tabscrollattacher/SegmentedButton.kt:203-213 | With no drawable and a null gravity, a positive EXACTLY width still lays the text out again, whenever the paddings fit, before the measure fails. |
| Button.DrawableFailsBeforeRelayout | app/src/main/java/com/iammert/tabscrollattacher/SegmentedButton.kt:222-226 | With a drawable whose bitmap or gravity is null, the measure fails before any relayout. |
| Button.ExactHeightHorizontal | app/src/main/java/com/iammert/tabscrollattacher/SegmentedButton.kt:246-252 | EXACTLY height with a horizontal gravity is the larger of the requirement and max(text, bitmap) plus the vertical paddings. It is never below the requirement. |
| Button.ExactHeightVertical | app/src/main/java/com/iammert/tabscrollattacher/SegmentedButton.kt:253-260 | EXACTLY height with a vertical gravity: the content height when the requirement is smaller, otherwise requirement + paddingTop - paddingBottom. That equals the requirement only when the two paddings are equal. |
| Button.OtherHeights | app/src/main/java/com/iammert/tabscrollattacher/SegmentedButton.kt:262-273 | AT_MOST height is the content height plus twice each vertical padding, with the content height computed per gravity. UNSPECIFIED keeps paddingTop + paddingBottom. Neither depends on the requirement's size. |
| Button.UnknownGravityFailsMeasure | app/src/main/java/com/iammert/tabscrollattacher/SegmentedButton.kt:440-445 | A gravity id outside 0..3 leaves the gravity null, and the measure pass then fails for every pair of specs. |
| Button.SegmentedButton.OnMeasure | app/src/main/java/com/iammert/tabscrollattacher/SegmentedButton.kt:203-277 | On success the measured dimensions become those of Measure. The text layout is replaced exactly when measureTextWidth relaid it, including when the measure then fails. A failed measure leaves the measured dimensions unchanged. |
| SelectorInterpolation.Ceil | app/src/main/java/com/iammert/tabscrollattacher/SegmentedButtonGroup.kt:228-230 | ceil(r) is the least integer at or above r. |
| SelectorInterpolation.Truncate | app/src/main/java/com/iammert/tabscrollattacher/SegmentedButtonGroup.kt:225 | truncate rounds toward zero: it gives the floor for r >= 0 and the ceiling for r < 0. |
| SelectorInterpolation.Decompose | app/src/main/java/com/iammert/tabscrollattacher/SegmentedButtonGroup.kt:247-248 | The two stored fields sum back to the real position. For r >= 0 the index is floor(r) and the offset lies in [0,1). The offset always lies in (-1,1). |
| SelectorInterpolation.Requests | app/src/main/java/com/iammert/tabscrollattacher/SegmentedButtonGroup.kt:225-245 | One move issues a request for each of the old floor, the old ceiling, the new floor and the new ceiling, and for no other index. |
| SelectorInterpolation.RequestAt | app/src/main/java/com/iammert/tabscrollattacher/SegmentedButtonGroup.kt:233-245 | The new floor gets clipToRight(offset). A distinct new ceiling gets clipToLeft(1 - offset). Every other involved index gets clipToLeft(1). |
| SelectorInterpolation.AtMostFourRequests | app/src/main/java/com/iammert/tabscrollattacher/SegmentedButtonGroup.kt:232-233 | At most four buttons are involved in a move, all of them floors or ceilings of the two positions. |
| SelectorInterpolation.RequestsInRange | app/src/main/java/com/iammert/tabscrollattacher/SegmentedButtonGroup.kt:227-230 | Between positions in [0, n-1], every involved index is a button of the list. |
| SelectorInterpolation.OutOfRangeRequestIgnored | app/src/main/java/com/iammert/tabscrollattacher/SegmentedButtonGroup.kt:251-261 | A request for an index outside the list changes nothing and raises nothing. |
| SelectorInterpolation.MoveTo | app/src/main/java/com/iammert/tabscrollattacher/SegmentedButtonGroup.kt:218-249 | A move keeps the number of buttons, leaves the fields summing to the new position, and keeps the index the truncation of the position. |
| SelectorInterpolation.MoveToIdempotent | app/src/main/java/com/iammert/tabscrollattacher/SegmentedButtonGroup.kt:219-223 | A move to the current position changes nothing, so repeating a move is a no-op. |
| SelectorInterpolation.MoveToPosition | app/src/main/java/com/iammert/tabscrollattacher/SegmentedButtonGroup.kt:247-248 | After moveTo(r) with r >= 0: index = floor(r), offset = r - floor(r), which lies in [0,1), and index + offset = r. |
| SelectorInterpolation.MoveToSelects | app/src/main/java/com/iammert/tabscrollattacher/SegmentedButtonGroup.kt:241-245 | After a real move, the floor button is clipped left-to-right by 1 - frac(r). A distinct ceiling button is clipped right-to-left by frac(r). Their two amounts sum to 1. |
| SelectorInterpolation.MoveToResets | app/src/main/java/com/iammert/tabscrollattacher/SegmentedButtonGroup.kt:233-240 | An old floor or ceiling that is no longer active ends with amount 0. A button at none of the four indices keeps its state. |
| SelectorInterpolation.MoveToKeepsInvariant | app/src/main/java/com/iammert/tabscrollattacher/SegmentedButtonGroup.kt:218-249 | A move keeps "only the floor and ceiling of the position show any selection". |
| SelectorInterpolation.AddButtonAppends | app/src/main/java/com/iammert/tabscrollattacher/SegmentedButtonGroup.kt:155-165 | addView appends at the old size and keeps the others and the position. The new button is fully selected exactly when its index is currentPosition. |
| SelectorInterpolation.AddButtonKeepsInvariant | app/src/main/java/com/iammert/tabscrollattacher/SegmentedButtonGroup.kt:153-165 | Adding a button that shows nothing keeps the invariant, which the empty group has. |
| SelectorInterpolation.SettledAfterMove | app/src/main/java/com/iammert/tabscrollattacher/SegmentedButtonGroup.kt:218-249 | Settling on an integer k: the position is (k, 0), button k is fully selected, and every other button shows nothing. |
| SelectorInterpolation.FourButtonsFromZeroToTwoPointThree | app/src/main/java/com/iammert/tabscrollattacher/SegmentedButtonGroup.kt:218-249 | With four buttons settled on 0, a move to 2.3 gives position (2, 0.3), resets button 0, leaves button 1 alone, and shows 0.7 of button 2 and 0.3 of button 3. |
| SelectorInterpolation.Ticks | app/src/main/java/com/iammert/tabscrollattacher/SegmentedButtonGroup.kt:208-211 | Feeding animated values keeps the number of buttons and the index/offset relation. |
| SelectorInterpolation.TicksAppend | app/src/main/java/com/iammert/tabscrollattacher/SegmentedButtonGroup.kt:208-211 | Frames apply in order: two batches of frames run one after the other end where the concatenated batch ends. |
| SelectorInterpolation.TicksReachEnd | app/src/main/java/com/iammert/tabscrollattacher/SegmentedButtonGroup.kt:207-211 | A run of frames ends at its last value. |
| SelectorInterpolation.TicksKeepSelection | app/src/main/java/com/iammert/tabscrollattacher/SegmentedButtonGroup.kt:207-211 | A run of frames keeps the invariant, and keeps "button k is fully selected whenever the position is k". |
| SelectorInterpolation.Animate | app/src/main/java/com/iammert/tabscrollattacher/SegmentedButtonGroup.kt:202-216 | animateTo keeps the number of buttons. |
| SelectorInterpolation.AnimationAtTargetIsNoOp | app/src/main/java/com/iammert/tabscrollattacher/SegmentedButtonGroup.kt:203-205 | animateTo at the target index leaves the whole state, clips and position, unchanged, whatever the frames. |
| SelectorInterpolation.AnimationSettles | app/src/main/java/com/iammert/tabscrollattacher/SegmentedButtonGroup.kt:202-216 | When the animator's last value is the target, animateTo ends at position (target, 0). At the target index it changes nothing at all. |
| SelectorInterpolation.AnimationSelectsTarget | app/src/main/java/com/iammert/tabscrollattacher/SegmentedButtonGroup.kt:202-216 | A tapped animation ends with the target button fully selected and every other button showing nothing. |
| ButtonGroup.MaxWidth | app/src/main/java/com/iammert/tabscrollattacher/SegmentedButtonGroup.kt:89-93 | The filter/forEach running maximum is at least 0 and at least every width, and it is 0 or one of the widths. |
| ButtonGroup.EqualWidthBounds | app/src/main/java/com/iammert/tabscrollattacher/SegmentedButtonGroup.kt:89-97 | The common width is at least every measured width. It is the budget divided by the count when the widest times the count falls short of the budget, and the widest otherwise. Division by zero happens exactly with no buttons and a positive budget. |
| ButtonGroup.InsertionOrderedSet | app/src/main/java/com/iammert/tabscrollattacher/SegmentedButtonGroup.kt:233 | mutableSetOf holds exactly the given indices, each once. |
| ButtonGroup.RemoveFrom | app/src/main/java/com/iammert/tabscrollattacher/SegmentedButtonGroup.kt:234-237 | remove(x) leaves exactly the other elements, still without repeats. |
| ButtonGroup.SegmentedButtonGroup.constructor | app/src/main/java/com/iammert/tabscrollattacher/SegmentedButtonGroup.kt:36-47 | A new group has no buttons and no pager. It holds the styled position with offset 0, which satisfies the invariant. |
| ButtonGroup.SegmentedButtonGroup.ClipButtonSelectionFromLeft | app/src/main/java/com/iammert/tabscrollattacher/SegmentedButtonGroup.kt:257-261 | clipToLeft on the button at the index. Nothing at all happens outside the list. |
| ButtonGroup.SegmentedButtonGroup.ClipButtonSelectionFromRight | app/src/main/java/com/iammert/tabscrollattacher/SegmentedButtonGroup.kt:251-255 | clipToRight on the button at the index. Nothing at all happens outside the list. |
| ButtonGroup.SegmentedButtonGroup.ResetButtons | app/src/main/java/com/iammert/tabscrollattacher/SegmentedButtonGroup.kt:238-240 | Every listed index of the list gets clipToLeft(1). The other buttons and all non-clip fields are unchanged. |
| ButtonGroup.SegmentedButtonGroup.ApplyRequests | app/src/main/java/com/iammert/tabscrollattacher/SegmentedButtonGroup.kt:225-245 | The buttons' clip states become SelectorInterpolation's requests applied to the old ones. |
| ButtonGroup.SegmentedButtonGroup.MoveTo | app/src/main/java/com/iammert/tabscrollattacher/SegmentedButtonGroup.kt:218-249 | The group's state becomes SelectorInterpolation.MoveTo of the old state. The invariant is preserved. No other button field changes. |
| ButtonGroup.SegmentedButtonGroup.AnimateTo | app/src/main/java/com/iammert/tabscrollattacher/SegmentedButtonGroup.kt:202-216 | The state becomes SelectorInterpolation.Animate of the old state: one moveTo per animated value, none at the target. |
| ButtonGroup.SegmentedButtonGroup.OnButtonClick | app/src/main/java/com/iammert/tabscrollattacher/SegmentedButtonGroup.kt:167-172 | A tap on the current button does nothing. Otherwise onButtonTap fires, and the pager is sent to the button if there is one; if not, the selector is animated there. |
| ButtonGroup.SegmentedButtonGroup.SetViewPager | app/src/main/java/com/iammert/tabscrollattacher/SegmentedButtonGroup.kt:109-112 | Attaching a pager moves the selector to its current item. |
| ButtonGroup.SegmentedButtonGroup.OnPageScrolled | app/src/main/java/com/iammert/tabscrollattacher/SegmentedButtonGroup.kt:135-137 | Scroll progress moves the selector to position + positionOffset. |
| ButtonGroup.SegmentedButtonGroup.AddView | app/src/main/java/com/iammert/tabscrollattacher/SegmentedButtonGroup.kt:153-165 | The button is appended with the group's radius and selector colour. The state becomes SelectorInterpolation.AddButton of the old one. |
| ButtonGroup.SegmentedButtonGroup.SetSelectorColor | app/src/main/java/com/iammert/tabscrollattacher/SegmentedButtonGroup.kt:36-42 | The group and every button take the colour. No clip state or other field changes. |
| ButtonGroup.SegmentedButtonGroup.MaxMeasuredWidth | app/src/main/java/com/iammert/tabscrollattacher/SegmentedButtonGroup.kt:89-93 | The loop finds MaxWidth of the measured widths, which bounds every button's measured width. |
| ButtonGroup.SegmentedButtonGroup.AssignWidth | app/src/main/java/com/iammert/tabscrollattacher/SegmentedButtonGroup.kt:99-102 | Every button's layout width becomes the given width. Nothing else changes. |
| ButtonGroup.SegmentedButtonGroup.OnGlobalLayout | app/src/main/java/com/iammert/tabscrollattacher/SegmentedButtonGroup.kt:85-106 | Every button gets EqualWidth of the measured widths. Failure (division by zero) happens only with no buttons. The selection state is unchanged. |
| Activity.GetCategoryIndexOffsets | app/src/main/java/com/iammert/tabscrollattacher/MainActivity.kt:97-107 | One offset per category. Offset i is IndexOffsets: the sum of the sizes of categories 1..i. |
| Activity.FirstOffsetIsZero | app/src/main/java/com/iammert/tabscrollattacher/MainActivity.kt:100-101 | The first offset is 0. |
| Activity.OffsetRecurrence | app/src/main/java/com/iammert/tabscrollattacher/MainActivity.kt:102-104 | For i >= 1, offset i is offset i-1 plus category i's size. |
| Activity.OffsetsNonDecreasing | app/src/main/java/com/iammert/tabscrollattacher/MainActivity.kt:103 | The offsets never decrease. |
| Activity.EmptyCategories | app/src/main/java/com/iammert/tabscrollattacher/MainActivity.kt:98-112 | No categories give no offsets and no items. |
| Activity.GetAllItems | app/src/main/java/com/iammert/tabscrollattacher/MainActivity.kt:109-113 | The items are Flatten of the categories: every category's item list, in order. |
| Activity.FlattenLength | app/src/main/java/com/iammert/tabscrollattacher/MainActivity.kt:109-113 | The item list is as long as the categories' sizes summed. |
| Activity.FlattenPrefix | app/src/main/java/com/iammert/tabscrollattacher/MainActivity.kt:111 | The items of the first m categories are a prefix of the item list. |
| Activity.StartOffsetsLocateItems | app/src/main/java/com/iammert/tabscrollattacher/MainActivity.kt:109-113 | Item j of category i is at index (sizes of categories 0..i-1) + j of the item list. |
| Activity.IndexOffsetsMissFirstItem | app/src/main/java/com/iammert/tabscrollattacher/MainActivity.kt:97-107 | For categories of sizes 1 and 2, the second category's offset is 2, not its start index 1. That offset points at the category's second item. |
| Activity.GetCategoryStartOffsets | app/src/main/java/com/iammert/tabscrollattacher/MainActivity.kt:97-107 | The corrected offsets: offset i is the sum of the sizes of categories 0..i-1, the index of category i's first item. |

## Left out

- Drawing is not modelled: both onDraw methods, `calculate`'s float placement of text and bitmap, bitmap loading and resizing, and StaticLayout/TextPaint measurement. Text and bitmap sizes are integer inputs. The height of a relaid text is a parameter of `OnMeasure`.
- The ValueAnimator's timing and the FastOutSlowInInterpolator curve are not modelled. AnimateTo takes the animator's frame values as a sequence and applies them at once. It does not model a second animation overlapping the first, or frames still to come.
- The ViewPager is only the fields and callbacks that reach moveTo: `currentItem` on attach, onPageScrolled, and the item set by a tap. The reflection-based swap of the pager's scroller is left out, because it only sets a framework duration.
- Attribute parsing (getAttributes of both views), the `text` setter's locale-dependent upper-casing, the outline provider, setEnabled's alpha, invalidate and requestLayout are all left out. These are styling and platform calls.
- Floats are exact reals. The `==` on floats in moveTo and the rounding of `realPosition - position` are not modelled. Float-to-Int saturation and NaN are not modelled either.
- ButtonGroup.SegmentedButtonGroup.OnGlobalLayout: does not model 32-bit overflow of `maxWidth * buttons.size`, because widths and counts are unbounded integers here.
- ButtonGroup.SegmentedButtonGroup.AddView: requires a button not already in the group, because Android throws for a view that already has a parent.
- ButtonGroup.SegmentedButtonGroup.MoveTo: the state after a move is tied to SelectorInterpolation.MoveTo and keeps only the weak invariant `OnlyActiveSelected`. "The buttons show exactly what the current position implies" is not an invariant of the source, because addView in the middle of a transition appends an unclipped button.
- The onButtonTap callback is not called. OnButtonClick returns whether the source would call it.
- MainActivity.onCreate (tab wiring, rotation and translation), dpToPx with its float density, DataFetcher, TabLoader and TabScrollAttacher are not part of this model.

## Findings

| source | as written | input that shows it | evidently intended | confidence | as-written member | corrected member |
|---|---|---|---|---|---|---|
| app/src/main/java/com/iammert/tabscrollattacher/MainActivity.kt:100-104 | Offset i adds category i's own size to the previous offset, so it is the sum of the sizes of categories 1..i. Category 0's size never counts. | Categories of sizes [1, 2]: the offsets are [0, 2], but the second category starts at index 1 of getAllItems. | Offset i is the index of category i's first item in getAllItems: the sum of the sizes of categories 0..i-1. The two agree only when every category has the same size. | medium, not executed (the attacher that reads the offsets is not part of this model) | Activity.IndexOffsetsMissFirstItem | Activity.GetCategoryStartOffsets |
