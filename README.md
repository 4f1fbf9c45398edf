# CenterTab layout core in Dafny

A model of the layout and selection arithmetic behind the CenterTab
widgets, a Jetpack Compose sample of horizontally scrolling tab strips whose
selected tab sits in the middle of the viewport, and of a camera zoom-lens
picker that animates between a packed row and an expanded row. The
Compose widgets become plain data: a layout pass takes the measured child
sizes and the container width and returns the geometry, and the `Flow` and
`LaunchedEffect` pipelines become functions and loops over finite sequences
of snapshots or events.

Modules:

- `Wrappers`: `Option` and `Result`, used for the error paths (an empty tab
  list, a lens child with no parent data, a `Float` division by zero).
- `KotlinMath`: Kotlin's truncating `Int.div(2)` (`Half`), `roundToInt`
  (`Round`, rounding half up), and the Compose `lerp(Int, Int, Float)` (`Lerp`).
- `Measure`: the `fold` over widths (`FoldSum`, tied to the reference `Sum`)
  and over heights (`FoldMax`), shared by both layouts.
- `CenterTabLayout`: the `SubcomposeLayout` measure/place pass of the plain tab
  strip (a method with its placement loop) and the drag-release collector
  (a method looping over the interaction stream).
- `CenterScrollTabLayoutState`: the lazy-row variant's `visibleItemsInfo`
  mapping and its `centerItemIndex` pipeline with `distinctUntilChanged`,
  as pure functions.
- `CenterScrollTabLayout`: the `isSelected` predicate, and the per-item
  `paddingStartPx`/`paddingEndPx` state updated by `onSizeChanged` (a class).
- `LensLayout`: `Modifier.lensItem`'s start factor and the lens picker's
  measure/place pass (a method with its placement loop).

Behaviour of the code that the model keeps as written:

- The plain tab strip's paddings are `(containerWidth - width).div(2)`, which
  truncates toward zero and is not clamped: a tab wider than the container
  gives a negative padding. The comments at `CenterTabLayout.kt` lines 110
  and 112 ask for the first and last tab to be centrable, and they are, to
  within half a pixel.
- In the lens picker `left` starts at `horizonPadding`, and the padding is
  added again after `lerp`, so
  `start = lerp(horizonPadding + packedOffset, expandStart, t) + horizonPadding`.
  This agrees with a lerp from the bare packed offset plus the padding at
  `t = 0` (the padding is 0), at `t = 1` (the packed start drops out), and
  whenever `horizonPadding` rounds to 0; in general the two differ for
  `0 < t < 1`.
- In the lazy-row strip, `onSizeChanged` sits outside the `padding` modifier,
  so the width it reports includes the item's current paddings, and setting
  a padding changes that width again. The first callback centres the first
  tab. A padding that a later callback leaves unchanged is about a third
  of the free space, with the tab left of centre (`StablePaddingIsAThird`).
  Some widths reach one (1000 px viewport, 200 px tab: 267); others have
  none, and the padding alternates between two neighbouring values for
  ever (1000/201: 266, 267, `PaddingFeedbackCycles`). No lemma proves that
  every run reaches such a value or cycle.
- The remembered paddings belong to an item's key (its label), not to its
  position, and no branch clears them, so a tab that moves from an end of
  the list to the middle keeps its old padding.
- `snapshotFlow` observes only the visible item list; the viewport width is
  read when the `map` stage handles an emitted list. A change of the
  viewport width alone recomputes no centre index.

Kotlin `Float` values (the layout ratio, zoom ratios, start factors, the
fractional ranges) are modelled as exact reals, and `Int` as unbounded
integers.

## Model

| member | source | states |
|---|---|---|
| KotlinMath.Half | app/src/main/java/com/example/centertab/CenterTabLayout.kt:111-113 | `Int.div(2)` truncates toward zero: the remainder `a - 2q` is in [0, 1] for `a >= 0` and in [-1, 0] for `a < 0` |
| KotlinMath.Round | app/src/main/java/com/example/centertab/LensLayout.kt:141 | `roundToInt` gives the integer within half a unit of `x` (`x - 0.5 < r <= x + 0.5`) |
| KotlinMath.Lerp | app/src/main/java/com/example/centertab/LensLayout.kt:126 | the interpolation is `start` at fraction 0 and `stop` at fraction 1, and stays between the two for fractions in [0, 1] |
| Measure.Project | app/src/main/java/com/example/centertab/CenterTabLayout.kt:106-108 | one measurement per child, in child order: entry `i` is the measurement of child `i` (the widths and heights both folds run over) |
| Measure.FoldSum | app/src/main/java/com/example/centertab/LensLayout.kt:122-124 | the width fold, accumulating from the start value; `FoldSumIsSum` ties it to the reference sum |
| Measure.FoldSumIsSum | app/src/main/java/com/example/centertab/CenterTabLayout.kt:106-108 | the accumulating width fold equals the initial value plus the sum of the widths |
| Measure.FoldMax | app/src/main/java/com/example/centertab/CenterTabLayout.kt:91-93 | the height fold is at least its start value and every element, and it equals its start value or one of the elements |
| CenterTabLayout.PlaceTabs | app/src/main/java/com/example/centertab/CenterTabLayout.kt:123-129 | one position per tab, in order: tab `i`'s left is the start padding plus the widths before it, and its width is its measured width |
| CenterTabLayout.MeasureAndPlace | app/src/main/java/com/example/centertab/CenterTabLayout.kt:91-129 | fails exactly on an empty tab list. Otherwise: the height is the max fold; the paddings are the truncated halves of the space the first and last tab leave (not clamped); the width is the width sum plus both paddings; tabs are placed left to right from the start padding |
| CenterTabLayout.LayoutHeightIsMax | app/src/main/java/com/example/centertab/CenterTabLayout.kt:91-93 | the layout height is at least 0 and at least every tab's intrinsic height, and it is 0 or some tab's height |
| CenterTabLayout.TabsContiguous | app/src/main/java/com/example/centertab/CenterTabLayout.kt:115-129 | the first tab starts at the start padding; each tab starts where the previous one ends; the last tab's right edge plus the end padding is the layout width |
| CenterTabLayout.FirstTabCentredAtScrollStart | app/src/main/java/com/example/centertab/CenterTabLayout.kt:110-111 | at scroll 0 the first tab's centre is within half a pixel of the container's centre; a first tab wider than the container by more than 1 makes the start padding negative |
| CenterTabLayout.LastTabCentredAtScrollEnd | app/src/main/java/com/example/centertab/CenterTabLayout.kt:112-115 | at scroll offset `layoutWidth - containerWidth` (the end of the scroll range when not negative) the last tab's centre is within half a pixel of the container's centre; an over-wide last tab makes the end padding negative |
| CenterTabLayout.ReleasesDrag | app/src/main/java/com/example/centertab/CenterTabLayout.kt:65 | the release test: the event before is a drag start and this one is not; `CollectInteractions` requests a snap exactly at these events |
| CenterTabLayout.CollectInteractions | app/src/main/java/com/example/centertab/CenterTabLayout.kt:62-70 | a snap to the current centre index is requested for exactly the events that are not a drag start and follow a drag start, once each and in event order; the first event never triggers one; `lastInteraction` ends as the newest event |
| CenterScrollTabLayoutState.ToItemInfos | app/src/main/java/com/example/centertab/CenterScrollTabLayoutState.kt:20-26 | the mapping keeps the length and order and copies `index`, `offset` and `size` unchanged |
| CenterScrollTabLayoutState.Contains | app/src/main/java/com/example/centertab/CenterScrollTabLayoutState.kt:36-39 | the closed range `IntRange(offset, offset + size)` contains the point; `FirstContaining` and the boundary lemmas are stated with it |
| CenterScrollTabLayoutState.FirstContaining | app/src/main/java/com/example/centertab/CenterScrollTabLayoutState.kt:35-40 | `firstOrNull` returns the first position whose closed range `[offset, offset + size]` contains the point, or nothing when no position does |
| CenterScrollTabLayoutState.CenterItemIndex | app/src/main/java/com/example/centertab/CenterScrollTabLayoutState.kt:33-41 | the result is the `index` of the first visible item containing half the viewport width, or 0 when none does (an empty list included); it is always 0 or some visible item's index |
| CenterScrollTabLayoutState.ContiguousCenter | app/src/main/java/com/example/centertab/CenterScrollTabLayoutState.kt:35-41 | for items laid edge to edge, a midpoint strictly inside item `k` selects item `k` |
| CenterScrollTabLayoutState.BoundaryGoesToEarlierItem | app/src/main/java/com/example/centertab/CenterScrollTabLayoutState.kt:35-39 | a midpoint on the boundary of two adjacent items lies in both closed ranges, and the earlier item is reported |
| CenterScrollTabLayoutState.DistinctFrom | app/src/main/java/com/example/centertab/CenterScrollTabLayoutState.kt:43 | `distinctUntilChanged` after a previously emitted value; its behaviour is stated by `DistinctFromAppend`, `DistinctFromChanges` and `DistinctFromOfChanging` |
| CenterScrollTabLayoutState.DistinctUntilChanged | app/src/main/java/com/example/centertab/CenterScrollTabLayoutState.kt:43 | `distinctUntilChanged` from the first value on; stated by the `DistinctUntilChanged…` lemmas below |
| CenterScrollTabLayoutState.DistinctFromAppend | app/src/main/java/com/example/centertab/CenterScrollTabLayoutState.kt:43 | one more upstream value is emitted exactly when it differs from the latest value seen, and nothing else changes |
| CenterScrollTabLayoutState.DistinctUntilChangedAppend | app/src/main/java/com/example/centertab/CenterScrollTabLayoutState.kt:43 | `distinctUntilChanged` appends a new value exactly when it differs from the previous upstream value |
| CenterScrollTabLayoutState.DistinctFromChanges | app/src/main/java/com/example/centertab/CenterScrollTabLayoutState.kt:43 | the output has no two equal neighbours, and its first value differs from the one emitted before |
| CenterScrollTabLayoutState.DistinctFromOfChanging | app/src/main/java/com/example/centertab/CenterScrollTabLayoutState.kt:43 | a sequence that already changes at every step passes through unchanged |
| CenterScrollTabLayoutState.DistinctUntilChangedNoRepeats | app/src/main/java/com/example/centertab/CenterScrollTabLayoutState.kt:43 | the emitted sequence never repeats a value back to back |
| CenterScrollTabLayoutState.DistinctUntilChangedIdempotent | app/src/main/java/com/example/centertab/CenterScrollTabLayoutState.kt:43 | applying `distinctUntilChanged` twice is the same as applying it once |
| CenterScrollTabLayoutState.DistinctUntilChangedKeepsValues | app/src/main/java/com/example/centertab/CenterScrollTabLayoutState.kt:43 | a value is emitted exactly when it occurs upstream; the last emitted value is the last upstream value |
| CenterScrollTabLayoutState.ItemListEmissions | app/src/main/java/com/example/centertab/CenterScrollTabLayoutState.kt:19-27 | `snapshotFlow` emits the mapped list only when it differs from the last one emitted; stated by `ItemListEmissionsAppend` and `EmissionsComeFromSnapshots` |
| CenterScrollTabLayoutState.ItemListFlow | app/src/main/java/com/example/centertab/CenterScrollTabLayoutState.kt:19-27 | the item-list flow from its first snapshot on; `LatestListIsEmitted` states its last emission |
| CenterScrollTabLayoutState.EmissionsComeFromSnapshots | app/src/main/java/com/example/centertab/CenterScrollTabLayoutState.kt:19-27 | every emission is the mapped list and the viewport width of some snapshot |
| CenterScrollTabLayoutState.ItemListEmissionsAppend | app/src/main/java/com/example/centertab/CenterScrollTabLayoutState.kt:19-27 | one more snapshot adds an emission exactly when its mapped list differs from the one emitted last |
| CenterScrollTabLayoutState.LatestListIsEmitted | app/src/main/java/com/example/centertab/CenterScrollTabLayoutState.kt:19-27 | after a non-empty run the flow is non-empty and its last emission carries the latest snapshot's mapped list |
| CenterScrollTabLayoutState.MappedCenterIndices | app/src/main/java/com/example/centertab/CenterScrollTabLayoutState.kt:32-42 | the `map` stage gives one centre index per snapshot, computed from that snapshot's items and viewport |
| CenterScrollTabLayoutState.CenterItemIndexFlow | app/src/main/java/com/example/centertab/CenterScrollTabLayoutState.kt:32-43 | the whole pipeline: item-list flow, `map` to a centre index at the width read then, `distinctUntilChanged`; stated by the lemmas beside it |
| CenterScrollTabLayoutState.ViewportChangeAloneIsIgnored | app/src/main/java/com/example/centertab/CenterScrollTabLayoutState.kt:19-42 | a snapshot whose visible items equal the previous ones leaves the centre index flow unchanged, whatever its viewport width |
| CenterScrollTabLayoutState.ItemListChangeIsMapped | app/src/main/java/com/example/centertab/CenterScrollTabLayoutState.kt:19-43 | a snapshot with a new item list is mapped at its own width, and that index is appended exactly when it differs from the last emitted index |
| CenterScrollTabLayoutState.CenterItemIndexFlowProperties | app/src/main/java/com/example/centertab/CenterScrollTabLayoutState.kt:32-43 | the emitted centre indices never repeat back to back; each is 0 or an index of an item visible in some snapshot; the latest emitted index is the one computed from the latest snapshot |
| CenterScrollTabLayout.GetOrNull | app/src/main/java/com/example/centertab/CenterScrollTabLayout.kt:81 | `getOrNull`: the element for an index in range, nothing otherwise; `IsSelected` states what this gives |
| CenterScrollTabLayout.IsSelected | app/src/main/java/com/example/centertab/CenterScrollTabLayout.kt:81 | an item is selected exactly when the centre index is within the list and the item there equals it, so none is selected for an index out of range |
| CenterScrollTabLayout.SelectionIsUnique | app/src/main/java/com/example/centertab/CenterScrollTabLayout.kt:77-81 | with unique labels (the lazy-list keys), exactly the tab at the centre index is selected |
| CenterScrollTabLayout.EdgePadding | app/src/main/java/com/example/centertab/CenterScrollTabLayout.kt:95 | `(containerWidth.div(2) - width.div(2)).coerceAtLeast(0)`: non-negative, at least the halved difference, and equal to it unless 0 |
| CenterScrollTabLayout.AfterSizeChange | app/src/main/java/com/example/centertab/CenterScrollTabLayout.kt:94-98 | index 0 sets the start padding from the reported width; otherwise the last index sets the end padding; any other index leaves both |
| CenterScrollTabLayout.AfterSizeChanges | app/src/main/java/com/example/centertab/CenterScrollTabLayout.kt:90-98 | the paddings after a run of callbacks, oldest first; stated by the lemmas below |
| CenterScrollTabLayout.SizeChangesKeepNonNegative | app/src/main/java/com/example/centertab/CenterScrollTabLayout.kt:95-97 | over any run of callbacks, whatever positions the item takes, both paddings stay non-negative |
| CenterScrollTabLayout.SizeChangesKeepInvariant | app/src/main/java/com/example/centertab/CenterScrollTabLayout.kt:82-98 | while the item keeps its index and the list its length: only the first item has a start padding, and a middle item or the sole item of a one-item list keeps end padding 0 |
| CenterScrollTabLayout.MovedItemKeepsPadding | app/src/main/java/com/example/centertab/CenterScrollTabLayout.kt:75-98 | a tab padded as first of three that becomes the middle one keeps its 400 px start padding, breaking the positional invariant |
| CenterScrollTabLayout.LatestSizeChangeWins | app/src/main/java/com/example/centertab/CenterScrollTabLayout.kt:90-98 | after a run of callbacks, the last one decides: its edge padding is the start padding if it came from index 0, and the end padding if it came from a last, non-first index |
| CenterScrollTabLayout.ReportedWidth | app/src/main/java/com/example/centertab/CenterScrollTabLayout.kt:89-105 | `onSizeChanged` precedes `padding` in the modifier chain, so it reports the content width plus both current paddings; `Relayout` feeds that back |
| CenterScrollTabLayout.Relayout | app/src/main/java/com/example/centertab/CenterScrollTabLayout.kt:89-105 | one callback round for a tab of fixed content width; stated by the three lemmas below |
| CenterScrollTabLayout.FirstCallbackCentres | app/src/main/java/com/example/centertab/CenterScrollTabLayout.kt:94-95 | the first callback from (0, 0) centres a first tab that fits the viewport to within half a pixel |
| CenterScrollTabLayout.PaddingFeedbackExample | app/src/main/java/com/example/centertab/CenterScrollTabLayout.kt:89-105 | a 200 px first tab in a 1000 px viewport gets 400, 200, 300, 250 in turn, and 267 is a fixed point, which puts the tab's centre at 367 instead of 500 |
| CenterScrollTabLayout.StablePaddingIsAThird | app/src/main/java/com/example/centertab/CenterScrollTabLayout.kt:89-105 | a positive start padding the callback no longer changes is within a third of a pixel of a third of the free space, so the tab's centre stays left of the viewport's by about half the padding |
| CenterScrollTabLayout.PaddingFeedbackCycles | app/src/main/java/com/example/centertab/CenterScrollTabLayout.kt:89-105 | a 201 px first tab in a 1000 px viewport alternates between start paddings 266 and 267, and no start padding is left unchanged by the callback |
| CenterScrollTabLayout.ItemPadding.constructor | app/src/main/java/com/example/centertab/CenterScrollTabLayout.kt:82-87 | both remembered paddings start at 0 |
| CenterScrollTabLayout.ItemPadding.OnSizeChanged | app/src/main/java/com/example/centertab/CenterScrollTabLayout.kt:90-99 | the callback for a reported width: the new state is `AfterSizeChange` of the old one, and the padding invariant for the callback's position is preserved |
| LensLayout.StartZoomRatio | app/src/main/java/com/example/centertab/LensLayout.kt:178-181 | the ratio that positions a lens: `zoomRatio` of a single lens, `startZoomRatio` of a range; the start factor lemmas are stated with it |
| LensLayout.StartFactor | app/src/main/java/com/example/centertab/LensLayout.kt:178-184 | undefined (no finite quotient) exactly for a zero-length range. Otherwise the factor times the range length is the start ratio's distance from the range start; it is 0 at the range start and 1 at the range end |
| LensLayout.StartFactorInUnitRange | app/src/main/java/com/example/centertab/LensLayout.kt:182-184 | a start ratio inside a proper range gets a factor in [0, 1] |
| LensLayout.StartFactorMonotone | app/src/main/java/com/example/centertab/LensLayout.kt:178-184 | a larger start ratio never gets a smaller factor |
| LensLayout.HorizonPadding | app/src/main/java/com/example/centertab/LensLayout.kt:129 | the padding is 0 when collapsed and the truncated half of the container when expanded; for ratios in [0, 1] and a non-negative container it lies between the two |
| LensLayout.PlaceLens | app/src/main/java/com/example/centertab/LensLayout.kt:138-144 | one pass of the loop body for one lens; `PlaceLensProperties` states what it computes |
| LensLayout.PlaceLensProperties | app/src/main/java/com/example/centertab/LensLayout.kt:138-144 | the expanded start centres the lens on its factor's share of 1900 to within half a pixel; the start in the lens row is the packed start at ratio 0, the expanded start at ratio 1, and between them otherwise; the end is one width further; the layout start adds the padding |
| LensLayout.AreaOf | app/src/main/java/com/example/centertab/LensLayout.kt:148-152 | a lens's fractional range is undefined exactly when the lens row width is 0 |
| LensLayout.AreaScalesBack | app/src/main/java/com/example/centertab/LensLayout.kt:148-152 | the range's ends times the lens row width give back the lens's start and end in the row |
| LensLayout.PlacedPrefixStep | app/src/main/java/com/example/centertab/LensLayout.kt:137-153 | placing the next lens at the running `left` extends the placed prefix by one lens and one range |
| LensLayout.PlaceLenses | app/src/main/java/com/example/centertab/LensLayout.kt:134-153 | fails exactly when a child lacks parent data, reporting the first one. Otherwise it places every lens in order: packed starts accumulate from the padding; one range is recorded per lens |
| LensLayout.MeasureAndPlace | app/src/main/java/com/example/centertab/LensLayout.kt:109-153 | fails exactly when a child lacks parent data. Otherwise: the height is the max fold; the packed width is the sum; the lens row width interpolates from it to 1900; the layout width adds twice the padding; lenses are placed as above |
| LensLayout.LayoutBounds | app/src/main/java/com/example/centertab/LensLayout.kt:109-146 | for ratios in [0, 1]: the height is the tallest child; the padding is between 0 and half the container; the row width is between the packed width and 1900; packed starts begin at the padding and advance by each width; each lens lies between its packed and expanded start |
| LensLayout.SpansAndRanges | app/src/main/java/com/example/centertab/LensLayout.kt:143-152 | every lens spans exactly its width and is shifted by the padding; it has one range, absent exactly for a zero-width row, whose ends scale back to its start and end |
| LensLayout.CollapsedIsPackedRow | app/src/main/java/com/example/centertab/LensLayout.kt:126-146 | at ratio 0: no padding; the row is the packed width; lens `i` starts at the widths before it; the lenses sit edge to edge from 0 to the packed width |
| LensLayout.CollapsedAreasTileRow | app/src/main/java/com/example/centertab/LensLayout.kt:148-152 | at ratio 0 the ranges tile [0, 1]: the first starts at 0, each starts where the previous ends, and the last ends at 1 |
| LensLayout.ExpandedAtStartFactors | app/src/main/java/com/example/centertab/LensLayout.kt:125-144 | at ratio 1: the row is 1900 wide and the padding is half the container; lens `i` starts at `round(startFactor * 1900 - width / 2)` plus that padding, so it is centred on its factor's share of 1900 to within half a pixel |

## Left out

- KotlinMath.Lerp: the Compose `lerp(Int, Int, Float)` is not part of this model. It is assumed to be `start + roundToInt((stop - start) * fraction)`, and only the properties that follow from that are used.
- KotlinMath.Round: `roundToInt` is modelled on exact reals as rounding half up. NaN, infinities and saturation at the `Int` range are not modelled.
- `Int` is unbounded here. 32-bit wrap-around of the width sums and paddings is not modelled.
- `Float` is exact real arithmetic. Rounding error is not modelled. A division by zero (a zero-length zoom range, a zero-width lens row) gives no value instead of an infinity or NaN.
- Rendering and styling are left out, because they hold no layout arithmetic: `Surface`, `Tab`, `Text`, colours, previews, `MainActivity.kt` and the lens composables.
- The `InsufficientBackgroundTint` canvas drawing is left out (it is drawing code); only the range list it receives is modelled.
- Framework measurement is an input: `subcompose`, `measure`, `maxIntrinsicHeight`, `placeRelative`, `layout`, `Constraints` and `horizontalScroll`. Children arrive as measured widths and intrinsic heights. The `minWidth = 50` tab constraint is therefore not enforced on them.
- `placeRelative` is not modelled beyond the recorded `TabPosition`s and lens starts.
- Coroutines and flows become functions over finite sequences of snapshots or events: `LaunchedEffect`, `snapshotFlow`, `collect`, `collectAsState`.
- CenterScrollTabLayoutState.CenterItemIndexFlow: a snapshot stands for one observation of the visible item list, and an emitted list is mapped with the viewport width of that same snapshot. In the program the `map` stage may run later, after the width has changed again; that delay is not modelled.
- CenterScrollTabLayout.SizeChangesKeepInvariant: the positional invariant is proved only while the item keeps its index and the list its length. Across reorders, insertions and removals only non-negativity holds (`SizeChangesKeepNonNegative`), and `MovedItemKeepsPadding` shows the invariant failing.
- CenterScrollTabLayout.Relayout: the framework's re-measure after a padding change is modelled as one more callback with the padded width; how many rounds run before drawing is not modelled.
- The state methods the tab strip calls are not defined in the repository, so they are not part of this model: `onLaidOut`, `scrollToCenterOfIndex`, `centerItemIndex`, `rememberCenterTabLayoutState` and `rememberLensLayoutState`. The snap target is taken as an input, the centre index current at each event. No offset-to-centre formula is invented.
- `CenterTabLayoutState` is an empty class. `ZoomRatioToPxPolicy.zoomRatioToPx` has an empty body. Neither is modelled.
- `Log.d`, the commented-out blocks and the unused `selectedIndex` parameter have no effect and are not modelled.
