/**
 * `CenterTabLayout`: a horizontally scrolling tab strip padded so that its
 * first tab can sit in the middle of the container at scroll 0 and its last
 * tab at the largest scroll offset. Modelled are the measure/place arithmetic
 * of its `SubcomposeLayout` and the drag-release loop of its `LaunchedEffect`.
 */
module CenterTabLayout {
  import opened Wrappers
  import opened KotlinMath
  import opened Measure

  /** What the framework reports for one tab: its maximum intrinsic height and its measured width. */
  datatype MeasuredTab = MeasuredTab(intrinsicHeight: int, width: int)

  /** Where one tab was placed in the strip. */
  datatype TabPosition = TabPosition(left: int, width: int)

  /** The result of one layout pass. */
  datatype TabRowGeometry = TabRowGeometry(
    layoutWidth: int,
    layoutHeight: int,
    startPadding: int,
    endPadding: int,
    tabPositions: seq<TabPosition>)

  /** `first()` / `last()` on an empty list of tabs throw `NoSuchElementException`. */
  datatype LayoutError = NoTabs

  /** The measured widths, in child order. */
  function Widths(tabs: seq<MeasuredTab>): seq<int>
  {
    Project(tabs, (c: MeasuredTab) => c.width)
  }

  /** The intrinsic heights, in child order. */
  function Heights(tabs: seq<MeasuredTab>): seq<int>
  {
    Project(tabs, (c: MeasuredTab) => c.intrinsicHeight)
  }

  /** What a layout pass over `tabs` in a container `containerWidth` wide produces. */
  ghost predicate IsTabRowLayout(containerWidth: int, tabs: seq<MeasuredTab>, g: TabRowGeometry)
  {
    && tabs != []
    && g.layoutHeight == FoldMax(0, Heights(tabs))
    && g.startPadding == Half(containerWidth - tabs[0].width)
    && g.endPadding == Half(containerWidth - tabs[|tabs| - 1].width)
    && g.layoutWidth == Sum(Widths(tabs)) + g.startPadding + g.endPadding
    && |g.tabPositions| == |tabs|
    && forall i :: 0 <= i < |tabs| ==>
         g.tabPositions[i] == TabPosition(g.startPadding + Sum(Widths(tabs)[..i]), tabs[i].width)
  }

  /**
   * The placement loop: `left` starts at the start padding and advances by
   * each tab's width; one position is recorded per tab, in order.
   */
  method PlaceTabs(startPadding: int, widths: seq<int>) returns (tabPositions: seq<TabPosition>)
    ensures |tabPositions| == |widths|
    ensures forall i :: 0 <= i < |widths| ==>
              tabPositions[i] == TabPosition(startPadding + Sum(widths[..i]), widths[i])
  {
    var left := startPadding;
    tabPositions := [];
    var i := 0;
    while i < |widths|
      invariant 0 <= i <= |widths|
      invariant |tabPositions| == i
      invariant left == startPadding + Sum(widths[..i])
      invariant forall k :: 0 <= k < i ==>
                  tabPositions[k] == TabPosition(startPadding + Sum(widths[..k]), widths[k])
    {
      tabPositions := tabPositions + [TabPosition(left, widths[i])];
      SumPrefixStep(widths, i);
      left := left + widths[i];
      i := i + 1;
    }
  }

  /**
   * One measure/place pass. Fails exactly when there are no tabs; otherwise
   * the height is the height fold, the paddings are half the space the
   * first/last tab leaves in the container (truncated, not clamped), the width
   * is the width fold plus both paddings, and tabs are placed left to right
   * from the start padding.
   */
  method MeasureAndPlace(containerWidth: int, tabs: seq<MeasuredTab>)
    returns (r: Result<TabRowGeometry, LayoutError>)
    ensures r.Failure? <==> tabs == []
    ensures r.Success? ==> IsTabRowLayout(containerWidth, tabs, r.value)
  {
    var layoutHeight := FoldMax(0, Heights(tabs));
    var widths := Widths(tabs);
    var accTabsWidth := FoldSum(0, widths);
    FoldSumIsSum(0, widths);
    if tabs == [] {
      return Failure(NoTabs);
    }
    var startPadding := Half(containerWidth - tabs[0].width);
    var endPadding := Half(containerWidth - tabs[|tabs| - 1].width);
    var layoutWidth := accTabsWidth + startPadding + endPadding;
    var tabPositions := PlaceTabs(startPadding, widths);
    r := Success(TabRowGeometry(layoutWidth, layoutHeight, startPadding, endPadding, tabPositions));
  }

  /** The layout is at least as tall as every tab, never negative, and as tall as some tab unless 0. */
  lemma LayoutHeightIsMax(containerWidth: int, tabs: seq<MeasuredTab>, g: TabRowGeometry)
    requires IsTabRowLayout(containerWidth, tabs, g)
    ensures g.layoutHeight >= 0
    ensures forall i :: 0 <= i < |tabs| ==> tabs[i].intrinsicHeight <= g.layoutHeight
    ensures g.layoutHeight == 0 || exists i :: 0 <= i < |tabs| && g.layoutHeight == tabs[i].intrinsicHeight
  {
    var hs := Heights(tabs);
    assert forall i :: 0 <= i < |tabs| ==> hs[i] == tabs[i].intrinsicHeight;
  }

  /**
   * Tabs are contiguous: the first starts at the start padding, each next one
   * starts where the previous ends, and the last one's right edge plus the end
   * padding is the layout width.
   */
  lemma TabsContiguous(containerWidth: int, tabs: seq<MeasuredTab>, g: TabRowGeometry)
    requires IsTabRowLayout(containerWidth, tabs, g)
    ensures g.tabPositions[0].left == g.startPadding
    ensures forall i :: 0 <= i < |tabs| - 1 ==>
              g.tabPositions[i + 1].left == g.tabPositions[i].left + g.tabPositions[i].width
    ensures g.tabPositions[|tabs| - 1].left + g.tabPositions[|tabs| - 1].width + g.endPadding == g.layoutWidth
  {
    var ws := Widths(tabs);
    assert ws[..0] == [];
    forall i | 0 <= i < |tabs| - 1
      ensures g.tabPositions[i + 1].left == g.tabPositions[i].left + g.tabPositions[i].width
    {
      SumPrefixStep(ws, i);
    }
    SumPrefixStep(ws, |tabs| - 1);
    SumWhole(ws);
  }

  /**
   * At scroll 0 the first tab's centre is within half a pixel of the
   * container's centre: `2 * left + width` differs from the container width
   * by at most 1. When the tab is wider than the container the start padding
   * is negative.
   */
  lemma FirstTabCentredAtScrollStart(containerWidth: int, tabs: seq<MeasuredTab>, g: TabRowGeometry)
    requires IsTabRowLayout(containerWidth, tabs, g)
    ensures -1 <= containerWidth - (2 * g.tabPositions[0].left + g.tabPositions[0].width) <= 1
    ensures tabs[0].width > containerWidth + 1 ==> g.startPadding < 0
  {
    TabsContiguous(containerWidth, tabs, g);
  }

  /**
   * At scroll offset `layoutWidth - containerWidth` (the end of the scroll
   * range whenever that offset is not negative) the last tab's centre, taken
   * relative to the viewport, is within half a pixel of the container's
   * centre. A last tab wider than the container gives a negative end padding.
   */
  lemma LastTabCentredAtScrollEnd(containerWidth: int, tabs: seq<MeasuredTab>, g: TabRowGeometry)
    requires IsTabRowLayout(containerWidth, tabs, g)
    ensures var last := g.tabPositions[|tabs| - 1];
            var onScreenLeft := last.left - (g.layoutWidth - containerWidth);
            -1 <= containerWidth - (2 * onScreenLeft + last.width) <= 1
    ensures tabs[|tabs| - 1].width > containerWidth + 1 ==> g.endPadding < 0
  {
    TabsContiguous(containerWidth, tabs, g);
  }

  /** The kinds of interaction a scroll container's interaction source emits. */
  datatype Interaction = DragStart | DragStop | DragCancel | OtherInteraction

  /** A `scrollToCenterOfIndex` request issued while handling event `event`. */
  datatype SnapRequest = SnapRequest(event: nat, targetIndex: int)

  /** Event `k` is a non-start interaction right after a drag start. */
  predicate ReleasesDrag(events: seq<Interaction>, k: int)
    requires 0 <= k < |events|
  {
    k > 0 && events[k - 1].DragStart? && !events[k].DragStart?
  }

  /**
   * The collector over the interaction stream: `lastInteraction` starts null;
   * for each new interaction a snap to the current centre index is requested
   * when the previous one was a drag start and the new one is not; then the
   * new interaction is remembered. `centerIndexAt[k]` is the value of
   * `centerItemIndex` when event `k` arrives.
   */
  method CollectInteractions(events: seq<Interaction>, centerIndexAt: seq<int>)
    returns (requests: seq<SnapRequest>, lastInteraction: Option<Interaction>)
    requires |centerIndexAt| == |events|
    ensures forall j :: 0 <= j < |requests| ==>
              requests[j].event < |events| && ReleasesDrag(events, requests[j].event)
              && requests[j].targetIndex == centerIndexAt[requests[j].event]
    ensures forall k :: 0 <= k < |events| && ReleasesDrag(events, k) ==>
              exists j :: 0 <= j < |requests| && requests[j].event == k
    ensures forall j, j' :: 0 <= j < j' < |requests| ==> requests[j].event < requests[j'].event
    ensures lastInteraction == if events == [] then None else Some(events[|events| - 1])
  {
    lastInteraction := None;
    requests := [];
    var i := 0;
    while i < |events|
      invariant 0 <= i <= |events|
      invariant lastInteraction == if i == 0 then None else Some(events[i - 1])
      invariant forall j :: 0 <= j < |requests| ==>
                  requests[j].event < i && ReleasesDrag(events, requests[j].event)
                  && requests[j].targetIndex == centerIndexAt[requests[j].event]
      invariant forall k :: 0 <= k < i && ReleasesDrag(events, k) ==>
                  exists j :: 0 <= j < |requests| && requests[j].event == k
      invariant forall j, j' :: 0 <= j < j' < |requests| ==> requests[j].event < requests[j'].event
    {
      var next := events[i];
      if lastInteraction.Some? && lastInteraction.value.DragStart? && !next.DragStart? {
        ghost var before := requests;
        requests := requests + [SnapRequest(i, centerIndexAt[i])];
        assert forall j :: 0 <= j < |before| ==> requests[j] == before[j];
        assert requests[|requests| - 1].event == i;
      }
      lastInteraction := Some(next);
      i := i + 1;
    }
  }
}
