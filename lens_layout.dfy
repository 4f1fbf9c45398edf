/**
 * `LensLayout`: a camera zoom-lens picker that animates between a collapsed
 * row, where the lenses are packed edge to edge, and an expanded row 1900 px
 * wide, where each lens sits at its zoom ratio's fraction of the configured
 * ratio range. Every position is interpolated by the animation's
 * `layoutRatio` (0 collapsed, 1 expanded).
 */
module LensLayout {
  import opened Wrappers
  import opened KotlinMath
  import opened Measure

  /** A lens of the picker: one zoom ratio, or a range of them. */
  datatype LensItem = SingleLens(zoomRatio: real) | RangeLens(startZoomRatio: real, endZoomRatio: real)

  /** A `ClosedFloatingPointRange<Float>`, written `start..endInclusive`. */
  datatype FloatRange = FloatRange(start: real, endInclusive: real)

  /** `LENS_LAYOUT_FULLY_EXPANDED_WIDTH`: the lens row's width when fully expanded. */
  const LensLayoutFullyExpandedWidth: int := 1900

  /** The zoom ratio that positions a lens: its only ratio, or the start of its range. */
  function StartZoomRatio(item: LensItem): real
  {
    match item
    case RangeLens(startZoomRatio, _) => startZoomRatio
    case SingleLens(zoomRatio) => zoomRatio
  }

  /**
   * `Modifier.lensItem`'s start factor: where the lens's start ratio lies
   * within the layout's ratio range, as a fraction of the range. A range of
   * zero length has no finite quotient (None); otherwise the factor times the
   * range length gives back the ratio's distance from the range start.
   */
  function StartFactor(item: LensItem, range: FloatRange): (r: Option<real>)
    ensures r.None? <==> range.endInclusive == range.start
    ensures r.Some? ==>
              r.value * (range.endInclusive - range.start) == StartZoomRatio(item) - range.start
    ensures r.Some? && StartZoomRatio(item) == range.start ==> r.value == 0.0
    ensures r.Some? && StartZoomRatio(item) == range.endInclusive ==> r.value == 1.0
  {
    var len := range.endInclusive - range.start;
    if len == 0.0 then None
    else
      var f := (StartZoomRatio(item) - range.start) / len;
      QuotientFacts(StartZoomRatio(item) - range.start, len);
      Some(f)
  }

  /** The two quotients the start factor's contract needs. */
  lemma QuotientFacts(a: real, b: real)
    requires b != 0.0
    ensures (a / b) * b == a
    ensures a == 0.0 ==> a / b == 0.0
    ensures a == b ==> a / b == 1.0
  {
  }

  /** Over a proper range, a start ratio inside the range gets a factor in [0, 1]. */
  lemma StartFactorInUnitRange(item: LensItem, range: FloatRange)
    requires range.start < range.endInclusive
    requires range.start <= StartZoomRatio(item) <= range.endInclusive
    ensures 0.0 <= StartFactor(item, range).value <= 1.0
  {
    var len := range.endInclusive - range.start;
    var f := StartFactor(item, range).value;
    if f < 0.0 {
      PositiveProduct(-f, len);
    }
    if f > 1.0 {
      PositiveProduct(f - 1.0, len);
    }
  }

  /**
   * Over a proper range, a larger start ratio never gets a smaller factor, so
   * the expanded row keeps the lenses in zoom-ratio order.
   */
  lemma StartFactorMonotone(a: LensItem, b: LensItem, range: FloatRange)
    requires range.start < range.endInclusive
    requires StartZoomRatio(a) <= StartZoomRatio(b)
    ensures StartFactor(a, range).value <= StartFactor(b, range).value
  {
    var len := range.endInclusive - range.start;
    var fa := StartFactor(a, range).value;
    var fb := StartFactor(b, range).value;
    assert fa == (StartZoomRatio(a) - range.start) / len;
    assert fb == (StartZoomRatio(b) - range.start) / len;
    DivideByPositive(StartZoomRatio(a) - range.start, StartZoomRatio(b) - range.start, len);
  }

  /** Dividing by a positive number keeps the order. */
  lemma DivideByPositive(x: real, y: real, z: real)
    requires z > 0.0 && x <= y
    ensures x / z <= y / z
  {
  }

  /** The product of two positive reals is positive. */
  lemma PositiveProduct(x: real, y: real)
    requires x > 0.0 && y > 0.0
    ensures x * y > 0.0
  {
  }

  /** The parent data `lensItem` attaches to a child: its start factor. */
  datatype LensItemParentData = LensItemParentData(startFactor: real)

  /** What the framework reports for one lens child: intrinsic height, measured width, parent data if any. */
  datatype LensChild = LensChild(intrinsicHeight: int, width: int, parentData: Option<LensItemParentData>)

  /** The per-lens values of the placement loop. */
  datatype PlacedLens = PlacedLens(
    shrinkStart: int,
    expandStart: int,
    startInLensLayout: int,
    endInLensLayout: int,
    start: int)

  /** The result of one layout pass. */
  datatype LensGeometry = LensGeometry(
    layoutWidth: int,
    layoutHeight: int,
    shrinkWidth: int,
    lensLayoutWidth: int,
    horizonPadding: int,
    placed: seq<PlacedLens>,
    insufficientAreaList: seq<Option<FloatRange>>)

  /** `startFactor!!` on a child that carries no `LensItemParentData` throws. */
  datatype LensError = MissingParentData(index: nat)

  /** The measured widths, in child order. */
  function Widths(children: seq<LensChild>): seq<int>
  {
    Project(children, (c: LensChild) => c.width)
  }

  /** The intrinsic heights, in child order. */
  function Heights(children: seq<LensChild>): seq<int>
  {
    Project(children, (c: LensChild) => c.intrinsicHeight)
  }

  /**
   * `(containerWidth.div(2) * layoutRatio).roundToInt()`: no padding when
   * collapsed, half the container (truncated) when expanded, and between the
   * two in the course of the animation.
   */
  function HorizonPadding(containerWidth: int, layoutRatio: real): (r: int)
    ensures layoutRatio == 0.0 ==> r == 0
    ensures layoutRatio == 1.0 ==> r == Half(containerWidth)
    ensures 0.0 <= layoutRatio <= 1.0 && containerWidth >= 0 ==> 0 <= r <= Half(containerWidth)
  {
    var d := Half(containerWidth) as real * layoutRatio;
    assert (layoutRatio == 0.0 ==> Round(d) == 0) && (layoutRatio == 1.0 ==> Round(d) == Half(containerWidth))
      && (0.0 <= layoutRatio <= 1.0 && containerWidth >= 0 ==> 0 <= Round(d) <= Half(containerWidth)) by {
      LerpStep(Half(containerWidth), layoutRatio);
    }
    Round(d)
  }

  /**
   * One lens's placement, as the loop body computes it: the expanded start,
   * the start within the lens row interpolated between packed and expanded
   * start, the end one width further, and the start in the whole layout.
   */
  function PlaceLens(shrinkStart: int, width: int, startFactor: real, layoutRatio: real, horizonPadding: int)
    : PlacedLens
  {
    var halfWidth := width as real / 2.0;
    var expandStart := Round(startFactor * LensLayoutFullyExpandedWidth as real - halfWidth);
    var startInLensLayout := Lerp(shrinkStart, expandStart, layoutRatio);
    var endInLensLayout := startInLensLayout + width;
    PlacedLens(shrinkStart, expandStart, startInLensLayout, endInLensLayout, startInLensLayout + horizonPadding)
  }

  /**
   * A placed lens keeps its packed start; its expanded start centres it on
   * its start factor's share of the expanded width (to within half a pixel);
   * its start in the lens row is the packed start when collapsed, the
   * expanded start when expanded and between the two in between; it spans
   * exactly its width and is shifted right by the horizontal padding.
   */
  lemma PlaceLensProperties(shrinkStart: int, width: int, startFactor: real, layoutRatio: real, horizonPadding: int)
    ensures var p := PlaceLens(shrinkStart, width, startFactor, layoutRatio, horizonPadding);
            && p.shrinkStart == shrinkStart
            && -1.0 < (2 * p.expandStart + width) as real - 2.0 * startFactor * LensLayoutFullyExpandedWidth as real <= 1.0
            && (layoutRatio == 0.0 ==> p.startInLensLayout == shrinkStart)
            && (layoutRatio == 1.0 ==> p.startInLensLayout == p.expandStart)
            && (0.0 <= layoutRatio <= 1.0 ==>
                  (shrinkStart <= p.startInLensLayout <= p.expandStart || p.expandStart <= p.startInLensLayout <= shrinkStart))
            && p.endInLensLayout == p.startInLensLayout + width
            && p.start == p.startInLensLayout + horizonPadding
  {
    var x := startFactor * LensLayoutFullyExpandedWidth as real - width as real / 2.0;
    var e := Round(x);
    assert x - 0.5 < e as real <= x + 0.5;
  }

  /**
   * The fractional range `start / lensLayoutWidth .. end / lensLayoutWidth`
   * added for one lens; a zero-width lens row has no finite quotient (None).
   */
  function AreaOf(p: PlacedLens, lensLayoutWidth: int): (r: Option<FloatRange>)
    ensures r.None? <==> lensLayoutWidth == 0
  {
    if lensLayoutWidth == 0 then None
    else
      Some(FloatRange(p.startInLensLayout as real / lensLayoutWidth as real,
                      p.endInLensLayout as real / lensLayoutWidth as real))
  }

  /** Multiplying a lens's fractions back by the lens row width gives its span. */
  lemma AreaScalesBack(p: PlacedLens, lensLayoutWidth: int)
    requires lensLayoutWidth != 0
    ensures AreaOf(p, lensLayoutWidth).value.start * lensLayoutWidth as real == p.startInLensLayout as real
    ensures AreaOf(p, lensLayoutWidth).value.endInclusive * lensLayoutWidth as real == p.endInLensLayout as real
  {
    QuotientFacts(p.startInLensLayout as real, lensLayoutWidth as real);
    QuotientFacts(p.endInLensLayout as real, lensLayoutWidth as real);
  }

  /** Every child carries parent data. */
  predicate AllHaveParentData(children: seq<LensChild>)
  {
    forall i :: 0 <= i < |children| ==> children[i].parentData.Some?
  }

  /** What a layout pass over `children` at `layoutRatio` in a container `containerWidth` wide produces. */
  ghost predicate IsLensLayout(containerWidth: int, layoutRatio: real, children: seq<LensChild>, g: LensGeometry)
  {
    && AllHaveParentData(children)
    && g.layoutHeight == FoldMax(0, Heights(children))
    && g.shrinkWidth == Sum(Widths(children))
    && g.lensLayoutWidth == Lerp(g.shrinkWidth, LensLayoutFullyExpandedWidth, layoutRatio)
    && g.horizonPadding == HorizonPadding(containerWidth, layoutRatio)
    && g.layoutWidth == g.lensLayoutWidth + 2 * g.horizonPadding
    && |g.placed| == |children|
    && PlacedPrefix(g.horizonPadding, g.lensLayoutWidth, layoutRatio, children, g.placed, g.insufficientAreaList)
  }

  /**
   * The first `|placed|` lenses are placed as the loop places them, packed
   * starts accumulating from the horizontal padding, with one range each.
   */
  ghost predicate PlacedPrefix(horizonPadding: int, lensLayoutWidth: int, layoutRatio: real, children: seq<LensChild>,
                               placed: seq<PlacedLens>, areas: seq<Option<FloatRange>>)
  {
    && |placed| == |areas| <= |children|
    && forall j {:trigger placed[j]} :: 0 <= j < |placed| ==>
         && children[j].parentData.Some?
         && placed[j] == PlaceLens(horizonPadding + Sum(Widths(children)[..j]), children[j].width,
                                   children[j].parentData.value.startFactor, layoutRatio, horizonPadding)
         && areas[j] == AreaOf(placed[j], lensLayoutWidth)
  }

  /** Placing the next lens at the running `left` extends the placed prefix by one. */
  lemma PlacedPrefixStep(horizonPadding: int, lensLayoutWidth: int, layoutRatio: real, children: seq<LensChild>,
                         placed: seq<PlacedLens>, areas: seq<Option<FloatRange>>, p: PlacedLens)
    requires PlacedPrefix(horizonPadding, lensLayoutWidth, layoutRatio, children, placed, areas)
    requires |placed| < |children| && children[|placed|].parentData.Some?
    requires p == PlaceLens(horizonPadding + Sum(Widths(children)[..|placed|]), children[|placed|].width,
                            children[|placed|].parentData.value.startFactor, layoutRatio, horizonPadding)
    ensures PlacedPrefix(horizonPadding, lensLayoutWidth, layoutRatio, children,
                         placed + [p], areas + [AreaOf(p, lensLayoutWidth)])
  {
    var placed', areas' := placed + [p], areas + [AreaOf(p, lensLayoutWidth)];
    forall j | 0 <= j < |placed'|
      ensures && children[j].parentData.Some?
              && placed'[j] == PlaceLens(horizonPadding + Sum(Widths(children)[..j]), children[j].width,
                                         children[j].parentData.value.startFactor, layoutRatio, horizonPadding)
              && areas'[j] == AreaOf(placed'[j], lensLayoutWidth)
    {
      if j < |placed| {
        assert placed'[j] == placed[j] && areas'[j] == areas[j];
      }
    }
  }

  /**
   * The `layout { }` block: lenses are placed in order with a running `left`
   * that starts at the horizontal padding and advances by each lens's width,
   * and one fractional range is recorded per lens. It stops at the first
   * child without parent data.
   */
  method PlaceLenses(horizonPadding: int, lensLayoutWidth: int, layoutRatio: real, children: seq<LensChild>)
    returns (r: Result<(seq<PlacedLens>, seq<Option<FloatRange>>), LensError>)
    ensures r.Failure? <==> !AllHaveParentData(children)
    ensures r.Failure? ==>
              r.error.index < |children| && children[r.error.index].parentData.None?
              && forall j :: 0 <= j < r.error.index ==> children[j].parentData.Some?
    ensures r.Success? ==>
              |r.value.0| == |children|
              && PlacedPrefix(horizonPadding, lensLayoutWidth, layoutRatio, children, r.value.0, r.value.1)
  {
    var widths := Widths(children);
    var left := horizonPadding;
    var placed: seq<PlacedLens> := [];
    var insufficientAreaList: seq<Option<FloatRange>> := [];
    var i := 0;
    while i < |children|
      invariant 0 <= i <= |children|
      invariant forall j :: 0 <= j < i ==> children[j].parentData.Some?
      invariant left == horizonPadding + Sum(widths[..i])
      invariant |placed| == i
      invariant PlacedPrefix(horizonPadding, lensLayoutWidth, layoutRatio, children, placed, insufficientAreaList)
    {
      var child := children[i];
      if child.parentData.None? {
        return Failure(MissingParentData(i));
      }
      var shrinkStart := left;
      var p := PlaceLens(shrinkStart, child.width, child.parentData.value.startFactor, layoutRatio, horizonPadding);
      PlacedPrefixStep(horizonPadding, lensLayoutWidth, layoutRatio, children, placed, insufficientAreaList, p);
      placed := placed + [p];
      insufficientAreaList := insufficientAreaList + [AreaOf(p, lensLayoutWidth)];
      SumPrefixStep(widths, i);
      left := left + child.width;
      i := i + 1;
    }
    r := Success((placed, insufficientAreaList));
  }

  /**
   * One measure/place pass. It fails exactly when some child has no parent
   * data, reporting the first such child; otherwise the height and the
   * packed width are the two folds, the lens row width is interpolated from
   * the packed width to 1900, the padding grows with the ratio, and the
   * lenses are placed as `PlaceLenses` does.
   */
  method MeasureAndPlace(containerWidth: int, layoutRatio: real, children: seq<LensChild>)
    returns (r: Result<LensGeometry, LensError>)
    ensures r.Failure? <==> !AllHaveParentData(children)
    ensures r.Failure? ==>
              r.error.index < |children| && children[r.error.index].parentData.None?
              && forall j :: 0 <= j < r.error.index ==> children[j].parentData.Some?
    ensures r.Success? ==> IsLensLayout(containerWidth, layoutRatio, children, r.value)
  {
    var layoutHeight := FoldMax(0, Heights(children));
    var widths := Widths(children);
    var shrinkWidth := FoldSum(0, widths);
    FoldSumIsSum(0, widths);
    var expandWidth := LensLayoutFullyExpandedWidth;
    var lensLayoutWidth := Lerp(shrinkWidth, expandWidth, layoutRatio);
    var horizonPadding := HorizonPadding(containerWidth, layoutRatio);
    var layoutWidth := lensLayoutWidth + horizonPadding * 2;
    var placement := PlaceLenses(horizonPadding, lensLayoutWidth, layoutRatio, children);
    match placement
    case Failure(e) =>
      r := Failure(e);
    case Success((placed, insufficientAreaList)) =>
      r := Success(LensGeometry(layoutWidth, layoutHeight, shrinkWidth, lensLayoutWidth, horizonPadding,
                                placed, insufficientAreaList));
  }

  /**
   * At any ratio in [0, 1]: the height is the tallest child (at least 0), the
   * padding is between 0 and half the container, the lens row width is
   * between the packed width and 1900, packed starts advance by each lens's
   * width from the horizontal padding, and every lens sits between its packed
   * and expanded start.
   */
  lemma LayoutBounds(containerWidth: int, layoutRatio: real, children: seq<LensChild>, g: LensGeometry)
    requires IsLensLayout(containerWidth, layoutRatio, children, g)
    requires 0.0 <= layoutRatio <= 1.0
    requires containerWidth >= 0
    ensures g.layoutHeight >= 0
    ensures forall i :: 0 <= i < |children| ==> children[i].intrinsicHeight <= g.layoutHeight
    ensures 0 <= g.horizonPadding <= Half(containerWidth)
    ensures g.shrinkWidth <= g.lensLayoutWidth <= LensLayoutFullyExpandedWidth
            || LensLayoutFullyExpandedWidth <= g.lensLayoutWidth <= g.shrinkWidth
    ensures |children| > 0 ==> g.placed[0].shrinkStart == g.horizonPadding
    ensures forall i :: 0 <= i < |children| - 1 ==>
              g.placed[i + 1].shrinkStart == g.placed[i].shrinkStart + children[i].width
    ensures forall i :: 0 <= i < |children| ==>
              var p := g.placed[i];
              p.shrinkStart <= p.startInLensLayout <= p.expandStart || p.expandStart <= p.startInLensLayout <= p.shrinkStart
  {
    var ws := Widths(children);
    var hs := Heights(children);
    assert forall i :: 0 <= i < |children| ==> hs[i] == children[i].intrinsicHeight;
    assert ws[..0] == [];
    forall i | 0 <= i < |children| - 1
      ensures g.placed[i + 1].shrinkStart == g.placed[i].shrinkStart + children[i].width
    {
      SumPrefixStep(ws, i);
    }
  }

  /**
   * At any ratio, every lens spans exactly its width in the lens row, is
   * shifted right by the horizontal padding in the layout, and gets one range
   * in item order whose ends, scaled back by the lens row width, are its
   * start and end in the lens row; a zero-width lens row gives no range.
   */
  lemma SpansAndRanges(containerWidth: int, layoutRatio: real, children: seq<LensChild>, g: LensGeometry)
    requires IsLensLayout(containerWidth, layoutRatio, children, g)
    ensures |g.insufficientAreaList| == |children|
    ensures forall i :: 0 <= i < |children| ==>
              && g.placed[i].endInLensLayout == g.placed[i].startInLensLayout + children[i].width
              && g.placed[i].start == g.placed[i].startInLensLayout + g.horizonPadding
              && (g.insufficientAreaList[i].None? <==> g.lensLayoutWidth == 0)
              && (g.lensLayoutWidth != 0 ==>
                    && g.insufficientAreaList[i].value.start * g.lensLayoutWidth as real
                         == g.placed[i].startInLensLayout as real
                    && g.insufficientAreaList[i].value.endInclusive * g.lensLayoutWidth as real
                         == g.placed[i].endInLensLayout as real)
  {
    forall i | 0 <= i < |children| {
      SpanAndRangeAt(g.horizonPadding, g.lensLayoutWidth, layoutRatio, children, g.placed, g.insufficientAreaList, i);
    }
  }

  /** `SpansAndRanges` for lens `i` of a placed prefix. */
  lemma SpanAndRangeAt(horizonPadding: int, lensLayoutWidth: int, layoutRatio: real, children: seq<LensChild>,
                       placed: seq<PlacedLens>, areas: seq<Option<FloatRange>>, i: nat)
    requires PlacedPrefix(horizonPadding, lensLayoutWidth, layoutRatio, children, placed, areas)
    requires i < |placed|
    ensures placed[i].endInLensLayout == placed[i].startInLensLayout + children[i].width
    ensures placed[i].start == placed[i].startInLensLayout + horizonPadding
    ensures areas[i].None? <==> lensLayoutWidth == 0
    ensures lensLayoutWidth != 0 ==>
              && areas[i].value.start * lensLayoutWidth as real == placed[i].startInLensLayout as real
              && areas[i].value.endInclusive * lensLayoutWidth as real == placed[i].endInLensLayout as real
  {
    var p := placed[i];
    var sf := children[i].parentData.value.startFactor;
    var shrinkStart := horizonPadding + Sum(Widths(children)[..i]);
    assert p == PlaceLens(shrinkStart, children[i].width, sf, layoutRatio, horizonPadding);
    PlaceLensProperties(shrinkStart, children[i].width, sf, layoutRatio, horizonPadding);
    if lensLayoutWidth != 0 {
      AreaScalesBack(placed[i], lensLayoutWidth);
    }
  }

  /**
   * Collapsed (`layoutRatio == 0`): no padding, the lens row is exactly the
   * packed width, lens `i` is placed at the sum of the widths before it, and
   * the lenses are edge to edge from 0 to the packed width.
   */
  lemma CollapsedIsPackedRow(containerWidth: int, children: seq<LensChild>, g: LensGeometry)
    requires IsLensLayout(containerWidth, 0.0, children, g)
    ensures g.horizonPadding == 0
    ensures g.lensLayoutWidth == g.shrinkWidth == Sum(Widths(children))
    ensures g.layoutWidth == g.shrinkWidth
    ensures forall i :: 0 <= i < |children| ==> g.placed[i].start == Sum(Widths(children)[..i])
    ensures |children| > 0 ==> g.placed[0].start == 0
    ensures forall i :: 0 <= i < |children| - 1 ==>
              g.placed[i].endInLensLayout == g.placed[i + 1].startInLensLayout
    ensures |children| > 0 ==> g.placed[|children| - 1].endInLensLayout == g.shrinkWidth
  {
    var ws := Widths(children);
    assert ws[..0] == [];
    forall i | 0 <= i < |children| - 1
      ensures g.placed[i].endInLensLayout == g.placed[i + 1].startInLensLayout
    {
      SumPrefixStep(ws, i);
    }
    if |children| > 0 {
      SumPrefixStep(ws, |children| - 1);
      SumWhole(ws);
    }
  }

  /**
   * Collapsed, a non-empty lens row is covered by the lens ranges without gap
   * or overlap: the first starts at 0, each next one starts where the previous
   * ends, and the last ends at 1.
   */
  lemma CollapsedAreasTileRow(containerWidth: int, children: seq<LensChild>, g: LensGeometry)
    requires IsLensLayout(containerWidth, 0.0, children, g)
    requires |children| > 0 && g.shrinkWidth != 0
    ensures forall i :: 0 <= i < |children| ==> g.insufficientAreaList[i].Some?
    ensures g.insufficientAreaList[0].value.start == 0.0
    ensures forall i :: 0 <= i < |children| - 1 ==>
              g.insufficientAreaList[i].value.endInclusive == g.insufficientAreaList[i + 1].value.start
    ensures g.insufficientAreaList[|children| - 1].value.endInclusive == 1.0
  {
    CollapsedIsPackedRow(containerWidth, children, g);
    var n := |children|;
    var w := g.lensLayoutWidth as real;
    forall i | 0 <= i < n
      ensures g.insufficientAreaList[i] == Some(FloatRange(g.placed[i].startInLensLayout as real / w,
                                                           g.placed[i].endInLensLayout as real / w))
    {
    }
    QuotientFacts(w, w);
  }

  /**
   * Expanded (`layoutRatio == 1`): the lens row is 1900 wide, the padding is
   * half the container, lens `i` is placed at
   * `round(startFactor * 1900 - width / 2) + containerWidth / 2`, and its
   * centre is within half a pixel of its start factor's share of 1900.
   */
  lemma ExpandedAtStartFactors(containerWidth: int, children: seq<LensChild>, g: LensGeometry)
    requires IsLensLayout(containerWidth, 1.0, children, g)
    ensures g.lensLayoutWidth == LensLayoutFullyExpandedWidth
    ensures g.horizonPadding == Half(containerWidth)
    ensures g.layoutWidth == LensLayoutFullyExpandedWidth + 2 * Half(containerWidth)
    ensures forall i :: 0 <= i < |children| ==>
              var sf := children[i].parentData.value.startFactor;
              g.placed[i].start == Round(sf * 1900.0 - children[i].width as real / 2.0) + Half(containerWidth)
    ensures forall i :: 0 <= i < |children| ==>
              var sf := children[i].parentData.value.startFactor;
              var p := g.placed[i];
              -1.0 < (2 * p.startInLensLayout + children[i].width) as real - 2.0 * sf * 1900.0 <= 1.0
  {
    forall i | 0 <= i < |children|
      ensures var sf := children[i].parentData.value.startFactor;
              var p := g.placed[i];
              && p.start == Round(sf * 1900.0 - children[i].width as real / 2.0) + Half(containerWidth)
              && -1.0 < (2 * p.startInLensLayout + children[i].width) as real - 2.0 * sf * 1900.0 <= 1.0
    {
      var sf := children[i].parentData.value.startFactor;
      var shrinkStart := g.horizonPadding + Sum(Widths(children)[..i]);
      assert g.placed[i] == PlaceLens(shrinkStart, children[i].width, sf, 1.0, g.horizonPadding);
      PlaceLensProperties(shrinkStart, children[i].width, sf, 1.0, g.horizonPadding);
    }
  }
}
