/**
 * `CenterScrollTabLayout`: the lazy-row tab strip. Each item keeps two
 * remembered padding values, set from its size-change callback so that the
 * first and last items can reach the middle of the viewport, and is drawn
 * selected when it is the item at the centre index.
 */
module CenterScrollTabLayout {
  import opened Wrappers
  import opened KotlinMath

  /** A tab of the strip; its `label` (`labelText` here, `label` being a Dafny keyword) is also its lazy-list key. */
  datatype TabItem = TabItem(labelText: string)

  /** Kotlin's `List.getOrNull`. */
  function GetOrNull<T>(items: seq<T>, i: int): Option<T>
  {
    if 0 <= i < |items| then Some(items[i]) else None
  }

  /**
   * `item == items.getOrNull(centerIndex)`: an item is selected exactly when
   * the centre index is in range and the item there equals it.
   */
  function IsSelected(items: seq<TabItem>, centerIndex: int, item: TabItem): (r: bool)
    ensures r <==> 0 <= centerIndex < |items| && items[centerIndex] == item
    ensures !(0 <= centerIndex < |items|) ==> !r
  {
    Some(item) == GetOrNull(items, centerIndex)
  }

  /** Lazy-list keys are unique: no two tabs share a label. */
  ghost predicate DistinctLabels(items: seq<TabItem>)
  {
    forall i, j :: 0 <= i < j < |items| ==> items[i].labelText != items[j].labelText
  }

  /**
   * With unique keys, exactly the tab at the centre index is drawn selected
   * when the index is in range, and no tab is when it is out of range.
   */
  lemma SelectionIsUnique(items: seq<TabItem>, centerIndex: int)
    requires DistinctLabels(items)
    ensures forall i :: 0 <= i < |items| ==> (IsSelected(items, centerIndex, items[i]) <==> i == centerIndex)
  {
  }

  /**
   * The edge padding an end item gets: half the container minus half the
   * item, each halved on its own by truncating division, clamped at 0.
   */
  function EdgePadding(containerWidth: int, width: int): (r: int)
    ensures r >= 0
    ensures r >= Half(containerWidth) - Half(width)
    ensures r == 0 || r == Half(containerWidth) - Half(width)
  {
    var p := Half(containerWidth) - Half(width);
    if p >= 0 then p else 0
  }

  /** The two padding values of one item. */
  datatype Padding = Padding(start: int, end: int)

  /**
   * One `onSizeChanged` notification, as the callback sees it: the item's
   * position `index` in a list of `itemCount` at that moment, the viewport
   * width read then, and the reported width `newWidth`.
   */
  datatype SizeChange = SizeChange(index: int, itemCount: int, containerWidth: int, newWidth: int)

  /**
   * The padding after one size change: index 0 sets the start padding,
   * otherwise the last index sets the end padding, any other index changes
   * nothing.
   */
  function AfterSizeChange(p: Padding, change: SizeChange): (q: Padding)
    ensures change.index == 0 ==> q == Padding(EdgePadding(change.containerWidth, change.newWidth), p.end)
    ensures change.index != 0 && change.index == change.itemCount - 1 ==>
              q == Padding(p.start, EdgePadding(change.containerWidth, change.newWidth))
    ensures change.index != 0 && change.index != change.itemCount - 1 ==> q == p
  {
    if change.index == 0 then p.(start := EdgePadding(change.containerWidth, change.newWidth))
    else if change.index == change.itemCount - 1 then p.(end := EdgePadding(change.containerWidth, change.newWidth))
    else p
  }

  /** The padding after a run of size changes, oldest first. */
  function AfterSizeChanges(p: Padding, changes: seq<SizeChange>): Padding
    decreases |changes|
  {
    if changes == [] then p
    else AfterSizeChanges(AfterSizeChange(p, changes[0]), changes[1..])
  }

  /** Any run of size changes keeps both paddings non-negative, whatever positions the item takes. */
  lemma {:induction false} SizeChangesKeepNonNegative(p: Padding, changes: seq<SizeChange>)
    requires p.start >= 0 && p.end >= 0
    ensures AfterSizeChanges(p, changes).start >= 0 && AfterSizeChanges(p, changes).end >= 0
    decreases |changes|
  {
    if changes != [] {
      SizeChangesKeepNonNegative(AfterSizeChange(p, changes[0]), changes[1..]);
    }
  }

  /**
   * What holds of the padding of an item at `index` in a list of `itemCount`:
   * both values are non-negative, only the first item has a start padding,
   * and only a last item that is not also the first has an end padding.
   */
  predicate PaddingInvariant(p: Padding, index: int, itemCount: int)
  {
    && p.start >= 0 && p.end >= 0
    && (index != 0 ==> p.start == 0)
    && (index == 0 || index != itemCount - 1 ==> p.end == 0)
  }

  /** Every change of the run reports the item at `index` in a list of `itemCount`. */
  predicate AllAt(changes: seq<SizeChange>, index: int, itemCount: int)
  {
    forall k :: 0 <= k < |changes| ==> changes[k].index == index && changes[k].itemCount == itemCount
  }

  /**
   * While the item keeps its position and the list its length, any run of
   * size changes keeps the invariant: a middle item stays unpadded, and a
   * single-item list never gets an end padding.
   */
  lemma {:induction false} SizeChangesKeepInvariant(p: Padding, index: int, itemCount: int, changes: seq<SizeChange>)
    requires PaddingInvariant(p, index, itemCount)
    requires AllAt(changes, index, itemCount)
    ensures PaddingInvariant(AfterSizeChanges(p, changes), index, itemCount)
    decreases |changes|
  {
    if changes != [] {
      assert AllAt(changes[1..], index, itemCount) by {
        assert forall k :: 0 <= k < |changes[1..]| ==> changes[1..][k] == changes[k + 1];
      }
      SizeChangesKeepInvariant(AfterSizeChange(p, changes[0]), index, itemCount, changes[1..]);
    }
  }

  /**
   * The remembered paddings belong to the item's key, not to its position:
   * a tab padded as the first of three that then becomes the middle one keeps
   * its start padding, which no branch clears.
   */
  lemma MovedItemKeepsPadding()
    ensures var q := AfterSizeChanges(Padding(0, 0), [SizeChange(0, 3, 1000, 200), SizeChange(1, 3, 1000, 600)]);
            q == Padding(400, 0) && !PaddingInvariant(q, 1, 3)
  {
    var c0, c1 := SizeChange(0, 3, 1000, 200), SizeChange(1, 3, 1000, 600);
    assert [c0, c1][1..] == [c1];
    assert [c1][1..] == [];
    assert AfterSizeChange(Padding(0, 0), c0) == Padding(400, 0);
  }

  /**
   * The most recent size change decides: after a non-empty run, the start
   * padding is the edge padding for the last change if that one came from
   * index 0, and the end padding is if it came from a last, non-first index.
   */
  lemma {:induction false} LatestSizeChangeWins(p: Padding, changes: seq<SizeChange>)
    requires changes != []
    ensures var q := AfterSizeChanges(p, changes);
            var c := changes[|changes| - 1];
            (c.index == 0 ==> q.start == EdgePadding(c.containerWidth, c.newWidth))
            && (c.index != 0 && c.index == c.itemCount - 1 ==> q.end == EdgePadding(c.containerWidth, c.newWidth))
    decreases |changes|
  {
    if |changes| > 1 {
      LatestSizeChangeWins(AfterSizeChange(p, changes[0]), changes[1..]);
    }
  }

  /**
   * The width `onSizeChanged` reports: the callback sits outside the
   * `padding` modifier, so it measures the tab's content together with the
   * item's current paddings.
   */
  function ReportedWidth(p: Padding, contentWidth: int): int
  {
    contentWidth + p.start + p.end
  }

  /**
   * One size-change round for an item whose content is `contentWidth` wide:
   * the callback sees the padded width and sets the new padding from it.
   */
  function Relayout(p: Padding, index: int, itemCount: int, containerWidth: int, contentWidth: int): Padding
  {
    AfterSizeChange(p, SizeChange(index, itemCount, containerWidth, ReportedWidth(p, contentWidth)))
  }

  /**
   * The first callback, from the initial `(0, 0)`, centres a first item that
   * fits the viewport to within half a pixel: `2 * start + contentWidth`
   * differs from the container width by at most 1.
   */
  lemma FirstCallbackCentres(itemCount: int, containerWidth: int, contentWidth: int)
    requires 0 <= contentWidth <= containerWidth
    ensures var q := Relayout(Padding(0, 0), 0, itemCount, containerWidth, contentWidth);
            -1 <= containerWidth - (2 * q.start + contentWidth) <= 1
  {
    var q := Relayout(Padding(0, 0), 0, itemCount, containerWidth, contentWidth);
    assert q.start == EdgePadding(containerWidth, contentWidth);
  }

  /**
   * The padding feeds back into the reported size: a 200 px first tab in a
   * 1000 px viewport gets 400, then 200, 300, 250, and 267 is a fixed point,
   * at which the tab's centre is at 367 rather than 500.
   */
  lemma PaddingFeedbackExample()
    ensures Relayout(Padding(0, 0), 0, 3, 1000, 200) == Padding(400, 0)
    ensures Relayout(Padding(400, 0), 0, 3, 1000, 200) == Padding(200, 0)
    ensures Relayout(Padding(200, 0), 0, 3, 1000, 200) == Padding(300, 0)
    ensures Relayout(Padding(300, 0), 0, 3, 1000, 200) == Padding(250, 0)
    ensures Relayout(Padding(267, 0), 0, 3, 1000, 200) == Padding(267, 0)
    ensures 2 * 267 + 200 == 2 * 367
  {
    assert EdgePadding(1000, 200) == 400;
    assert EdgePadding(1000, 600) == 200;
    assert EdgePadding(1000, 400) == 300;
    assert EdgePadding(1000, 500) == 250;
    assert EdgePadding(1000, 467) == 267;
  }

  /**
   * Some widths have no stable padding at all: a 201 px first tab in a
   * 1000 px viewport gets 266 and 267 in turn for ever, and no start padding
   * is left unchanged by the callback, so `onSizeChanged` keeps firing.
   */
  lemma PaddingFeedbackCycles()
    ensures Relayout(Padding(266, 0), 0, 3, 1000, 201) == Padding(267, 0)
    ensures Relayout(Padding(267, 0), 0, 3, 1000, 201) == Padding(266, 0)
    ensures forall s :: Relayout(Padding(s, 0), 0, 3, 1000, 201) != Padding(s, 0)
  {
    assert EdgePadding(1000, 467) == 267;
    assert EdgePadding(1000, 468) == 266;
    forall s
      ensures Relayout(Padding(s, 0), 0, 3, 1000, 201) != Padding(s, 0)
    {
      NoStablePaddingAt(s);
    }
  }

  /** The step of `PaddingFeedbackCycles` for one start padding `s`. */
  lemma NoStablePaddingAt(s: int)
    ensures Relayout(Padding(s, 0), 0, 3, 1000, 201).start != s
  {
    var q := Relayout(Padding(s, 0), 0, 3, 1000, 201);
    assert q.start == EdgePadding(1000, 201 + s);
    if s <= 0 {
      assert Half(201 + s) <= 100;
    } else if s <= 265 {
      assert Half(201 + s) <= 233;
    } else if s == 266 {
      assert Half(201 + s) == 233;
    } else {
      assert Half(201 + s) >= 234;
    }
  }

  /**
   * A positive start padding that the callback no longer changes is about a
   * third of the free space, not half: `3 * start` is within 1 of
   * `containerWidth - contentWidth`, and the tab's centre stays left of the
   * viewport's centre by about half the padding.
   */
  lemma StablePaddingIsAThird(itemCount: int, containerWidth: int, contentWidth: int, s: int)
    requires containerWidth >= 0 && contentWidth >= 0 && s > 0
    requires Relayout(Padding(s, 0), 0, itemCount, containerWidth, contentWidth) == Padding(s, 0)
    ensures containerWidth - contentWidth - 1 <= 3 * s <= containerWidth - contentWidth + 1
    ensures containerWidth - (2 * s + contentWidth) >= s - 1
  {
    assert s == Half(containerWidth) - Half(contentWidth + s);
  }

  /** The `remember`ed `paddingStartPx` / `paddingEndPx` state of one lazy-row item. */
  class ItemPadding {
    var paddingStartPx: int
    var paddingEndPx: int

    function Current(): Padding
      reads this
    {
      Padding(paddingStartPx, paddingEndPx)
    }

    /** Both states start at 0. */
    constructor ()
      ensures Current() == Padding(0, 0)
    {
      paddingStartPx := 0;
      paddingEndPx := 0;
    }

    /** The `onSizeChanged` callback of the item at `index` in a list of `itemCount`, reporting `newWidth`. */
    method OnSizeChanged(index: int, itemCount: int, containerWidth: int, newWidth: int)
      modifies this
      ensures Current() == AfterSizeChange(old(Current()), SizeChange(index, itemCount, containerWidth, newWidth))
      ensures PaddingInvariant(old(Current()), index, itemCount) ==> PaddingInvariant(Current(), index, itemCount)
    {
      if index == 0 {
        paddingStartPx := EdgePadding(containerWidth, newWidth);
      } else if index == itemCount - 1 {
        paddingEndPx := EdgePadding(containerWidth, newWidth);
      }
    }
  }
}
