/**
 * `CenterScrollTabLayoutState`: the lazy-row variant of the tab strip derives
 * the index of the item under the viewport's midpoint from each layout
 * snapshot, and emits it only when it changes.
 */
module CenterScrollTabLayoutState {
  import opened Wrappers
  import opened KotlinMath

  /** One entry of `lazyListState.layoutInfo.visibleItemsInfo`. */
  datatype LazyListItemInfo = LazyListItemInfo(index: int, key: string, offset: int, size: int)

  /** The state's own copy of a visible item: index, offset and size. */
  datatype ItemInfo = ItemInfo(index: int, offset: int, size: int)

  /**
   * The lazy list's state at one moment: its visible items and its viewport
   * width. `snapshotFlow` observes only the visible items; the width is read
   * when an emitted list is mapped.
   */
  datatype LayoutSnapshot = LayoutSnapshot(visibleItemsInfo: seq<LazyListItemInfo>, viewportWidth: int)

  /** The `map` that turns visible items into `ItemInfo`s. */
  function ToItemInfos(infos: seq<LazyListItemInfo>): (r: seq<ItemInfo>)
    ensures |r| == |infos|
    ensures forall i :: 0 <= i < |infos| ==>
              r[i].index == infos[i].index && r[i].offset == infos[i].offset && r[i].size == infos[i].size
  {
    if infos == [] then []
    else [ItemInfo(infos[0].index, infos[0].offset, infos[0].size)] + ToItemInfos(infos[1..])
  }

  /** `IntRange(offset, offset + size).contains(x)`: the closed pixel range of the item. */
  predicate Contains(info: ItemInfo, x: int)
  {
    info.offset <= x <= info.offset + info.size
  }

  /** The position of the first item, in list order, that contains `x` (`firstOrNull`). */
  function FirstContaining(infos: seq<ItemInfo>, x: int): (r: Option<nat>)
    ensures r.Some? ==> r.value < |infos| && Contains(infos[r.value], x)
    ensures r.Some? ==> forall j :: 0 <= j < r.value ==> !Contains(infos[j], x)
    ensures r.None? ==> forall j :: 0 <= j < |infos| ==> !Contains(infos[j], x)
  {
    if infos == [] then None
    else if Contains(infos[0], x) then Some(0)
    else
      match FirstContaining(infos[1..], x)
      case None => None
      case Some(k) => Some(k + 1)
  }

  /**
   * The mapped value of `centerItemIndex` for one snapshot: the `index` of the
   * first visible item whose closed range contains half the viewport width
   * (truncating division), or 0 when none does.
   */
  function CenterItemIndex(infos: seq<ItemInfo>, viewportWidth: int): (r: int)
    ensures (exists k :: 0 <= k < |infos| && Contains(infos[k], Half(viewportWidth))) ==>
              exists k :: 0 <= k < |infos| && Contains(infos[k], Half(viewportWidth)) && r == infos[k].index
                && forall j :: 0 <= j < k ==> !Contains(infos[j], Half(viewportWidth))
    ensures (forall k :: 0 <= k < |infos| ==> !Contains(infos[k], Half(viewportWidth))) ==> r == 0
    ensures r == 0 || exists k :: 0 <= k < |infos| && r == infos[k].index
  {
    match FirstContaining(infos, Half(viewportWidth))
    case Some(k) => infos[k].index
    case None => 0
  }

  /** Items laid edge to edge, each with positive size. */
  ghost predicate Contiguous(infos: seq<ItemInfo>)
  {
    && (forall i :: 0 <= i < |infos| ==> infos[i].size > 0)
    && (forall i :: 0 <= i < |infos| - 1 ==> infos[i + 1].offset == infos[i].offset + infos[i].size)
  }

  /** In a contiguous row, every item before `k` ends no later than item `k` starts. */
  lemma {:induction false} ContiguousEndsBefore(infos: seq<ItemInfo>, j: nat, k: nat)
    requires Contiguous(infos)
    requires j < k < |infos|
    ensures infos[j].offset + infos[j].size <= infos[k].offset
    decreases k - j
  {
    if j + 1 < k {
      ContiguousEndsBefore(infos, j + 1, k);
    }
  }

  /**
   * In a contiguous row, a midpoint strictly inside item `k` selects item `k`:
   * no other item's closed range reaches it.
   */
  lemma ContiguousCenter(infos: seq<ItemInfo>, viewportWidth: int, k: nat)
    requires Contiguous(infos)
    requires k < |infos|
    requires infos[k].offset < Half(viewportWidth) < infos[k].offset + infos[k].size
    ensures CenterItemIndex(infos, viewportWidth) == infos[k].index
  {
    var mid := Half(viewportWidth);
    forall j | 0 <= j < k ensures !Contains(infos[j], mid) {
      ContiguousEndsBefore(infos, j, k);
    }
    forall j | k < j < |infos| ensures !Contains(infos[j], mid) {
      ContiguousEndsBefore(infos, k, j);
    }
  }

  /**
   * When the midpoint falls exactly on the boundary between items `k` and
   * `k + 1` of a contiguous row, both closed ranges contain it and the earlier
   * item, `k`, is reported.
   */
  lemma BoundaryGoesToEarlierItem(infos: seq<ItemInfo>, viewportWidth: int, k: nat)
    requires Contiguous(infos)
    requires k + 1 < |infos|
    requires Half(viewportWidth) == infos[k + 1].offset
    ensures Contains(infos[k + 1], Half(viewportWidth))
    ensures CenterItemIndex(infos, viewportWidth) == infos[k].index
  {
    var mid := Half(viewportWidth);
    forall j | 0 <= j < k ensures !Contains(infos[j], mid) {
      ContiguousEndsBefore(infos, j, k);
    }
  }

  /**
   * `distinctUntilChanged` with the previously emitted value `last` (None
   * before the first emission): a value is passed on only when it differs
   * from the last one passed on.
   */
  function DistinctFrom<T(==)>(last: Option<T>, s: seq<T>): seq<T>
    decreases |s|
  {
    if s == [] then []
    else if last == Some(s[0]) then DistinctFrom(last, s[1..])
    else [s[0]] + DistinctFrom(Some(s[0]), s[1..])
  }

  /** A flow with `distinctUntilChanged` applied, from its first value on. */
  function DistinctUntilChanged<T(==)>(s: seq<T>): seq<T>
  {
    DistinctFrom(None, s)
  }

  /** No two neighbours are equal. */
  predicate NoAdjacentDuplicates<T(==)>(s: seq<T>)
  {
    forall i :: 0 < i < |s| ==> s[i - 1] != s[i]
  }

  /** The last value passed on after `s`, given the one before it. */
  function LastEmitted<T>(last: Option<T>, s: seq<T>): Option<T>
  {
    if s == [] then last else Some(s[|s| - 1])
  }

  /**
   * Feeding one more value `x` after `s` emits `x` exactly when it differs
   * from the latest value seen so far, and nothing otherwise.
   */
  lemma {:induction false} DistinctFromAppend<T>(last: Option<T>, s: seq<T>, x: T)
    ensures DistinctFrom(last, s + [x]) ==
            DistinctFrom(last, s) + (if LastEmitted(last, s) == Some(x) then [] else [x])
    decreases |s|
  {
    if s == [] {
      assert [x][1..] == [];
    } else {
      assert (s + [x])[0] == s[0];
      assert (s + [x])[1..] == s[1..] + [x];
      var next := if last == Some(s[0]) then last else Some(s[0]);
      DistinctFromAppend(next, s[1..], x);
      assert LastEmitted(next, s[1..]) == LastEmitted(last, s);
    }
  }

  /**
   * The emitted flow after one more snapshot value `x`: `x` is appended
   * exactly when it differs from the previous value, so a repeated value is
   * dropped and every change is emitted.
   */
  lemma DistinctUntilChangedAppend<T>(s: seq<T>, x: T)
    ensures DistinctUntilChanged(s + [x]) ==
            DistinctUntilChanged(s) + (if s != [] && s[|s| - 1] == x then [] else [x])
  {
    DistinctFromAppend(None, s, x);
  }

  /** What `DistinctFrom` emits has no neighbouring repeats and starts with a change. */
  lemma {:induction false} DistinctFromChanges<T>(last: Option<T>, s: seq<T>)
    ensures NoAdjacentDuplicates(DistinctFrom(last, s))
    ensures DistinctFrom(last, s) != [] && last.Some? ==> DistinctFrom(last, s)[0] != last.value
    decreases |s|
  {
    if s != [] {
      if last == Some(s[0]) {
        DistinctFromChanges(last, s[1..]);
      } else {
        DistinctFromChanges(Some(s[0]), s[1..]);
        var rest := DistinctFrom(Some(s[0]), s[1..]);
        var t := [s[0]] + rest;
        assert DistinctFrom(last, s) == t;
        assert t[1..] == rest;
      }
    }
  }

  /** A sequence that already changes at every step passes through `DistinctFrom` unchanged. */
  lemma {:induction false} DistinctFromOfChanging<T>(last: Option<T>, s: seq<T>)
    requires NoAdjacentDuplicates(s)
    requires s != [] && last.Some? ==> s[0] != last.value
    ensures DistinctFrom(last, s) == s
    decreases |s|
  {
    if s != [] {
      assert NoAdjacentDuplicates(s[1..]) by {
        assert forall i :: 0 < i < |s[1..]| ==> s[1..][i - 1] == s[i] && s[1..][i] == s[i + 1];
      }
      if |s| > 1 {
        assert s[0] != s[1];
      }
      DistinctFromOfChanging(Some(s[0]), s[1..]);
      assert s == [s[0]] + s[1..];
    }
  }

  /** The emitted flow never repeats a value twice in a row. */
  lemma DistinctUntilChangedNoRepeats<T>(s: seq<T>)
    ensures NoAdjacentDuplicates(DistinctUntilChanged(s))
  {
    DistinctFromChanges(None, s);
  }

  /** Applying `distinctUntilChanged` a second time changes nothing. */
  lemma DistinctUntilChangedIdempotent<T>(s: seq<T>)
    ensures DistinctUntilChanged(DistinctUntilChanged(s)) == DistinctUntilChanged(s)
  {
    DistinctFromChanges(None, s);
    DistinctFromOfChanging(None, DistinctUntilChanged(s));
  }

  /**
   * Nothing new is invented and nothing is lost: every emitted value was
   * observed and every observed value is emitted at some point; the latest
   * emitted value is always the latest observed one.
   */
  lemma {:induction false} DistinctUntilChangedKeepsValues<T>(s: seq<T>)
    ensures forall x :: x in DistinctUntilChanged(s) <==> x in s
    ensures s != [] ==> (DistinctUntilChanged(s) != [] &&
                         DistinctUntilChanged(s)[|DistinctUntilChanged(s)| - 1] == s[|s| - 1])
    decreases |s|
  {
    if s != [] {
      var init := s[..|s| - 1];
      var x := s[|s| - 1];
      assert s == init + [x];
      DistinctUntilChangedKeepsValues(init);
      DistinctUntilChangedAppend(init, x);
    }
  }

  /**
   * One emission of the `visibleItemsInfo` flow: the mapped item list, paired
   * with the viewport width read when the `map` stage handles it.
   */
  datatype Emission = Emission(infos: seq<ItemInfo>, viewportWidth: int)

  /** The list `snapshotFlow` last emitted after `snapshots`, given the one before them. */
  function LastItemList(last: Option<seq<ItemInfo>>, snapshots: seq<LayoutSnapshot>): Option<seq<ItemInfo>>
  {
    if snapshots == [] then last else Some(ToItemInfos(snapshots[|snapshots| - 1].visibleItemsInfo))
  }

  /**
   * `snapshotFlow { … visibleItemsInfo.map { ItemInfo(…) } }` over a run of
   * snapshots: the mapped list is emitted only when it differs from the list
   * emitted last (`last`, None before the first emission).
   */
  function ItemListEmissions(last: Option<seq<ItemInfo>>, snapshots: seq<LayoutSnapshot>): seq<Emission>
    decreases |snapshots|
  {
    if snapshots == [] then []
    else
      var infos := ToItemInfos(snapshots[0].visibleItemsInfo);
      if last == Some(infos) then ItemListEmissions(last, snapshots[1..])
      else [Emission(infos, snapshots[0].viewportWidth)] + ItemListEmissions(Some(infos), snapshots[1..])
  }

  /** The item-list flow from its first snapshot on. */
  function ItemListFlow(snapshots: seq<LayoutSnapshot>): seq<Emission>
  {
    ItemListEmissions(None, snapshots)
  }

  /** Every emission is the mapped list and the viewport width of one of the snapshots. */
  lemma {:induction false} EmissionsComeFromSnapshots(last: Option<seq<ItemInfo>>, snapshots: seq<LayoutSnapshot>)
    ensures forall e :: e in ItemListEmissions(last, snapshots) ==>
              exists k :: 0 <= k < |snapshots|
                && e == Emission(ToItemInfos(snapshots[k].visibleItemsInfo), snapshots[k].viewportWidth)
    decreases |snapshots|
  {
    if snapshots != [] {
      var infos := ToItemInfos(snapshots[0].visibleItemsInfo);
      var next := if last == Some(infos) then last else Some(infos);
      EmissionsComeFromSnapshots(next, snapshots[1..]);
      forall e | e in ItemListEmissions(next, snapshots[1..])
        ensures exists k :: 0 <= k < |snapshots|
                  && e == Emission(ToItemInfos(snapshots[k].visibleItemsInfo), snapshots[k].viewportWidth)
      {
        var k :| 0 <= k < |snapshots[1..]|
                 && e == Emission(ToItemInfos(snapshots[1..][k].visibleItemsInfo), snapshots[1..][k].viewportWidth);
        assert snapshots[1..][k] == snapshots[k + 1];
      }
    }
  }

  /**
   * One more snapshot adds an emission exactly when its mapped list differs
   * from the list emitted last; a snapshot whose visible items are unchanged
   * adds nothing, whatever its viewport width.
   */
  lemma {:induction false} ItemListEmissionsAppend(last: Option<seq<ItemInfo>>, snapshots: seq<LayoutSnapshot>,
                                                   x: LayoutSnapshot)
    ensures var infos := ToItemInfos(x.visibleItemsInfo);
            ItemListEmissions(last, snapshots + [x]) ==
            ItemListEmissions(last, snapshots)
              + (if LastItemList(last, snapshots) == Some(infos) then [] else [Emission(infos, x.viewportWidth)])
    decreases |snapshots|
  {
    if snapshots == [] {
      assert [x][1..] == [];
    } else {
      assert (snapshots + [x])[0] == snapshots[0];
      assert (snapshots + [x])[1..] == snapshots[1..] + [x];
      var infos0 := ToItemInfos(snapshots[0].visibleItemsInfo);
      var next := if last == Some(infos0) then last else Some(infos0);
      ItemListEmissionsAppend(next, snapshots[1..], x);
      assert LastItemList(next, snapshots[1..]) == LastItemList(last, snapshots);
    }
  }

  /** After a non-empty run, the list emitted last is the latest snapshot's mapped list. */
  lemma {:induction false} LatestListIsEmitted(snapshots: seq<LayoutSnapshot>)
    requires snapshots != []
    ensures var r := ItemListFlow(snapshots);
            r != [] && r[|r| - 1].infos == ToItemInfos(snapshots[|snapshots| - 1].visibleItemsInfo)
    decreases |snapshots|
  {
    var init := snapshots[..|snapshots| - 1];
    var x := snapshots[|snapshots| - 1];
    assert snapshots == init + [x];
    ItemListEmissionsAppend(None, init, x);
    if init != [] {
      LatestListIsEmitted(init);
    }
  }

  /** The `map` stage: one centre index per emitted list, at the width read then. */
  function MappedCenterIndices(emissions: seq<Emission>): (r: seq<int>)
    ensures |r| == |emissions|
    ensures forall i :: 0 <= i < |emissions| ==>
              r[i] == CenterItemIndex(emissions[i].infos, emissions[i].viewportWidth)
  {
    if emissions == [] then []
    else [CenterItemIndex(emissions[0].infos, emissions[0].viewportWidth)] + MappedCenterIndices(emissions[1..])
  }

  /** The values `centerItemIndex` emits for a run of layout snapshots. */
  function CenterItemIndexFlow(snapshots: seq<LayoutSnapshot>): seq<int>
  {
    DistinctUntilChanged(MappedCenterIndices(ItemListFlow(snapshots)))
  }

  /**
   * A snapshot that changes only the viewport width, not the visible items,
   * recomputes nothing: the centre index flow is unchanged.
   */
  lemma ViewportChangeAloneIsIgnored(snapshots: seq<LayoutSnapshot>, x: LayoutSnapshot)
    requires snapshots != []
    requires ToItemInfos(x.visibleItemsInfo) == ToItemInfos(snapshots[|snapshots| - 1].visibleItemsInfo)
    ensures CenterItemIndexFlow(snapshots + [x]) == CenterItemIndexFlow(snapshots)
  {
    ItemListEmissionsAppend(None, snapshots, x);
    assert LastItemList(None, snapshots) == Some(ToItemInfos(x.visibleItemsInfo));
    assert ItemListFlow(snapshots) + [] == ItemListFlow(snapshots);
  }

  /**
   * A snapshot with a new visible item list is mapped at its own viewport
   * width, and the index is emitted exactly when it differs from the index
   * emitted last.
   */
  lemma ItemListChangeIsMapped(snapshots: seq<LayoutSnapshot>, x: LayoutSnapshot)
    requires snapshots != [] ==>
               ToItemInfos(x.visibleItemsInfo) != ToItemInfos(snapshots[|snapshots| - 1].visibleItemsInfo)
    ensures var flow := CenterItemIndexFlow(snapshots);
            var v := CenterItemIndex(ToItemInfos(x.visibleItemsInfo), x.viewportWidth);
            CenterItemIndexFlow(snapshots + [x]) == flow + (if flow != [] && flow[|flow| - 1] == v then [] else [v])
  {
    var e := ItemListFlow(snapshots);
    var y := Emission(ToItemInfos(x.visibleItemsInfo), x.viewportWidth);
    ItemListEmissionsAppend(None, snapshots, x);
    assert ItemListFlow(snapshots + [x]) == e + [y];
    var m := MappedCenterIndices(e);
    var v := CenterItemIndex(y.infos, y.viewportWidth);
    assert MappedCenterIndices(e + [y]) == m + [v];
    DistinctUntilChangedAppend(m, v);
    DistinctUntilChangedKeepsValues(m);
  }

  /**
   * The emitted centre indices never repeat back to back, and each is 0 or
   * the index of an item visible in some snapshot. After a non-empty run the
   * latest emitted index is computed from the latest visible item list, at
   * the viewport width of a snapshot that showed that list.
   */
  lemma CenterItemIndexFlowProperties(snapshots: seq<LayoutSnapshot>)
    ensures NoAdjacentDuplicates(CenterItemIndexFlow(snapshots))
    ensures forall v :: v in CenterItemIndexFlow(snapshots) ==>
              v == 0 || exists i, k :: 0 <= i < |snapshots| && 0 <= k < |snapshots[i].visibleItemsInfo|
                                      && v == snapshots[i].visibleItemsInfo[k].index
    ensures snapshots != [] ==>
              var flow := CenterItemIndexFlow(snapshots);
              var latest := ToItemInfos(snapshots[|snapshots| - 1].visibleItemsInfo);
              flow != [] && exists k :: 0 <= k < |snapshots| && ToItemInfos(snapshots[k].visibleItemsInfo) == latest
                                        && flow[|flow| - 1] == CenterItemIndex(latest, snapshots[k].viewportWidth)
  {
    var emissions := ItemListFlow(snapshots);
    var mapped := MappedCenterIndices(emissions);
    DistinctUntilChangedNoRepeats(mapped);
    DistinctUntilChangedKeepsValues(mapped);
    EmissionsComeFromSnapshots(None, snapshots);
    forall v | v in CenterItemIndexFlow(snapshots)
      ensures v == 0 || exists i, k :: 0 <= i < |snapshots| && 0 <= k < |snapshots[i].visibleItemsInfo|
                                      && v == snapshots[i].visibleItemsInfo[k].index
    {
      var j :| 0 <= j < |mapped| && mapped[j] == v;
      assert emissions[j] in emissions;
      var i :| 0 <= i < |snapshots|
               && emissions[j] == Emission(ToItemInfos(snapshots[i].visibleItemsInfo), snapshots[i].viewportWidth);
      var infos := ToItemInfos(snapshots[i].visibleItemsInfo);
      if v != 0 {
        var k :| 0 <= k < |infos| && v == infos[k].index;
        assert v == snapshots[i].visibleItemsInfo[k].index;
      }
    }
    if snapshots != [] {
      LatestListIsEmitted(snapshots);
      var last := emissions[|emissions| - 1];
      assert last in emissions;
      var k :| 0 <= k < |snapshots|
               && last == Emission(ToItemInfos(snapshots[k].visibleItemsInfo), snapshots[k].viewportWidth);
      assert mapped[|mapped| - 1] == CenterItemIndex(last.infos, last.viewportWidth);
    }
  }
}
