/** The methods that lay a buffer out pass by pass, and what the upload planner
    gets from them. */
module AtlasLayoutBuilder {
  import opened AtlasUpload
  import opened AtlasUploadRuns
  import opened AtlasLayout

  // ---- Capacities -----------------------------------------------------------------

  /** How many instances of a pass have row `row`. */
  function CountRow(rows: seq<int>, pass: Pass, row: int): nat
    decreases pass.count
  {
    if pass.count == 0 then 0
    else CountRow(rows, Pass(pass.first, pass.count - 1), row) + (if RowAt(rows, pass.first + pass.count - 1) == row then 1 else 0)
  }

  lemma {:induction false} CountCovers<T>(instances: seq<T>, rows: seq<int>, pass: Pass, row: int)
    ensures |RowItems(PassItems(instances, rows, pass), row)| <= CountRow(rows, pass, row)
    ensures pass.first + pass.count <= |instances| ==>
      |RowItems(PassItems(instances, rows, pass), row)| == CountRow(rows, pass, row)
    decreases pass.count
  {
    if pass.count > 0 {
      var shorter := Pass(pass.first, pass.count - 1);
      CountCovers(instances, rows, shorter, row);
      var items, fewer := PassItems(instances, rows, pass), PassItems(instances, rows, shorter);
      if pass.first + pass.count <= |instances| {
        assert items == fewer + [Item(instances[pass.first + pass.count - 1], RowAt(rows, pass.first + pass.count - 1))];
        RowItemsStep(fewer, Last(items), row);
      } else {
        assert items == fewer;
      }
    }
  }

  method RequiredRowCapacities(pass: Pass, rows: seq<int>, rowCount: int) returns (required: seq<nat>)
    ensures pass.count == 0 || rowCount <= 0 ==> required == []
    ensures pass.count > 0 && rowCount > 0 ==>
      |required| == rowCount && forall row | 0 <= row < rowCount :: required[row] == CountRow(rows, pass, row)
  {
    if pass.count == 0 || rowCount <= 0 {
      return [];
    }
    required := seq(rowCount, _ => 0);
    var offset := 0;
    while offset < pass.count
      invariant offset <= pass.count && |required| == rowCount
      invariant forall row | 0 <= row < rowCount :: required[row] == CountRow(rows, Pass(pass.first, offset), row)
    {
      var row := RowAt(rows, pass.first + offset);
      if 0 <= row < rowCount {
        required := required[row := required[row] + 1];
      }
      offset := offset + 1;
    }
  }

  /** Capacities only grow, and are kept as long as they suffice. */
  method UpdateRowCapacities(caps: seq<nat>, required: seq<nat>, rowCount: int) returns (updated: seq<nat>)
    requires forall row | 0 <= row < |caps| :: IsBucket(caps[row])
    ensures |updated| == if rowCount > 0 then rowCount else 0
    ensures forall row | 0 <= row < |updated| :: IsBucket(updated[row])
    ensures forall row | 0 <= row < |updated| && row < |required| :: required[row] <= updated[row]
    ensures |caps| == |updated| ==> forall row | 0 <= row < |updated| :: caps[row] <= updated[row]
    ensures |caps| == |updated| && (forall row | 0 <= row < |updated| && row < |required| :: required[row] <= caps[row]) ==>
      updated == caps
    ensures forall row, enough: nat | 0 <= row < |updated| && IsBucket(enough) && (|caps| == |updated| ==> caps[row] <= enough)
              && (row < |required| ==> required[row] <= enough) :: updated[row] <= enough
  {
    hide IsBucket, CapacityBucket;
    if rowCount <= 0 {
      return [];
    }
    BucketIsLeast(0, 0) by {
      BucketZero();
    }
    updated := if |caps| == rowCount then caps else seq(rowCount, _ => 0);
    ghost var before := updated;
    var row := 0;
    while row < |updated| && row < |required|
      invariant 0 <= row <= |updated| == rowCount
      invariant forall r | 0 <= r < rowCount :: IsBucket(updated[r]) && before[r] <= updated[r]
      invariant forall r | 0 <= r < row && r < |required| :: required[r] <= updated[r]
      invariant forall r | 0 <= r < rowCount :: updated[r] == before[r] || (r < row && r < |required| && required[r] > before[r])
      invariant forall r, enough: nat | 0 <= r < rowCount && IsBucket(enough) && before[r] <= enough
                  && (r < |required| ==> required[r] <= enough) :: updated[r] <= enough
    {
      if required[row] > 0 {
        BucketOfAny(required[row]);
        if required[row] <= updated[row] {
          BucketIsLeast(required[row], updated[row]);
        }
        var bucket := CapacityBucket(required[row]);
        forall enough: nat | IsBucket(enough) && required[row] <= enough
          ensures bucket <= enough
        {
          BucketIsLeast(required[row], enough);
        }
        updated := updated[row := if updated[row] < bucket then bucket else updated[row]];
      }
      row := row + 1;
    }
  }

  lemma {:induction false} BucketZero()
    ensures IsBucket(0)
  {
  }

  lemma {:induction false} BucketOfAny(required: int)
    ensures IsBucket(CapacityBucket(required))
  {
  }

  // ---- Passes keep the ranges right -------------------------------------------------

  /** Items without slots have no row of the grid. */
  predicate RowsHaveSlots<T>(items: seq<Item<T>>, caps: seq<nat>) {
    forall k | 0 <= k < |items| :: 0 <= items[k].row < |caps| ==> HasSlot(caps, items[k].row)
  }

  lemma {:induction false} FitsHasSlots<T>(items: seq<Item<T>>, caps: seq<nat>)
    requires Fits(items, caps)
    ensures RowsHaveSlots(items, caps)
  {
    forall k | 0 <= k < |items| && 0 <= items[k].row < |caps|
      ensures HasSlot(caps, items[k].row)
    {
      assert items[..|items|] == items;
      RowItemsGrow(items, k, |items|, items[k].row);
    }
  }

  /** Where a row of the grid appears among the cells of a pass. */
  lemma {:induction false} PassCellRow<T>(items: seq<Item<T>>, lead: nat, caps: seq<nat>, blank: T, p: nat)
    requires lead <= |items| && RowsHaveSlots(items, caps) && p < |PassCells(items, lead, caps, blank)|
    requires forall k | 0 <= k < lead :: !HasSlot(caps, items[k].row)
    ensures var row := PassCells(items, lead, caps, blank)[p].row;
            if lead <= p < lead + Start(caps, |caps|) then
              HasSlot(caps, row) && Start(caps, row) <= p - lead < Start(caps, row) + caps[row]
            else !(0 <= row < |caps|)
  {
    hide RowItems, Slots, Outside;
    var slots := Slots(items, caps, |caps|, blank);
    if lead <= p < lead + |slots| {
      assert PassCells(items, lead, caps, blank)[p] == slots[p - lead];
      var row := SlotRow(items, caps, |caps|, blank, p - lead);
    } else if p >= lead + |slots| {
      OutsideIn(items[lead..], caps, p - lead - |slots|);
    }
  }

  lemma {:induction false} OutsideIn<T>(items: seq<Item<T>>, caps: seq<nat>, p: nat)
    requires p < |Outside(items, caps)|
    ensures !HasSlot(caps, Outside(items, caps)[p].row) && Outside(items, caps)[p] in items
  {
    if p >= |Outside(Front(items), caps)| {
      assert Outside(items, caps)[p] == Last(items);
    } else {
      OutsideIn(Front(items), caps, p);
    }
  }

  lemma {:induction false} PassKeepsInside<T>(cells: seq<Item<T>>, ranges: seq<RowRange>, items: seq<Item<T>>, lead: nat,
        caps: seq<nat>, blank: T)
    requires RangesInside(cells, ranges) && lead <= |items|
    ensures RangesInside(cells + PassCells(items, lead, caps, blank), ranges + RangesOf(caps, |cells| + lead, |caps|))
  {
    hide PassCells, Start;
    var base := |cells| + lead;
    var added := RangesOf(caps, base, |caps|);
    PassCellsLength(items, lead, caps, blank);
    RangesOfAre(caps, base, |caps|);
    forall i | 0 <= i < |added|
      ensures 0 <= added[i].first && 0 < added[i].count
      ensures added[i].first + added[i].count <= |cells + PassCells(items, lead, caps, blank)|
    {
      assert IsRangeOf(RangesOf(caps, base, |caps|)[i], caps, base, |caps|);
      StartsApart(caps, added[i].row, |caps|);
    }
  }

  lemma {:induction false} PassKeepsApart<T>(cells: seq<Item<T>>, ranges: seq<RowRange>, lead: nat, caps: seq<nat>)
    requires RangesInside(cells, ranges) && RangesApart(ranges)
    ensures RangesApart(ranges + RangesOf(caps, |cells| + lead, |caps|))
  {
    hide Start;
    var base := |cells| + lead;
    var added := RangesOf(caps, base, |caps|);
    RangesOfAre(caps, base, |caps|);
    forall i, j | 0 <= i < j < |added|
      ensures added[i].first + added[i].count <= added[j].first
    {
      assert IsRangeOf(RangesOf(caps, base, |caps|)[i], caps, base, |caps|) && IsRangeOf(RangesOf(caps, base, |caps|)[j], caps, base, |caps|);
      StartsApart(caps, added[i].row, added[j].row);
    }
  }

  lemma {:induction false} AddedRangeRow<T>(size: nat, items: seq<Item<T>>, lead: nat, caps: seq<nat>, blank: T, i: nat, p: nat)
    requires lead <= |items| && i < |RangesOf(caps, size + lead, |caps|)| && InRange(RangesOf(caps, size + lead, |caps|)[i], p)
    ensures size <= p < size + |PassCells(items, lead, caps, blank)|
    ensures PassCells(items, lead, caps, blank)[p - size].row == RangesOf(caps, size + lead, |caps|)[i].row
  {
    hide PassCells, Start;
    RangesOfAre(caps, size + lead, |caps|);
    assert IsRangeOf(RangesOf(caps, size + lead, |caps|)[i], caps, size + lead, |caps|);
    PassSlotRow(items, lead, caps, blank, p - size, RangesOf(caps, size + lead, |caps|)[i].row);
  }

  lemma {:induction false} PassKeepsRows<T>(cells: seq<Item<T>>, ranges: seq<RowRange>, items: seq<Item<T>>, lead: nat,
        caps: seq<nat>, blank: T)
    requires RangesInside(cells, ranges) && RangesRows(cells, ranges) && lead <= |items|
    ensures RangesRows(cells + PassCells(items, lead, caps, blank), ranges + RangesOf(caps, |cells| + lead, |caps|))
  {
    hide PassCells, Start, RangesOf, RangesInside, RangesRows;
    var added := RangesOf(caps, |cells| + lead, |caps|);
    forall i, p: nat | 0 <= i < |added| && InRange(added[i], p)
      ensures |cells| <= p < |cells| + |PassCells(items, lead, caps, blank)|
      ensures PassCells(items, lead, caps, blank)[p - |cells|].row == added[i].row
    {
      AddedRangeRow(|cells|, items, lead, caps, blank, i, p);
    }
    JoinedRows(cells, PassCells(items, lead, caps, blank), ranges, added);
  }

  lemma {:induction false} JoinedRows<T>(cells: seq<Item<T>>, more: seq<Item<T>>, ranges: seq<RowRange>, added: seq<RowRange>)
    requires RangesInside(cells, ranges) && RangesRows(cells, ranges)
    requires forall i, p: nat | 0 <= i < |added| && InRange(added[i], p) ::
      |cells| <= p < |cells| + |more| && more[p - |cells|].row == added[i].row
    ensures RangesRows(cells + more, ranges + added)
  {
    var all, both := cells + more, ranges + added;
    forall i, p: nat | 0 <= i < |both| && p < |all| && InRange(both[i], p)
      ensures all[p].row == both[i].row
    {
      if i >= |ranges| {
        assert InRange(added[i - |ranges|], p);
      } else {
        assert InRange(ranges[i], p);
      }
    }
  }

  lemma {:induction false} PassKeepsCovered<T>(cells: seq<Item<T>>, ranges: seq<RowRange>, items: seq<Item<T>>,
        lead: nat, caps: seq<nat>, blank: T)
    requires RowsInRanges(cells, ranges, |caps|) && lead <= |items| && RowsHaveSlots(items, caps)
    requires forall k | 0 <= k < lead :: !HasSlot(caps, items[k].row)
    ensures RowsInRanges(cells + PassCells(items, lead, caps, blank), ranges + RangesOf(caps, |cells| + lead, |caps|), |caps|)
  {
    hide RangesOf, PassCells, Start, RowsHaveSlots;
    var base := |cells| + lead;
    var all, both := cells + PassCells(items, lead, caps, blank), ranges + RangesOf(caps, base, |caps|);
    forall p: nat | p < |all| && 0 <= all[p].row < |caps|
      ensures exists i :: 0 <= i < |both| && InRange(both[i], p)
    {
      if p < |cells| {
        assert cells[p] == all[p];
        var i :| 0 <= i < |ranges| && InRange(ranges[i], p);
        assert InRange(both[i], p);
      } else {
        PassCellRow(items, lead, caps, blank, p - |cells|);
        var i := RangesOfHave(caps, base, |caps|, all[p].row);
        assert InRange(both[|ranges| + i], p);
      }
    }
  }

  lemma {:induction false} PassKeepsRanges<T>(cells: seq<Item<T>>, ranges: seq<RowRange>, items: seq<Item<T>>, lead: nat,
        caps: seq<nat>, blank: T)
    requires RangesOk(cells, ranges, |caps|) && lead <= |items| && RowsHaveSlots(items, caps)
    requires forall k | 0 <= k < lead :: !HasSlot(caps, items[k].row)
    ensures RangesOk(cells + PassCells(items, lead, caps, blank), ranges + RangesOf(caps, |cells| + lead, |caps|), |caps|)
  {
    hide RangesInside, RangesApart, RangesRows, RowsInRanges, PassCells, RangesOf;
    PassKeepsInside(cells, ranges, items, lead, caps, blank);
    PassKeepsApart(cells, ranges, lead, caps);
    PassKeepsRows(cells, ranges, items, lead, caps, blank);
    PassKeepsCovered(cells, ranges, items, lead, caps, blank);
  }

  lemma {:induction false} PassCellsLength<T>(items: seq<Item<T>>, lead: nat, caps: seq<nat>, blank: T)
    requires lead <= |items|
    ensures |PassCells(items, lead, caps, blank)| >= lead + Start(caps, |caps|)
  {
  }

  lemma {:induction false} PassSlotRow<T>(items: seq<Item<T>>, lead: nat, caps: seq<nat>, blank: T, p: int, row: nat)
    requires lead <= |items| && row < |caps| && lead + Start(caps, row) <= p < lead + Start(caps, row) + caps[row]
    ensures p < |PassCells(items, lead, caps, blank)| && PassCells(items, lead, caps, blank)[p].row == row
  {
    hide Slots, Outside, Start;
    SlotRowIs(items, caps, |caps|, blank, p - lead, row);
    InTheMiddle(items[..lead], Slots(items, caps, |caps|, blank), Outside(items[lead..], caps), p - lead);
  }

  lemma {:induction false} InTheMiddle<U>(front: seq<U>, middle: seq<U>, back: seq<U>, p: nat)
    requires p < |middle|
    ensures (front + middle + back)[|front| + p] == middle[p]
  {
  }

  // ---- What the planner gets --------------------------------------------------------

  /** A buffer laid out like this makes every upload plan complete. */
  lemma {:induction false} LayoutMakesPlansComplete<T>(cells: seq<Item<T>>, ranges: seq<RowRange>, before: Image, input: Input)
    requires RangesOk(cells, ranges, input.rowCount) && input.Valid() && input.Present()
    requires input.rows == Some(seq(|cells|, k requires 0 <= k < |cells| => cells[k].row))
    requires input.rowStableRanges == Some(ranges)
    requires |input.Current()| == |cells| * input.InstanceBytes()
    ensures Complete(before, input)
  {
    var size := input.InstanceBytes();
    WholeCount(|cells|, size);
    forall i: nat | i < |input.Current()| / size && input.HasRow(i) && RangesSupplied(input)
      ensures InSupplied(input, |input.Current()| / size, i)
    {
      var k :| 0 <= k < |ranges| && InRange(ranges[k], i);
      assert FirstOf(ranges[k], |cells|) <= i < LastOf(ranges[k], |cells|);
    }
    WholeInstancesComplete(before, input);
  }

  lemma {:induction false} WholeCount(count: nat, size: nat)
    requires size > 0
    ensures count * size / size == count && count * size % size == 0
  {
    Quotient(count * size, size);
    InstanceOf(count * size, size, count, count + 1);
  }
}
