/** The buffer object: it reserves row slots and places the instances of each pass. */
module AtlasLayoutPasses {
  import opened AtlasUpload
  import opened AtlasLayout
  import opened AtlasLayoutBuilder

  /** A glyph pass keeps the row of an instance only where it has row slots. */
  function GlyphItems<T>(items: seq<Item<T>>, caps: seq<nat>): (r: seq<Item<T>>)
    ensures |r| == |items|
    ensures forall k | 0 <= k < |r| :: r[k] == if HasSlot(caps, items[k].row) then items[k] else Item(items[k].value, NON_ROW)
  {
    seq(|items|, k requires 0 <= k < |items| => if HasSlot(caps, items[k].row) then items[k] else Item(items[k].value, NON_ROW))
  }

  function Filled<T>(cells: seq<Item<T>>, first: nat, count: nat, row: int): (r: seq<Item<T>>)
    requires first + count <= |cells|
    ensures |r| == |cells|
    ensures forall p | 0 <= p < |r| :: r[p] == if first <= p < first + count then Item(cells[p].value, row) else cells[p]
  {
    seq(|cells|, p requires 0 <= p < |cells| => if first <= p < first + count then Item(cells[p].value, row) else cells[p])
  }

  function Blanks<T>(count: nat, row: int, blank: T): (r: seq<Item<T>>)
    ensures |r| == count && forall p | 0 <= p < count :: r[p] == Item(blank, row)
  {
    seq(count, _ => Item(blank, row))
  }

  lemma {:induction false} FillRow<T>(front: seq<Item<T>>, rest: nat, row: int, count: nat, blank: T)
    requires count <= rest
    ensures Filled(front + Blanks(rest, NON_ROW, blank), |front|, count, row)
         == front + Padded([], count, row, blank) + Blanks(rest - count, NON_ROW, blank)
  {
  }

  lemma {:induction false} NoItems<T>(caps: seq<nat>, count: nat, blank: T)
    requires 0 < count <= |caps|
    ensures Slots([], caps, count, blank) == Slots([], caps, count - 1, blank) + Padded([], caps[count - 1], count - 1, blank)
    ensures Start(caps, count - 1) + caps[count - 1] == Start(caps, count) <= Start(caps, |caps|)
  {
    if count < |caps| {
      StartsApart(caps, count, |caps|);
    }
  }

  /** Giving the next row its slots. */
  lemma {:induction false} ReserveStep<T>(before: seq<Item<T>>, caps: seq<nat>, row: nat, total: nat, blank: T)
    requires row < |caps| && total == Start(caps, |caps|)
    ensures Start(caps, row) + caps[row] == Start(caps, row + 1) <= total
    ensures Filled(before + Slots([], caps, row, blank) + Blanks(total - Start(caps, row), NON_ROW, blank),
                   |before| + Start(caps, row), caps[row], row)
         == before + Slots([], caps, row + 1, blank) + Blanks(total - Start(caps, row + 1), NON_ROW, blank)
  {
    hide Slots, Padded, Start, Blanks, Filled;
    NoItems(caps, row + 1, blank);
    FillRow(before + Slots([], caps, row, blank), total - Start(caps, row), row, caps[row], blank);
    Associate(before, Slots([], caps, row, blank), Padded([], caps[row], row, blank));
  }

  lemma {:induction false} Associate<U>(a: seq<U>, b: seq<U>, c: seq<U>)
    ensures a + b + c == a + (b + c)
  {
  }

  class LayoutBuffer<T> {
    const blank: T
    const rowCount: int
    var cells: seq<Item<T>>
    var ranges: seq<RowRange>

    constructor (blank: T, rowCount: int)
      ensures this.blank == blank && this.rowCount == rowCount && cells == [] && ranges == []
    {
      this.blank, this.rowCount := blank, rowCount;
      cells, ranges := [], [];
    }

    predicate CapsFit(caps: seq<nat>) {
      |caps| == if rowCount > 0 then rowCount else 0
    }

    /** Appends empty row slots; `firsts` tells where each row begins. */
    method ReserveRows(caps: seq<nat>) returns (firsts: seq<nat>)
      requires CapsFit(caps)
      modifies this
      ensures cells == old(cells) + Slots([], caps, |caps|, blank)
      ensures ranges == old(ranges) + RangesOf(caps, |old(cells)|, |caps|)
      ensures |firsts| == |caps| && forall row | 0 <= row < |caps| :: firsts[row] == |old(cells)| + Start(caps, row)
    {
      hide Slots, RangeOf, Padded, RangesOf, Start, Filled, Blanks;
      firsts := [];
      var base, total := |cells|, Start(caps, |caps|);
      ghost var before, beforeRanges := cells, ranges;
      NothingReserved(caps, base, blank);
      cells := cells + Blanks(total, NON_ROW, blank);
      var row, rowFirst := 0, base;
      while row < |caps|
        invariant 0 <= row <= |caps| && rowFirst == base + Start(caps, row) && Start(caps, row) <= total
        invariant cells == before + Slots([], caps, row, blank) + Blanks(total - Start(caps, row), NON_ROW, blank)
        invariant ranges == beforeRanges + RangesOf(caps, base, row)
        invariant |firsts| == row && forall r | 0 <= r < row :: firsts[r] == base + Start(caps, r)
      {
        ReserveStep(before, caps, row, total, blank);
        RangesStep(caps, base, row);
        firsts := firsts + [rowFirst];
        if caps[row] > 0 {
          ranges := ranges + [RowRange(row, rowFirst, caps[row])];
        }
        cells := Filled(cells, rowFirst, caps[row], row);
        rowFirst := rowFirst + caps[row];
        row := row + 1;
      }
    }

    /** Places the instances of a pass from `lead` on: into row slots, or at the end. */
    method PlaceInstances(instances: seq<T>, rows: seq<int>, pass: Pass, caps: seq<nat>, lead: nat, keepRows: bool,
                          firsts: seq<nat>, ghost items: seq<Item<T>>, ghost base: nat, ghost before: seq<Item<T>>)
      requires lead <= |items| && |before| == base
      requires items == if keepRows then PassItems(instances, rows, pass) else GlyphItems(PassItems(instances, rows, pass), caps)
      requires cells == before + PassCells(items[..lead], lead, caps, blank)
      requires forall k | 0 <= k < lead :: !HasSlot(caps, items[k].row)
      requires |firsts| == |caps| && forall row | 0 <= row < |caps| :: firsts[row] == base + lead + Start(caps, row)
      modifies this`cells
      ensures cells == before + PassCells(items, lead, caps, blank)
    {
      hide RowItems, PassCells, Start, PassItems, GlyphItems, RowAt, OffsetsOk;
      ItemsAre(instances, rows, pass, caps, keepRows, items);
      var writeOffsets: seq<nat> := seq(|caps|, _ => 0);
      NoOffsets(writeOffsets, items[..lead], caps);
      var offset := lead;
      ghost var n := lead;
      while offset < pass.count
        invariant lead <= n <= offset <= pass.count && (n == offset || n == |items|) && n <= |items|
        invariant cells == before + PassCells(items[..n], lead, caps, blank)
        invariant OffsetsOk(writeOffsets, items[..n], caps)
      {
        var instance := pass.first + offset;
        if instance < |instances| {
          var row := RowAt(rows, instance);
          PlaceNext(before, items, n, lead, caps, blank, cells, writeOffsets, row, instances[instance], keepRows);
          if HasSlot(caps, row) {
            var slot := firsts[row] + writeOffsets[row];
            if writeOffsets[row] < caps[row] {
              cells := cells[slot := Item(instances[instance], cells[slot].row)];
            }
            writeOffsets := writeOffsets[row := writeOffsets[row] + 1];
          } else {
            cells := cells + [Item(instances[instance], if keepRows then row else NON_ROW)];
          }
          n := n + 1;
        }
        offset := offset + 1;
      }
      assert items[..n] == items;
    }

    method AppendRowStableGlyphPass(instances: seq<T>, rows: seq<int>, pass: Pass, caps: seq<nat>) returns (bufferPass: Pass)
      requires CapsFit(caps)
      modifies this
      ensures cells == old(cells) + PassCells(GlyphItems(PassItems(instances, rows, pass), caps), 0, caps, blank)
      ensures ranges == old(ranges) + RangesOf(caps, |old(cells)|, |caps|)
      ensures bufferPass == Pass(|old(cells)|, |cells| - |old(cells)|)
    {
      hide PassCells, Slots, RangesOf, Start, HasSlot, PassItems, GlyphItems;
      ghost var items, before := GlyphItems(PassItems(instances, rows, pass), caps), cells;
      var first := |cells|;
      var firsts := ReserveRows(caps);
      LeadIsEmpty(items, 0, caps, blank);
      assert items[..0] + Slots([], caps, |caps|, blank) == Slots([], caps, |caps|, blank);
      PlaceInstances(instances, rows, pass, caps, 0, false, firsts, items, |before|, before);
      bufferPass := Pass(first, |cells| - first);
    }

    method AppendRowStableRectPass(instances: seq<T>, rows: seq<int>, pass: Pass, caps: seq<nat>) returns (bufferPass: Pass)
      requires CapsFit(caps)
      modifies this
      ensures var items := PassItems(instances, rows, pass);
              && cells == old(cells) + PassCells(items, LeadOf(items, caps), caps, blank)
              && ranges == old(ranges) + RangesOf(caps, |old(cells)| + LeadOf(items, caps), |caps|)
      ensures bufferPass == Pass(|old(cells)|, |cells| - |old(cells)|)
    {
      hide PassCells, Slots, LeadOf, RangesOf, Start, HasSlot, PassItems;
      ghost var items, before := PassItems(instances, rows, pass), cells;
      var first := |cells|;
      var lead := AppendLeading(instances, rows, pass, caps);
      var firsts := ReserveRows(caps);
      LeadIsEmpty(items, lead, caps, blank);
      PlaceInstances(instances, rows, pass, caps, lead, true, firsts, items, |before|, before);
      bufferPass := Pass(first, |cells| - first);
    }

    /** Appends the instances before the first that has row slots. */
    method AppendLeading(instances: seq<T>, rows: seq<int>, pass: Pass, caps: seq<nat>) returns (lead: nat)
      modifies this`cells
      ensures var items := PassItems(instances, rows, pass);
              lead == LeadOf(items, caps) && cells == old(cells) + items[..lead]
    {
      ghost var items := PassItems(instances, rows, pass);
      var offset := 0;
      lead := 0;
      while offset < pass.count
        invariant lead <= offset <= pass.count && lead <= |items| && (lead == offset || lead == |items|)
        invariant cells == old(cells) + items[..lead]
        invariant forall k | 0 <= k < lead :: !HasSlot(caps, items[k].row)
      {
        var instance := pass.first + offset;
        var row := RowAt(rows, instance);
        if HasSlot(caps, row) {
          LeadIs(items, caps, lead);
          return;
        }
        if instance < |instances| {
          assert items[..lead + 1] == items[..lead] + [items[lead]];
          cells := cells + [Item(instances[instance], row)];
          lead := lead + 1;
        }
        offset := offset + 1;
      }
      LeadIs(items, caps, lead);
    }

    /** Capacities for a pass that hold every instance with a row. */
    method FitCapacities(instances: seq<T>, rows: seq<int>, pass: Pass, caps: seq<nat>) returns (updated: seq<nat>)
      requires Buckets(caps)
      ensures CapsFit(updated) && Buckets(updated) && Fits(PassItems(instances, rows, pass), updated)
      ensures |caps| == |updated| && Fits(PassItems(instances, rows, pass), caps) && pass.first + pass.count <= |instances| ==>
        updated == caps
    {
      var required := RequiredRowCapacities(pass, rows, rowCount);
      updated := UpdateRowCapacities(caps, required, rowCount);
      RequiredFits(instances, rows, pass, required, updated);
      if |caps| == |updated| && Fits(PassItems(instances, rows, pass), caps) && pass.first + pass.count <= |instances| {
        forall row | 0 <= row < |updated| && row < |required|
          ensures required[row] <= caps[row]
        {
          CountCovers(instances, rows, pass, row);
        }
      }
    }

    /** The text pass and the cursor text pass of the glyph buffer. */
    method BuildGlyphLayout(instances: seq<T>, rows: seq<int>, text: Pass, cursorText: Pass, textCaps: seq<nat>,
          cursorCaps: seq<nat>)
      returns (newTextCaps: seq<nat>, newCursorCaps: seq<nat>, textPass: Pass, cursorPass: Pass)
      requires Buckets(textCaps) && Buckets(cursorCaps)
      modifies this
      ensures CapsFit(newTextCaps) && CapsFit(newCursorCaps) && Buckets(newTextCaps) && Buckets(newCursorCaps)
      ensures var textItems, cursorItems :=
                GlyphItems(PassItems(instances, rows, text), newTextCaps), GlyphItems(PassItems(instances, rows, cursorText), newCursorCaps);
              && Fits(textItems, newTextCaps) && Fits(cursorItems, newCursorCaps)
              && cells == PassCells(textItems, 0, newTextCaps, blank) + PassCells(cursorItems, 0, newCursorCaps, blank)
              && textPass == Pass(0, |PassCells(textItems, 0, newTextCaps, blank)|)
              && cursorPass == Pass(textPass.count, |cells| - textPass.count)
      ensures RangesOk(cells, ranges, rowCount)
    {
      hide PassCells, GlyphItems, PassItems, Fits, RangesOf, RangesOk, RowsHaveSlots;
      cells, ranges := [], [];
      newTextCaps := FitCapacities(instances, rows, text, textCaps);
      newCursorCaps := FitCapacities(instances, rows, cursorText, cursorCaps);
      ghost var textItems, cursorItems := GlyphItems(PassItems(instances, rows, text), newTextCaps),
                                          GlyphItems(PassItems(instances, rows, cursorText), newCursorCaps);
      GlyphFits(PassItems(instances, rows, text), newTextCaps);
      GlyphFits(PassItems(instances, rows, cursorText), newCursorCaps);
      EmptyRangesOk<T>(|newTextCaps|);
      PassKeepsRanges([], [], textItems, 0, newTextCaps, blank);
      textPass := AppendRowStableGlyphPass(instances, rows, text, newTextCaps);
      assert cells == [] + PassCells(textItems, 0, newTextCaps, blank);
      assert ranges == [] + RangesOf(newTextCaps, 0, |newTextCaps|);
      PassKeepsRanges(cells, ranges, cursorItems, 0, newCursorCaps, blank);
      cursorPass := AppendRowStableGlyphPass(instances, rows, cursorText, newCursorCaps);
      RowsOrNone(cells, ranges, rowCount, |newTextCaps|);
    }

    method FitAll(instances: seq<T>, rows: seq<int>, passes: seq<Pass>,
          capacities: seq<seq<nat>>) returns (updated: seq<seq<nat>>)
      requires |passes| == |capacities| && forall k | 0 <= k < |passes| :: Buckets(capacities[k])
      ensures |updated| == |passes|
      ensures forall k | 0 <= k < |passes| ::
        CapsFit(updated[k]) && Buckets(updated[k]) && Fits(PassItems(instances, rows, passes[k]), updated[k])
    {
      hide PassItems, Fits, Buckets;
      updated := [];
      var k := 0;
      while k < |passes|
        invariant k <= |passes| && |updated| == k
        invariant forall j | 0 <= j < k ::
          CapsFit(updated[j]) && Buckets(updated[j]) && Fits(PassItems(instances, rows, passes[j]), updated[j])
      {
        var caps := FitCapacities(instances, rows, passes[k], capacities[k]);
        updated := updated + [caps];
        k := k + 1;
      }
    }

    /** The passes of the rect buffer, back to front. */
    method BuildRectLayout(instances: seq<T>, rows: seq<int>, passes: seq<Pass>, capacities: seq<seq<nat>>)
      returns (updated: seq<seq<nat>>, bufferPasses: seq<Pass>)
      requires |passes| == |capacities| && forall k | 0 <= k < |passes| :: Buckets(capacities[k])
      modifies this
      ensures |updated| == |bufferPasses| == |passes|
      ensures forall k | 0 <= k < |passes| ::
        CapsFit(updated[k]) && Buckets(updated[k]) && Fits(PassItems(instances, rows, passes[k]), updated[k])
      ensures cells == RectCells(instances, rows, passes, updated, blank)
      ensures forall k | 0 <= k < |passes| :: bufferPasses[k] == BufferPass(instances, rows, passes, updated, blank, k)
      ensures RangesOk(cells, ranges, rowCount)
    {
      hide RectPassCells, PassItems, Fits, RangesOk, Buckets, RectRanges, RectCells;
      cells, ranges, bufferPasses := [], [], [];
      updated := FitAll(instances, rows, passes, capacities);
      ghost var count := if rowCount > 0 then rowCount else 0;
      EmptyRangesOk<T>(count);
      NoRectCells(instances, rows, passes, updated, blank);
      var k := 0;
      while k < |passes|
        invariant k <= |passes| && |bufferPasses| == k
        invariant cells == RectCells(instances, rows, passes[..k], updated[..k], blank)
        invariant RangesOk(cells, ranges, count)
        invariant forall j | 0 <= j < k :: bufferPasses[j] == BufferPass(instances, rows, passes, updated, blank, j)
      {
        ghost var items := PassItems(instances, rows, passes[k]);
        RectPassKeepsRanges(cells, ranges, items, updated[k], blank);
        var bufferPass := AppendRectPass(instances, rows, passes[k], updated[k]);
        RectCellsStep(instances, rows, passes, updated, blank, k);
        bufferPasses := bufferPasses + [bufferPass];
        k := k + 1;
      }
      assert passes[..k] == passes && updated[..k] == updated;
      RowsOrNone(cells, ranges, rowCount, count);
    }

    method AppendRectPass(instances: seq<T>, rows: seq<int>, pass: Pass, caps: seq<nat>) returns (bufferPass: Pass)
      requires CapsFit(caps)
      modifies this
      ensures cells == old(cells) + RectPassCells(PassItems(instances, rows, pass), caps, blank)
      ensures ranges == old(ranges) + RectRanges(PassItems(instances, rows, pass), caps, |old(cells)|)
      ensures bufferPass == Pass(|old(cells)|, |cells| - |old(cells)|)
    {
      bufferPass := AppendRowStableRectPass(instances, rows, pass, caps);
    }
  }

  predicate Buckets(caps: seq<nat>) {
    forall row | 0 <= row < |caps| :: IsBucket(caps[row])
  }

  function RectPassCells<T>(items: seq<Item<T>>, caps: seq<nat>, blank: T): seq<Item<T>> {
    PassCells(items, LeadOf(items, caps), caps, blank)
  }

  function RectRanges<T>(items: seq<Item<T>>, caps: seq<nat>, base: nat): seq<RowRange> {
    RangesOf(caps, base + LeadOf(items, caps), |caps|)
  }

  /** The rect buffer is its passes in order. */
  function RectCells<T>(instances: seq<T>, rows: seq<int>, passes: seq<Pass>, caps: seq<seq<nat>>, blank: T): seq<Item<T>>
    requires |passes| == |caps|
  {
    if passes == [] then []
    else
      var last := |passes| - 1;
      RectCells(instances, rows, passes[..last], caps[..last], blank)
      + RectPassCells(PassItems(instances, rows, passes[last]), caps[last], blank)
  }

  lemma {:induction false} RectPassKeepsRanges<T>(cells: seq<Item<T>>, ranges: seq<RowRange>, items: seq<Item<T>>,
        caps: seq<nat>, blank: T)
    requires RangesOk(cells, ranges, |caps|) && Fits(items, caps)
    ensures RangesOk(cells + RectPassCells(items, caps, blank), ranges + RectRanges(items, caps, |cells|), |caps|)
  {
    hide PassCells, RangesOf, RangesOk, RowsHaveSlots, Fits;
    FitsHasSlots(items, caps);
    PassKeepsRanges(cells, ranges, items, LeadOf(items, caps), caps, blank);
  }

  /** Where pass `k` of the rect buffer is. */
  function BufferPass<T>(instances: seq<T>, rows: seq<int>, passes: seq<Pass>, caps: seq<seq<nat>>, blank: T, k: nat): Pass
    requires |passes| == |caps| && k < |passes|
  {
    Pass(|RectCells(instances, rows, passes[..k], caps[..k], blank)|,
         |RectPassCells(PassItems(instances, rows, passes[k]), caps[k], blank)|)
  }

  lemma {:induction false} NoRectCells<T>(instances: seq<T>, rows: seq<int>, passes: seq<Pass>, caps: seq<seq<nat>>, blank: T)
    requires |passes| == |caps|
    ensures RectCells(instances, rows, passes[..0], caps[..0], blank) == []
  {
  }

  lemma {:induction false} RectCellsStep<T>(instances: seq<T>, rows: seq<int>, passes: seq<Pass>, caps: seq<seq<nat>>,
        blank: T, k: nat)
    requires |passes| == |caps| && k < |passes|
    ensures RectCells(instances, rows, passes[..k + 1], caps[..k + 1], blank)
         == RectCells(instances, rows, passes[..k], caps[..k], blank)
            + RectPassCells(PassItems(instances, rows, passes[k]), caps[k], blank)
  {
    assert passes[..k + 1][..k] == passes[..k] && caps[..k + 1][..k] == caps[..k];
  }

  /** A pass's part of the rect buffer holds that pass and no other. */
  lemma {:induction false} RectPassSlice<T>(instances: seq<T>, rows: seq<int>, passes: seq<Pass>, caps: seq<seq<nat>>, blank: T,
                                           k: nat, n: nat)
    requires |passes| == |caps| && k < n <= |passes|
    ensures var cells, pass := RectCells(instances, rows, passes[..n], caps[..n], blank), BufferPass(instances, rows, passes, caps, blank, k);
            && pass.first + pass.count <= |cells|
            && cells[pass.first..pass.first + pass.count] == RectPassCells(PassItems(instances, rows, passes[k]), caps[k], blank)
  {
    hide RectCells, RectPassCells, PassItems;
    RectCellsStep(instances, rows, passes, caps, blank, n - 1);
    if k < n - 1 {
      RectPassSlice(instances, rows, passes, caps, blank, k, n - 1);
    }
  }

  lemma {:induction false} RequiredFits<T>(instances: seq<T>, rows: seq<int>, pass: Pass, required: seq<nat>, caps: seq<nat>)
    requires pass.count > 0 && |caps| > 0 ==>
      |required| == |caps| && forall row | 0 <= row < |caps| :: CountRow(rows, pass, row) == required[row] <= caps[row]
    ensures Fits(PassItems(instances, rows, pass), caps)
  {
    forall row | 0 <= row < |caps|
      ensures |RowItems(PassItems(instances, rows, pass), row)| <= caps[row]
    {
      CountCovers(instances, rows, pass, row);
    }
  }

  lemma {:induction false} GlyphFits<T>(items: seq<Item<T>>, caps: seq<nat>)
    requires Fits(items, caps)
    ensures Fits(GlyphItems(items, caps), caps) && RowsHaveSlots(GlyphItems(items, caps), caps)
  {
    forall row | 0 <= row < |caps|
      ensures |RowItems(GlyphItems(items, caps), row)| <= caps[row]
    {
      GlyphRow(items, caps, row);
    }
  }

  lemma {:induction false} GlyphRow<T>(items: seq<Item<T>>, caps: seq<nat>, row: nat)
    ensures |RowItems(GlyphItems(items, caps), row)| <= |RowItems(items, row)|
  {
    if items != [] {
      GlyphRow(Front(items), caps, row);
      assert Front(GlyphItems(items, caps)) == GlyphItems(Front(items), caps);
    }
  }

  lemma {:induction false} EmptyRangesOk<T>(rowCount: int)
    ensures RangesOk<T>([], [], rowCount)
  {
  }

  lemma {:induction false} RowsOrNone<T>(cells: seq<Item<T>>, ranges: seq<RowRange>, rowCount: int, count: nat)
    requires RangesOk(cells, ranges, count) && count == if rowCount > 0 then rowCount else 0
    ensures RangesOk(cells, ranges, rowCount)
  {
  }

  lemma {:induction false} LeadIs<T>(items: seq<Item<T>>, caps: seq<nat>, lead: nat)
    requires lead <= |items| && (forall k | 0 <= k < lead :: !HasSlot(caps, items[k].row))
    requires lead < |items| ==> HasSlot(caps, items[lead].row)
    ensures lead == LeadOf(items, caps)
  {
  }

  /** The items that are placed. */
  lemma {:induction false} ItemsAre<T>(instances: seq<T>, rows: seq<int>, pass: Pass, caps: seq<nat>, keepRows: bool,
        items: seq<Item<T>>)
    requires items == if keepRows then PassItems(instances, rows, pass) else GlyphItems(PassItems(instances, rows, pass), caps)
    ensures |items| <= pass.count && (|items| > 0 ==> pass.first + |items| <= |instances|)
    ensures |items| < pass.count ==> pass.first + |items| >= |instances|
    ensures forall k | 0 <= k < |items| ::
      items[k] == var row := RowAt(rows, pass.first + k);
                  Item(instances[pass.first + k], if keepRows || HasSlot(caps, row) then row else NON_ROW)
    ensures !HasSlot(caps, NON_ROW)
  {
  }

  lemma {:induction false} RangesStep(caps: seq<nat>, base: nat, row: nat)
    requires row < |caps|
    ensures RangesOf(caps, base, row + 1) == RangesOf(caps, base, row)
      + if caps[row] > 0 then [RowRange(row, base + Start(caps, row), caps[row])] else []
  {
  }

  lemma {:induction false} NothingReserved<T>(caps: seq<nat>, base: nat, blank: T)
    ensures Slots([], caps, 0, blank) == [] && RangesOf(caps, base, 0) == [] && Start(caps, 0) == 0
  {
  }

  /** Placing one more instance, in a buffer that begins with `before`. */
  lemma {:induction false} PlaceStep<T>(before: seq<Item<T>>, some: seq<Item<T>>, item: Item<T>, lead: nat,
        caps: seq<nat>, blank: T)
    requires lead <= |some|
    ensures var cells, more := before + PassCells(some, lead, caps, blank), before + PassCells(some + [item], lead, caps, blank);
            if HasSlot(caps, item.row) then
              var used := |RowItems(some, item.row)|;
              var slot := |before| + lead + Start(caps, item.row) + used;
              if used < caps[item.row] then slot < |cells| && cells[slot].row == item.row && more == cells[slot := item]
              else more == cells
            else more == cells + [item]
  {
    hide PassCells, RowItems, Start;
    PassCellsPush(some, item, lead, caps, blank);
    if HasSlot(caps, item.row) && |RowItems(some, item.row)| < caps[item.row] {
      SlotHasRow(some, lead, caps, blank, item.row, |RowItems(some, item.row)|);
      ReplaceInBack(before, PassCells(some, lead, caps, blank), lead + Start(caps, item.row) + |RowItems(some, item.row)|, item);
    }
  }

  /** Each row's next free slot. */
  predicate OffsetsOk<T>(offsets: seq<nat>, placed: seq<Item<T>>, caps: seq<nat>) {
    |offsets| == |caps| && forall row | 0 <= row < |caps| && caps[row] > 0 :: offsets[row] == |RowItems(placed, row)|
  }

  lemma {:induction false} NoOffsets<T>(offsets: seq<nat>, placed: seq<Item<T>>, caps: seq<nat>)
    requires |offsets| == |caps| && forall row | 0 <= row < |offsets| :: offsets[row] == 0
    requires forall k | 0 <= k < |placed| :: !HasSlot(caps, placed[k].row)
    ensures OffsetsOk(offsets, placed, caps)
  {
    NothingInRows(placed, caps);
    assert forall row | 0 <= row < |caps| && caps[row] > 0 :: HasSlot(caps, row);
  }

  lemma {:induction false} OffsetsStep<T>(offsets: seq<nat>, placed: seq<Item<T>>, item: Item<T>, caps: seq<nat>)
    requires OffsetsOk(offsets, placed, caps)
    ensures |offsets| == |caps|
    ensures HasSlot(caps, item.row) ==> offsets[item.row] == |RowItems(placed, item.row)|
    ensures OffsetsOk(if HasSlot(caps, item.row) then offsets[item.row := offsets[item.row] + 1] else offsets, placed + [item], caps)
  {
    forall row | 0 <= row < |caps| && caps[row] > 0
      ensures |RowItems(placed + [item], row)| == |RowItems(placed, row)| + if item.row == row then 1 else 0
    {
      RowItemsStep(placed, item, row);
    }
  }

  /** Placing instance `n`, whose row is `row`. */
  lemma {:induction false} PlaceNext<T>(before: seq<Item<T>>, items: seq<Item<T>>, n: nat, lead: nat, caps: seq<nat>, blank: T,
                      cells: seq<Item<T>>, offsets: seq<nat>, row: int, value: T, keepRows: bool)
    requires lead <= n < |items| && !HasSlot(caps, NON_ROW)
    requires items[n] == Item(value, if keepRows || HasSlot(caps, row) then row else NON_ROW)
    requires cells == before + PassCells(items[..n], lead, caps, blank) && OffsetsOk(offsets, items[..n], caps)
    ensures |offsets| == |caps|
    ensures var more := before + PassCells(items[..n + 1], lead, caps, blank);
            if HasSlot(caps, row) then
              var slot := |before| + lead + Start(caps, row) + offsets[row];
              && OffsetsOk(offsets[row := offsets[row] + 1], items[..n + 1], caps)
              && (if offsets[row] < caps[row] then slot < |cells| && more == cells[slot := Item(value, cells[slot].row)] else more == cells)
            else
              more == cells + [Item(value, if keepRows then row else NON_ROW)] && OffsetsOk(offsets, items[..n + 1], caps)
  {
    hide PassCells, RowItems, Start, OffsetsOk;
    assert items[..n + 1] == items[..n] + [items[n]];
    PlaceStep(before, items[..n], items[n], lead, caps, blank);
    OffsetsStep(offsets, items[..n], items[n], caps);
  }

  lemma {:induction false} SlotHasRow<T>(some: seq<Item<T>>, lead: nat, caps: seq<nat>, blank: T, row: nat, p: nat)
    requires lead <= |some| && row < |caps| && p < caps[row]
    ensures var slot := lead + Start(caps, row) + p;
            slot < |PassCells(some, lead, caps, blank)| && PassCells(some, lead, caps, blank)[slot].row == row
  {
    PassSlotRow(some, lead, caps, blank, lead + Start(caps, row) + p, row);
  }

  /** Before any item with row slots, the slots of a pass are empty. */
  lemma {:induction false} LeadIsEmpty<T>(items: seq<Item<T>>, lead: nat, caps: seq<nat>, blank: T)
    requires lead <= |items| && forall k | 0 <= k < lead :: !HasSlot(caps, items[k].row)
    ensures PassCells(items[..lead], lead, caps, blank) == items[..lead] + Slots([], caps, |caps|, blank)
  {
    hide Slots, RowItems, HasSlot, Outside;
    var some := items[..lead];
    assert some[lead..] == [] && some[..lead] == some;
    NothingInRows(some, caps);
    SlotsOfNothing(some, caps, |caps|, blank);
    NothingAfter(some + Slots(some, caps, |caps|, blank), Outside(some[lead..], caps));
  }

  lemma {:induction false} NothingAfter<U>(front: seq<U>, back: seq<U>)
    requires |back| == 0
    ensures front + back == front
  {
  }

  lemma {:induction false} NoRowItems<T>(row: int)
    ensures RowItems<T>([], row) == []
  {
  }

  lemma {:induction false} NoSlots<T>(items: seq<Item<T>>, row: int, blank: T)
    ensures Padded(items, 0, row, blank) == []
  {
  }

  lemma {:induction false} SlotsOfNothing<T>(items: seq<Item<T>>, caps: seq<nat>, count: nat, blank: T)
    requires count <= |caps| && forall row | HasSlot(caps, row) :: RowItems(items, row) == []
    ensures Slots(items, caps, count, blank) == Slots([], caps, count, blank)
  {
    hide RowItems, Padded;
    if count > 0 {
      SlotsOfNothing(items, caps, count - 1, blank);
      if caps[count - 1] > 0 {
        assert HasSlot(caps, count - 1);
        NoRowItems<T>(count - 1);
      } else {
        NoSlots(RowItems(items, count - 1), count - 1, blank);
        NoSlots(RowItems([], count - 1), count - 1, blank);
      }
    }
  }
}
