/** The row-stable layout of an instance buffer (src/qsg_atlas_renderer.cpp):
    each row owns a fixed run of slots, so a changed row moves no other row. */
module AtlasLayout {
  import opened AtlasUpload

  /** An instance with its row. The instance vector and the row vector of a
      buffer grow in step and are one sequence here. */
  datatype Item<T> = Item(value: T, row: int)

  datatype Pass = Pass(first: nat, count: nat)

  function Last<T>(s: seq<T>): T
    requires s != []
  {
    s[|s| - 1]
  }

  function Front<T>(s: seq<T>): seq<T>
    requires s != []
  {
    s[..|s| - 1]
  }

  // ---- Capacities -----------------------------------------------------------------

  function CapacityBucket(required: int): (r: nat)
    ensures r >= required
    ensures required > 0 ==> r < required + 32
  {
    if required <= 0 then 0
    else if required <= 8 then 8
    else ((required + 31) / 32) * 32
  }

  /** Slots before those of row `row`. */
  function Start(caps: seq<nat>, row: nat): (r: nat)
    requires row <= |caps|
  {
    if row == 0 then 0 else Start(caps, row - 1) + caps[row - 1]
  }

  lemma {:induction false} StartStep(caps: seq<nat>, row: nat)
    requires row < |caps|
    ensures Start(caps, row + 1) == Start(caps, row) + caps[row]
  {
  }

  lemma {:induction false} StartsApart(caps: seq<nat>, a: nat, b: nat)
    requires a < b <= |caps|
    ensures Start(caps, a) + caps[a] <= Start(caps, b)
  {
    if a + 1 < b {
      StartsApart(caps, a, b - 1);
    }
  }

  predicate HasSlot(caps: seq<nat>, row: int) {
    0 <= row < |caps| && caps[row] > 0
  }

  // ---- What a pass puts where -------------------------------------------------------

  function RowAt(rows: seq<int>, instance: nat): int {
    if instance < |rows| then rows[instance] else NON_ROW
  }

  /** How many instances a pass really has. */
  function PassLength<T>(instances: seq<T>, pass: Pass): (r: nat)
    ensures r <= pass.count && (r > 0 ==> pass.first + r <= |instances|)
    ensures r < pass.count ==> pass.first + r >= |instances|
  {
    if pass.first >= |instances| then 0
    else if pass.count < |instances| - pass.first then pass.count
    else |instances| - pass.first
  }

  function PassItems<T>(instances: seq<T>, rows: seq<int>, pass: Pass): (r: seq<Item<T>>)
    ensures |r| == PassLength(instances, pass)
    ensures forall k | 0 <= k < |r| :: r[k] == Item(instances[pass.first + k], RowAt(rows, pass.first + k))
  {
    seq(PassLength(instances, pass), k requires 0 <= k < PassLength(instances, pass) =>
      Item(instances[pass.first + k], RowAt(rows, pass.first + k)))
  }

  /** The items of one row, in order. */
  function RowItems<T>(items: seq<Item<T>>, row: int): (r: seq<Item<T>>)
    ensures |r| <= |items| && forall k | 0 <= k < |r| :: r[k].row == row
  {
    if items == [] then []
    else RowItems(Front(items), row) + if Last(items).row == row then [Last(items)] else []
  }

  /** The items that have no row slots, in order. */
  function Outside<T>(items: seq<Item<T>>, caps: seq<nat>): (r: seq<Item<T>>)
    ensures |r| <= |items| && forall k | 0 <= k < |r| :: !HasSlot(caps, r[k].row)
  {
    if items == [] then []
    else Outside(Front(items), caps) + if HasSlot(caps, Last(items).row) then [] else [Last(items)]
  }

  /** The slots of one row: its items, as many as fit, then blanks. */
  function Padded<T>(items: seq<Item<T>>, cap: nat, row: int, blank: T): (r: seq<Item<T>>)
    ensures |r| == cap
    ensures forall k | 0 <= k < cap :: r[k] == if k < |items| then items[k] else Item(blank, row)
  {
    if |items| >= cap then items[..cap] else items + seq(cap - |items|, _ => Item(blank, row))
  }

  /** The slots of the first `count` rows. */
  function Slots<T>(items: seq<Item<T>>, caps: seq<nat>, count: nat, blank: T): (r: seq<Item<T>>)
    requires count <= |caps|
    ensures |r| == Start(caps, count)
  {
    if count == 0 then []
    else Slots(items, caps, count - 1, blank) + Padded(RowItems(items, count - 1), caps[count - 1], count - 1, blank)
  }

  /** What a pass appends: `lead` items as they come, the row slots, the other items. */
  function PassCells<T>(items: seq<Item<T>>, lead: nat, caps: seq<nat>, blank: T): seq<Item<T>>
    requires lead <= |items|
  {
    items[..lead] + Slots(items, caps, |caps|, blank) + Outside(items[lead..], caps)
  }

  /** How many items come before the first that has row slots. */
  function LeadOf<T>(items: seq<Item<T>>, caps: seq<nat>): (r: nat)
    ensures r <= |items|
    ensures forall k | 0 <= k < r :: !HasSlot(caps, items[k].row)
    ensures r < |items| ==> HasSlot(caps, items[r].row)
  {
    if items == [] || HasSlot(caps, items[0].row) then 0 else 1 + LeadOf(items[1..], caps)
  }

  /** Where item `k` goes. */
  function SlotOf<T>(items: seq<Item<T>>, lead: nat, caps: seq<nat>, k: nat): nat
    requires lead <= |items| && k < |items|
  {
    var row := items[k].row;
    if k < lead then k
    else if HasSlot(caps, row) then lead + Start(caps, row) + |RowItems(items[..k], row)|
    else lead + Start(caps, |caps|) + |Outside(items[lead..k], caps)|
  }

  /** Slot `p` is that of one of the first `n` items. */
  ghost predicate Taken<T>(items: seq<Item<T>>, lead: nat, caps: seq<nat>, n: nat, p: nat)
    requires lead <= |items| && n <= |items|
  {
    exists k: nat :: k < n && SlotOf(items, lead, caps, k) == p
  }

  /** Every row's capacity holds its items. */
  predicate Fits<T>(items: seq<Item<T>>, caps: seq<nat>) {
    forall row | 0 <= row < |caps| :: |RowItems(items, row)| <= caps[row]
  }

  // ---- Adding one item ---------------------------------------------------------------

  lemma {:induction false} RowItemsStep<T>(items: seq<Item<T>>, item: Item<T>, row: int)
    ensures RowItems(items + [item], row) == RowItems(items, row) + if item.row == row then [item] else []
  {
    assert Front(items + [item]) == items;
  }

  lemma {:induction false} OutsideStep<T>(items: seq<Item<T>>, item: Item<T>, caps: seq<nat>)
    ensures Outside(items + [item], caps) == Outside(items, caps) + if HasSlot(caps, item.row) then [] else [item]
  {
    assert Front(items + [item]) == items;
  }

  lemma {:induction false} PaddedStep<T>(items: seq<Item<T>>, item: Item<T>, cap: nat, row: int, blank: T)
    ensures Padded(items + [item], cap, row, blank) ==
      if |items| < cap then Padded(items, cap, row, blank)[|items| := item] else Padded(items, cap, row, blank)
  {
  }

  lemma {:induction false} SlotsSame<T>(items: seq<Item<T>>, item: Item<T>, caps: seq<nat>, count: nat, blank: T)
    requires count <= |caps| && !(0 <= item.row < count && |RowItems(items, item.row)| < caps[item.row])
    ensures Slots(items + [item], caps, count, blank) == Slots(items, caps, count, blank)
  {
    hide RowItems, Padded;
    if count > 0 {
      SlotsSame(items, item, caps, count - 1, blank);
      RowItemsStep(items, item, count - 1);
      PaddedStep(RowItems(items, count - 1), item, caps[count - 1], count - 1, blank);
    }
  }

  lemma {:induction false} ReplaceInFront<U>(front: seq<U>, back: seq<U>, p: nat, u: U)
    requires p < |front|
    ensures (front + back)[p := u] == front[p := u] + back
  {
  }

  lemma {:induction false} ReplaceInBack<U>(front: seq<U>, back: seq<U>, p: nat, u: U)
    requires p < |back|
    ensures (front + back)[|front| + p := u] == front + back[p := u]
  {
  }

  lemma {:induction false} SlotsUnfold<T>(items: seq<Item<T>>, caps: seq<nat>, last: nat, blank: T)
    requires last < |caps|
    ensures Slots(items, caps, last + 1, blank) ==
      Slots(items, caps, last, blank) + Padded(RowItems(items, last), caps[last], last, blank)
  {
  }

  /** One more item of a row goes to that row's next slot and nowhere else. */
  lemma {:induction false} SlotsStep<T>(items: seq<Item<T>>, item: Item<T>, caps: seq<nat>, count: nat, blank: T)
    requires 0 <= item.row < count <= |caps| && |RowItems(items, item.row)| < caps[item.row]
    ensures var p := Start(caps, item.row) + |RowItems(items, item.row)|;
            && p < Start(caps, count)
            && Slots(items + [item], caps, count, blank) == Slots(items, caps, count, blank)[p := item]
  {
    hide RowItems, Padded, Start, Slots;
    StartStep(caps, count - 1);
    var row, last := item.row, count - 1;
    SlotsUnfold(items, caps, last, blank);
    SlotsUnfold(items + [item], caps, last, blank);
    var here := RowItems(items, last);
    RowItemsStep(items, item, last);
    PaddedStep(here, item, caps[last], last, blank);
    var front, back := Slots(items, caps, last, blank), Padded(here, caps[last], last, blank);
    if row == last {
      SlotsSame(items, item, caps, last, blank);
      ReplaceInBack(front, back, |here|, item);
    } else {
      SlotsStep(items, item, caps, last, blank);
      ReplaceInFront(front, back, Start(caps, row) + |RowItems(items, row)|, item);
    }
  }

  // ---- Nothing is lost -------------------------------------------------------------------

  lemma {:induction false} RowItemsGrow<T>(items: seq<Item<T>>, a: nat, b: nat, row: int)
    requires a <= b <= |items|
    ensures |RowItems(items[..a], row)| <= |RowItems(items[..b], row)|
    ensures a < b && items[a].row == row ==> |RowItems(items[..a], row)| < |RowItems(items[..b], row)|
  {
    if a < b {
      RowItemsGrow(items, a, b - 1, row);
      assert items[..b] == items[..b - 1] + [items[b - 1]];
      RowItemsStep(items[..b - 1], items[b - 1], row);
    }
  }

  lemma {:induction false} OutsideGrow<T>(items: seq<Item<T>>, a: nat, b: nat, caps: seq<nat>)
    requires a <= b <= |items|
    ensures |Outside(items[..a], caps)| <= |Outside(items[..b], caps)|
    ensures a < b && !HasSlot(caps, items[a].row) ==> |Outside(items[..a], caps)| < |Outside(items[..b], caps)|
  {
    if a < b {
      OutsideGrow(items, a, b - 1, caps);
      assert items[..b] == items[..b - 1] + [items[b - 1]];
      OutsideStep(items[..b - 1], items[b - 1], caps);
    }
  }

  lemma {:induction false} RowSlotInside<T>(items: seq<Item<T>>, lead: nat, caps: seq<nat>, k: nat)
    requires lead <= k < |items| && HasSlot(caps, items[k].row) && Fits(items, caps)
    ensures var row := items[k].row;
            lead + Start(caps, row) <= SlotOf(items, lead, caps, k) < lead + Start(caps, row) + caps[row]
              <= lead + Start(caps, |caps|)
  {
    var row := items[k].row;
    assert items[..|items|] == items;
    RowItemsGrow(items, k, |items|, row);
    StartsApart(caps, row, |caps|);
  }

  /** No two instances share a slot. */
  lemma {:induction false} SlotsDistinct<T>(items: seq<Item<T>>, lead: nat, caps: seq<nat>, a: nat, b: nat)
    requires lead <= |items| && a < b < |items| && Fits(items, caps)
    ensures SlotOf(items, lead, caps, a) != SlotOf(items, lead, caps, b)
  {
    hide Fits, Start, RowItems, Outside;
    var rowA, rowB := items[a].row, items[b].row;
    if lead <= a {
      if HasSlot(caps, rowA) { RowSlotInside(items, lead, caps, a); }
      if HasSlot(caps, rowB) { RowSlotInside(items, lead, caps, b); }
      if HasSlot(caps, rowA) && HasSlot(caps, rowB) {
        if rowA == rowB {
          RowItemsGrow(items, a, b, rowA);
        } else if rowA < rowB {
          StartsApart(caps, rowA, rowB);
        } else {
          StartsApart(caps, rowB, rowA);
        }
      } else if !HasSlot(caps, rowA) && !HasSlot(caps, rowB) {
        OutsideGrow(items[lead..], a - lead, b - lead, caps);
        assert items[lead..][..a - lead] == items[lead..a] && items[lead..][..b - lead] == items[lead..b];
      }
    } else if lead <= b {
      if HasSlot(caps, rowB) { RowSlotInside(items, lead, caps, b); }
    }
  }

  lemma {:induction false} PassCellsStep<T>(items: seq<Item<T>>, lead: nat, caps: seq<nat>, blank: T, n: nat)
    requires lead <= n < |items| && Fits(items, caps)
    ensures var cells, more := PassCells(items[..n], lead, caps, blank), PassCells(items[..n + 1], lead, caps, blank);
            var p := SlotOf(items, lead, caps, n);
            if HasSlot(caps, items[n].row) then p < |cells| && more == cells[p := items[n]]
            else p == |cells| && more == cells + [items[n]]
  {
    hide RowItems, Outside, Slots, Fits;
    PassCellsPush(items[..n], items[n], lead, caps, blank);
    assert items[..n + 1] == items[..n] + [items[n]] && items[..n][lead..] == items[lead..n];
    if HasSlot(caps, items[n].row) {
      RowHasRoom(items, caps, n);
    }
  }

  lemma {:induction false} RowHasRoom<T>(items: seq<Item<T>>, caps: seq<nat>, n: nat)
    requires n < |items| && Fits(items, caps) && HasSlot(caps, items[n].row)
    ensures |RowItems(items[..n], items[n].row)| < caps[items[n].row]
  {
    assert items[..|items|] == items;
    RowItemsGrow(items, n, |items|, items[n].row);
  }

  /** What a pass does with one more item, one that does not fit included. */
  lemma {:induction false} PassCellsPush<T>(some: seq<Item<T>>, item: Item<T>, lead: nat, caps: seq<nat>, blank: T)
    requires lead <= |some|
    ensures var cells, more := PassCells(some, lead, caps, blank), PassCells(some + [item], lead, caps, blank);
            if HasSlot(caps, item.row) then
              var p := lead + Start(caps, item.row) + |RowItems(some, item.row)|;
              if |RowItems(some, item.row)| < caps[item.row] then p < |cells| && more == cells[p := item] else more == cells
            else |cells| == lead + Start(caps, |caps|) + |Outside(some[lead..], caps)| && more == cells + [item]
  {
    hide RowItems, Outside, Slots;
    assert (some + [item])[lead..] == some[lead..] + [item] && (some + [item])[..lead] == some[..lead];
    OutsideStep(some[lead..], item, caps);
    if HasSlot(caps, item.row) && |RowItems(some, item.row)| < caps[item.row] {
      SlotsStep(some, item, caps, |caps|, blank);
      var slots, p := Slots(some, caps, |caps|, blank), Start(caps, item.row) + |RowItems(some, item.row)|;
      ReplaceInBack(some[..lead], slots, p, item);
      ReplaceInFront(some[..lead] + slots, Outside(some[lead..], caps), lead + p, item);
    } else {
      SlotsSame(some, item, caps, |caps|, blank);
    }
  }

  /** Every instance is in its slot, and slots that are no instance's are blank. */
  lemma {:induction false} EveryItemInItsSlot<T>(items: seq<Item<T>>, lead: nat, caps: seq<nat>, blank: T, n: nat)
    requires lead <= n <= |items| && Fits(items, caps)
    requires forall k | 0 <= k < lead :: !HasSlot(caps, items[k].row)
    ensures var cells := PassCells(items[..n], lead, caps, blank);
            && (forall k: nat | k < n :: SlotOf(items, lead, caps, k) < |cells| && cells[SlotOf(items, lead, caps, k)] == items[k])
            && (forall p: nat | p < |cells| ::
                  Taken(items, lead, caps, n, p)
                  || (lead <= p < lead + Start(caps, |caps|) && cells[p].value == blank))
  {
    hide Fits, RowItems, Outside, HasSlot, Slots, SlotOf, PassCells;
    var cells := PassCells(items[..n], lead, caps, blank);
    if n == lead {
      LeadCells(items, lead, caps, blank);
    } else {
      var before, last := PassCells(items[..n - 1], lead, caps, blank), SlotOf(items, lead, caps, n - 1);
      EveryItemInItsSlot(items, lead, caps, blank, n - 1);
      PassCellsStep(items, lead, caps, blank, n - 1);
      forall k: nat | k < n - 1
        ensures SlotOf(items, lead, caps, k) != last
      {
        SlotsDistinct(items, lead, caps, k, n - 1);
      }
      forall p: nat | p < |cells|
        ensures Taken(items, lead, caps, n, p)
          || (lead <= p < lead + Start(caps, |caps|) && cells[p].value == blank)
      {
        if p == last {
          assert Taken(items, lead, caps, n, p);
        } else {
          assert Taken(items, lead, caps, n - 1, p) ==> Taken(items, lead, caps, n, p);
          assert p < |before| && cells[p] == before[p];
        }
      }
    }
  }

  /** Before the first item with row slots. */
  lemma {:induction false} LeadCells<T>(items: seq<Item<T>>, lead: nat, caps: seq<nat>, blank: T)
    requires lead <= |items| && forall k | 0 <= k < lead :: !HasSlot(caps, items[k].row)
    ensures var cells := PassCells(items[..lead], lead, caps, blank);
            && |cells| == lead + Start(caps, |caps|)
            && (forall p: nat | p < lead :: SlotOf(items, lead, caps, p) == p && cells[p] == items[p] && Taken(items, lead, caps, lead, p))
            && (forall p: nat | lead <= p < |cells| :: cells[p].value == blank)
  {
    hide Slots, RowItems;
    var some := items[..lead];
    assert some[lead..] == [] && Outside(some[lead..], caps) == [] && some[..lead] == some;
    NothingInRows(some, caps);
    BlankSlots(some, caps, |caps|, blank);
    var cells := PassCells(some, lead, caps, blank);
    assert cells == some + Slots(some, caps, |caps|, blank);
    forall p: nat | p < lead
      ensures SlotOf(items, lead, caps, p) == p && cells[p] == items[p] && Taken(items, lead, caps, lead, p)
    {
      assert SlotOf(items, lead, caps, p) == p;
    }
    forall p: nat | lead <= p < |cells|
      ensures cells[p].value == blank
    {
      assert cells[p] == Slots(some, caps, |caps|, blank)[p - lead];
    }
  }

  lemma {:induction false} NothingInRows<T>(items: seq<Item<T>>, caps: seq<nat>)
    requires forall k | 0 <= k < |items| :: !HasSlot(caps, items[k].row)
    ensures forall row | HasSlot(caps, row) :: RowItems(items, row) == []
  {
    if items != [] {
      NothingInRows(Front(items), caps);
    }
  }

  lemma {:induction false} BlankSlots<T>(items: seq<Item<T>>, caps: seq<nat>, count: nat, blank: T)
    requires count <= |caps| && forall row | HasSlot(caps, row) :: RowItems(items, row) == []
    ensures forall p | 0 <= p < Start(caps, count) :: Slots(items, caps, count, blank)[p].value == blank
  {
    if count > 0 {
      BlankSlots(items, caps, count - 1, blank);
      if caps[count - 1] > 0 {
        assert HasSlot(caps, count - 1);
      }
    }
  }

  lemma {:induction false} SliceOfFront<U>(front: seq<U>, back: seq<U>, a: nat, b: nat)
    requires a <= b <= |front|
    ensures (front + back)[a..b] == front[a..b]
  {
  }

  lemma {:induction false} SliceIsBack<U>(front: seq<U>, back: seq<U>)
    ensures (front + back)[|front|..|front| + |back|] == back
  {
  }

  /** Each row's slots hold that row's items in order, then blanks. */
  lemma {:induction false} RowIsInOrder<T>(items: seq<Item<T>>, caps: seq<nat>, count: nat, row: nat, blank: T)
    requires row < count <= |caps|
    ensures Start(caps, row) + caps[row] <= Start(caps, count)
    ensures Slots(items, caps, count, blank)[Start(caps, row)..Start(caps, row) + caps[row]]
         == Padded(RowItems(items, row), caps[row], row, blank)
  {
    hide RowItems, Padded;
    var last := count - 1;
    var front, back := Slots(items, caps, last, blank), Padded(RowItems(items, last), caps[last], last, blank);
    if row < last {
      RowIsInOrder(items, caps, last, row, blank);
      SliceOfFront(front, back, Start(caps, row), Start(caps, row) + caps[row]);
    } else {
      SliceIsBack(front, back);
    }
  }

  // ---- Rows that fit stay where they are ---------------------------------------------

  predicate IsBucket(capacity: nat) {
    capacity == 0 || capacity == 8 || capacity % 32 == 0
  }

  lemma {:induction false} BucketIsLeast(required: int, capacity: nat)
    requires IsBucket(capacity) && required <= capacity
    ensures IsBucket(CapacityBucket(required)) && CapacityBucket(required) <= capacity
  {
    if required > 8 {
      var b, q := (required + 31) / 32, capacity / 32;
      assert capacity == q * 32 && b * 32 <= required + 31;
      assert b <= q;
    }
  }

  /** Nothing, eight, or so many times thirty-two. */
  lemma {:induction false} BucketsAre(n: nat)
    ensures IsBucket(n) <==> n == 0 || n == 8 || exists k: nat :: n == 32 * k
    ensures CapacityBucket(0) == 0 && CapacityBucket(1) == CapacityBucket(8) == 8 && CapacityBucket(9) == CapacityBucket(32) == 32
    ensures CapacityBucket(33) == 64
  {
    assert n % 32 == 0 ==> n == 32 * (n / 32);
  }

  /** A row whose items are the same keeps its slots, whatever the other rows do. */
  lemma {:induction false} OtherRowsUnmoved<T>(items: seq<Item<T>>, items': seq<Item<T>>, caps: seq<nat>, row: nat, blank: T)
    requires row < |caps| && RowItems(items, row) == RowItems(items', row)
    ensures Start(caps, row) + caps[row] <= Start(caps, |caps|)
    ensures Slots(items, caps, |caps|, blank)[Start(caps, row)..Start(caps, row) + caps[row]]
         == Slots(items', caps, |caps|, blank)[Start(caps, row)..Start(caps, row) + caps[row]]
  {
    RowIsInOrder(items, caps, |caps|, row, blank);
    RowIsInOrder(items', caps, |caps|, row, blank);
  }

  // ---- Ranges ------------------------------------------------------------------------

  /** The slots of row `row`, when those of the first row begin at `base`. */
  function RangeOf(caps: seq<nat>, base: nat, row: nat): RowRange
    requires row < |caps|
  {
    RowRange(row, base + Start(caps, row), caps[row])
  }

  /** The ranges of the first `count` rows. */
  function RangesOf(caps: seq<nat>, base: nat, count: nat): seq<RowRange>
    requires count <= |caps|
  {
    if count == 0 then []
    else if caps[count - 1] > 0 then RangesOf(caps, base, count - 1) + [RangeOf(caps, base, count - 1)]
    else RangesOf(caps, base, count - 1)
  }

  predicate InRange(range: RowRange, p: nat) {
    range.first <= p < range.first + range.count
  }

  predicate RangesInside<T>(cells: seq<Item<T>>, ranges: seq<RowRange>) {
    forall i | 0 <= i < |ranges| :: 0 <= ranges[i].first && 0 < ranges[i].count && ranges[i].first + ranges[i].count <= |cells|
  }

  predicate RangesApart(ranges: seq<RowRange>) {
    forall i, j | 0 <= i < j < |ranges| :: ranges[i].first + ranges[i].count <= ranges[j].first
  }

  ghost predicate RangesRows<T>(cells: seq<Item<T>>, ranges: seq<RowRange>) {
    forall i, p: nat | 0 <= i < |ranges| && p < |cells| && InRange(ranges[i], p) :: cells[p].row == ranges[i].row
  }

  ghost predicate RowsInRanges<T>(cells: seq<Item<T>>, ranges: seq<RowRange>, rowCount: int) {
    forall p: nat | p < |cells| && 0 <= cells[p].row < rowCount :: exists i :: 0 <= i < |ranges| && InRange(ranges[i], p)
  }

  /** Ranges are apart, lie in the buffer, and are exactly the slots of the rows. */
  ghost predicate RangesOk<T>(cells: seq<Item<T>>, ranges: seq<RowRange>, rowCount: int) {
    && RangesInside(cells, ranges) && RangesApart(ranges)
    && RangesRows(cells, ranges) && RowsInRanges(cells, ranges, rowCount)
  }

  predicate IsRangeOf(range: RowRange, caps: seq<nat>, base: nat, count: nat)
    requires count <= |caps|
  {
    0 <= range.row < count && caps[range.row] > 0 && range == RangeOf(caps, base, range.row)
  }

  lemma {:induction false} RangeOfIs(caps: seq<nat>, base: nat, count: nat, i: nat)
    requires count <= |caps| && i < |RangesOf(caps, base, count)|
    ensures IsRangeOf(RangesOf(caps, base, count)[i], caps, base, count)
  {
    hide Start, RangeOf;
    var front := RangesOf(caps, base, count - 1);
    if i < |front| {
      RangeOfIs(caps, base, count - 1, i);
      assert RangesOf(caps, base, count)[i] == front[i];
    } else {
      RangeRow(caps, base, count - 1);
    }
  }

  lemma {:induction false} RangesInOrder(caps: seq<nat>, base: nat, count: nat, i: nat, j: nat)
    requires count <= |caps| && i < j < |RangesOf(caps, base, count)|
    ensures RangesOf(caps, base, count)[i].row < RangesOf(caps, base, count)[j].row
  {
    hide Start, RangeOf;
    var front := RangesOf(caps, base, count - 1);
    if j < |front| {
      RangesInOrder(caps, base, count - 1, i, j);
    } else {
      RangeOfIs(caps, base, count - 1, i);
      RangeRow(caps, base, count - 1);
    }
    assert RangesOf(caps, base, count)[i] == front[i];
  }

  lemma {:induction false} RangesOfAre(caps: seq<nat>, base: nat, count: nat)
    requires count <= |caps|
    ensures var ranges := RangesOf(caps, base, count);
            && (forall i | 0 <= i < |ranges| :: IsRangeOf(ranges[i], caps, base, count))
            && (forall i, j | 0 <= i < j < |ranges| :: ranges[i].row < ranges[j].row)
  {
    hide IsRangeOf, RangesOf;
    var ranges := RangesOf(caps, base, count);
    forall i | 0 <= i < |ranges|
      ensures IsRangeOf(ranges[i], caps, base, count)
    {
      RangeOfIs(caps, base, count, i);
    }
    forall i, j | 0 <= i < j < |ranges|
      ensures ranges[i].row < ranges[j].row
    {
      RangesInOrder(caps, base, count, i, j);
    }
  }

  lemma {:induction false} RangeRow(caps: seq<nat>, base: nat, row: nat)
    requires row < |caps|
    ensures RangeOf(caps, base, row).row == row
  {
  }

  lemma {:induction false} RangesOfHave(caps: seq<nat>, base: nat, count: nat, row: nat) returns (i: nat)
    requires row < count <= |caps| && caps[row] > 0
    ensures i < |RangesOf(caps, base, count)| && RangesOf(caps, base, count)[i] == RangeOf(caps, base, row)
  {
    if row < count - 1 {
      i := RangesOfHave(caps, base, count - 1, row);
    } else {
      i := |RangesOf(caps, base, count - 1)|;
    }
  }

  /** The row of a slot. */
  lemma {:induction false} SlotRow<T>(items: seq<Item<T>>, caps: seq<nat>, count: nat, blank: T, p: nat)
    returns (row: nat)
    requires count <= |caps| && p < Start(caps, count)
    ensures row < count && caps[row] > 0 && Start(caps, row) <= p < Start(caps, row) + caps[row]
    ensures Slots(items, caps, count, blank)[p].row == row
  {
    if p < Start(caps, count - 1) {
      row := SlotRow(items, caps, count - 1, blank, p);
    } else {
      row := count - 1;
    }
  }

  lemma {:induction false} SlotRowIs<T>(items: seq<Item<T>>, caps: seq<nat>, count: nat, blank: T, p: nat, row: nat)
    requires row < count <= |caps| && Start(caps, row) <= p < Start(caps, row) + caps[row]
    ensures p < Start(caps, count) && Slots(items, caps, count, blank)[p].row == row
  {
    StartsApart(caps, row, count);
    var other := SlotRow(items, caps, count, blank, p);
    if other < row {
      StartsApart(caps, other, row);
    } else if row < other {
      StartsApart(caps, row, other);
    }
  }
}
