/** The instance-buffer upload planner (src/qsg_atlas_renderer.cpp): an
    incremental upload that has to leave the same buffer as a full one. */
module AtlasUpload {
  newtype Byte = x: int | 0 <= x < 256

  datatype Option<T> = None | Some(value: T)

  /** A row field that stands for every row, and one that stands for none. */
  const ALL_ROWS := -1
  const NON_ROW := -2

  /** Bytes `offset .. offset + count` of the buffer. */
  datatype Range = Range(offset: int, count: int)

  /** Instances `first .. first + count`, which hold one row. */
  datatype RowRange = RowRange(row: int, first: int, count: int)

  datatype DirtyRange = DirtyRange(firstRow: int, rowCount: int)

  datatype Input = Input(
    rowCount: int,
    instanceSize: int,
    bytes: Option<seq<Byte>>,
    byteCount: int,
    rows: Option<seq<int>>,
    layoutKey: seq<Byte>,
    dirty: seq<DirtyRange>,
    bufferRecreated: bool,
    forceFull: bool,
    nonDirtyInvalidation: bool,
    rowStableLayout: bool,
    rowStableRanges: Option<seq<RowRange>>)
  {
    /** The bytes pointed to are `byteCount` long. */
    predicate Valid() {
      bytes.Some? && byteCount > 0 ==> |bytes.value| == byteCount
    }

    predicate Present() {
      bytes.Some? || byteCount <= 0
    }

    function Current(): (r: seq<Byte>)
      requires Valid() && Present()
      ensures |r| == if byteCount > 0 then byteCount else 0
    {
      if byteCount > 0 then bytes.value else []
    }

    function InstanceBytes(): (r: nat)
      ensures r > 0 && r >= instanceSize && (r == instanceSize || r == 1)
    {
      if instanceSize > 1 then instanceSize else 1
    }

    function RowOf(instance: nat): int {
      if rows.Some? && instance < |rows.value| then rows.value[instance] else NON_ROW
    }

    predicate HasRow(instance: nat) {
      0 <= RowOf(instance) < rowCount
    }
  }

  datatype Image = Image(bytes: seq<Byte>, layoutKey: seq<Byte>, initialized: bool)

  /** `commit` is None when nothing was planned. */
  datatype Plan = Plan(ranges: seq<Range>, fullUpload: bool, commit: Option<Image>)

  function Clamp(x: int, low: int, high: int): (r: int)
    requires low <= high
    ensures low <= r <= high && (low <= x <= high ==> r == x)
  {
    if x < low then low else if x > high then high else x
  }

  // ---- Dirty rows -----------------------------------------------------------------

  predicate InDirtyRange(range: DirtyRange, rowCount: nat, row: int) {
    Clamp(range.firstRow, 0, rowCount) <= row < Clamp(range.firstRow + range.rowCount, 0, rowCount)
  }

  predicate DirtyRow(dirty: seq<DirtyRange>, rowCount: nat, row: int) {
    exists k :: 0 <= k < |dirty| && InDirtyRange(dirty[k], rowCount, row)
  }

  /** Whether a row field counts as dirty; all rows at once only when each one is. */
  predicate IsDirty(dirty: seq<DirtyRange>, rowCount: int, row: int) {
    if rowCount <= 0 then false
    else if row == ALL_ROWS then forall r :: 0 <= r < rowCount ==> DirtyRow(dirty, rowCount, r)
    else 0 <= row && DirtyRow(dirty, rowCount, row)
  }

  function CountTrue(rows: seq<bool>): nat {
    if rows == [] then 0 else CountTrue(rows[1..]) + if rows[0] then 1 else 0
  }

  lemma {:induction false} CountAll(rows: seq<bool>)
    ensures CountTrue(rows) <= |rows|
    ensures CountTrue(rows) == |rows| <==> forall r :: 0 <= r < |rows| ==> rows[r]
  {
    if rows != [] {
      CountAll(rows[1..]);
      assert rows == [rows[0]] + rows[1..];
    }
  }

  lemma {:induction false} CountSet(rows: seq<bool>, row: nat)
    requires row < |rows| && !rows[row]
    ensures CountTrue(rows[row := true]) == CountTrue(rows) + 1
  {
    if row > 0 {
      CountSet(rows[1..], row - 1);
      assert rows[row := true][1..] == rows[1..][row - 1 := true];
    } else {
      assert rows[row := true][1..] == rows[1..];
    }
  }

  datatype DirtySummary = DirtySummary(rows: seq<bool>, fullGrid: bool) {
    predicate IsDirty(row: int) {
      if row == ALL_ROWS then fullGrid
      else if row < 0 || row >= |rows| then false
      else rows[row]
    }
  }

  method AtlasDirtyRows(dirty: seq<DirtyRange>, rowCount: int) returns (summary: DirtySummary)
    ensures forall row :: summary.IsDirty(row) <==> IsDirty(dirty, rowCount, row)
  {
    if rowCount <= 0 {
      return DirtySummary([], false);
    }
    var rows := seq(rowCount, _ => false);
    var dirtyRows := 0;
    NoneTrue(rows);
    var k := 0;
    while k < |dirty|
      invariant k <= |dirty| && |rows| == rowCount && dirtyRows == CountTrue(rows)
      invariant forall r :: 0 <= r < rowCount ==> (rows[r] <==> DirtyRow(dirty[..k], rowCount, r))
    {
      var row := Clamp(dirty[k].firstRow, 0, rowCount);
      var last := Clamp(dirty[k].firstRow + dirty[k].rowCount, 0, rowCount);
      ghost var first, before := row, rows;
      while row < last
        invariant first <= row <= rowCount && (row <= last || row == first)
        invariant |rows| == rowCount && dirtyRows == CountTrue(rows)
        invariant forall r :: 0 <= r < rowCount ==> (rows[r] <==> before[r] || first <= r < row)
      {
        if !rows[row] {
          CountSet(rows, row);
          rows := rows[row := true];
          dirtyRows := dirtyRows + 1;
        }
        row := row + 1;
      }
      forall r | 0 <= r < rowCount
        ensures DirtyRow(dirty[..k + 1], rowCount, r) <==> DirtyRow(dirty[..k], rowCount, r) || InDirtyRange(dirty[k], rowCount, r)
      {
        DirtyRowStep(dirty, k, rowCount, r);
      }
      k := k + 1;
    }
    assert dirty[..k] == dirty;
    CountAll(rows);
    summary := DirtySummary(rows, dirtyRows == rowCount);
  }

  lemma {:induction false} NoneTrue(rows: seq<bool>)
    requires forall r :: 0 <= r < |rows| ==> !rows[r]
    ensures CountTrue(rows) == 0
  {
    if rows != [] {
      NoneTrue(rows[1..]);
    }
  }

  lemma {:induction false} DirtyRowStep(dirty: seq<DirtyRange>, k: nat, rowCount: nat, row: int)
    requires k < |dirty|
    ensures DirtyRow(dirty[..k + 1], rowCount, row) <==> DirtyRow(dirty[..k], rowCount, row) || InDirtyRange(dirty[k], rowCount, row)
  {
    var some := dirty[..k + 1];
    if DirtyRow(dirty[..k], rowCount, row) {
      var j :| 0 <= j < k && InDirtyRange(dirty[..k][j], rowCount, row);
      assert some[j] == dirty[..k][j];
    }
    assert some[k] == dirty[k];
    if DirtyRow(some, rowCount, row) && !InDirtyRange(dirty[k], rowCount, row) {
      var j :| 0 <= j < |some| && InDirtyRange(some[j], rowCount, row);
      assert dirty[..k][j] == some[j];
    }
  }

  // ---- Uploading ranges of bytes --------------------------------------------------

  predicate RangesIn(ranges: seq<Range>, size: nat) {
    forall k :: 0 <= k < |ranges| ==> 0 <= ranges[k].offset && 0 < ranges[k].count && ranges[k].offset + ranges[k].count <= size
  }

  predicate Covered(ranges: seq<Range>, b: nat) {
    exists k :: 0 <= k < |ranges| && ranges[k].offset <= b < ranges[k].offset + ranges[k].count
  }

  /** The buffer after each range is copied into it. */
  function Apply(buffer: seq<Byte>, ranges: seq<Range>, current: seq<Byte>): (r: seq<Byte>)
    requires RangesIn(ranges, |current|) && |current| <= |buffer|
    ensures |r| == |buffer|
  {
    if ranges == [] then buffer
    else
      var last := ranges[|ranges| - 1];
      Copy(Apply(buffer, ranges[..|ranges| - 1], current), last, current)
  }

  function Copy(buffer: seq<Byte>, range: Range, current: seq<Byte>): (r: seq<Byte>)
    requires 0 <= range.offset && 0 < range.count && range.offset + range.count <= |current| <= |buffer|
    ensures |r| == |buffer|
    ensures forall b :: 0 <= b < |r| ==> r[b] == if range.offset <= b < range.offset + range.count then current[b] else buffer[b]
  {
    buffer[..range.offset] + current[range.offset..range.offset + range.count] + buffer[range.offset + range.count..]
  }

  lemma {:induction false} ApplyAt(buffer: seq<Byte>, ranges: seq<Range>, current: seq<Byte>, b: nat)
    requires RangesIn(ranges, |current|) && |current| <= |buffer| && b < |buffer|
    ensures Covered(ranges, b) ==> b < |current|
    ensures Apply(buffer, ranges, current)[b] == if Covered(ranges, b) then current[b] else buffer[b]
  {
    if ranges != [] {
      var front, last := ranges[..|ranges| - 1], ranges[|ranges| - 1];
      ApplyAt(buffer, front, current, b);
      CoveredStep(front, last, b);
      assert front + [last] == ranges;
    }
  }

  lemma {:induction false} CoveredStep(ranges: seq<Range>, range: Range, b: nat)
    ensures Covered(ranges + [range], b) <==> Covered(ranges, b) || range.offset <= b < range.offset + range.count
  {
    var more := ranges + [range];
    assert more[|ranges|] == range;
    assert forall k :: 0 <= k < |ranges| ==> more[k] == ranges[k];
  }

  /** Ranges that touch are merged. */
  function AppendUploadRange(ranges: seq<Range>, offset: int, count: int): seq<Range> {
    if count <= 0 then ranges
    else if ranges != [] && ranges[|ranges| - 1].offset + ranges[|ranges| - 1].count == offset then
      ranges[|ranges| - 1 := Range(ranges[|ranges| - 1].offset, ranges[|ranges| - 1].count + count)]
    else ranges + [Range(offset, count)]
  }

  lemma {:induction false} AppendCovers(ranges: seq<Range>, offset: int, count: int, size: nat)
    requires RangesIn(ranges, size) && 0 <= offset && 0 <= count && offset + count <= size
    ensures var r := AppendUploadRange(ranges, offset, count);
            && RangesIn(r, size)
            && (r == [] <==> ranges == [] && count == 0)
            && forall b: nat :: Covered(r, b) <==> Covered(ranges, b) || offset <= b < offset + count
  {
    var r := AppendUploadRange(ranges, offset, count);
    forall b: nat
      ensures Covered(r, b) <==> Covered(ranges, b) || offset <= b < offset + count
    {
      if count > 0 {
        if ranges != [] && ranges[|ranges| - 1].offset + ranges[|ranges| - 1].count == offset {
          var front, last := ranges[..|ranges| - 1], ranges[|ranges| - 1];
          assert ranges == front + [last] && r == front + [Range(last.offset, last.count + count)];
          CoveredStep(front, last, b);
          CoveredStep(front, Range(last.offset, last.count + count), b);
        } else {
          CoveredStep(ranges, Range(offset, count), b);
        }
      }
    }
  }

  // ---- Instances ------------------------------------------------------------------

  lemma {:induction false} Times(a: nat, b: nat, size: nat)
    requires a <= b
    ensures a * size <= b * size && (b - a) * size == b * size - a * size
  {
  }

  lemma {:induction false} Quotient(b: nat, size: nat)
    requires 0 < size
    ensures (b / size) * size <= b < (b / size) * size + size
    ensures (b / size + 1) * size == (b / size) * size + size
  {
  }

  lemma {:induction false} InstanceOf(b: nat, size: nat, first: nat, last: nat)
    requires 0 < size && first <= last
    ensures first * size <= b < last * size <==> first <= b / size < last
    ensures 0 <= first * size <= last * size && (last - first) * size == last * size - first * size
  {
    var q := b / size;
    Quotient(b, size);
    Times(first, last, size);
    if q < first { Times(q + 1, first, size); } else { Times(first, q, size); }
    if q < last { Times(q + 1, last, size); } else { Times(last, q, size); }
  }

  lemma {:induction false} InstanceFits(instance: nat, size: nat, bytes: nat)
    requires 0 < size && instance < bytes / size
    ensures 0 <= instance * size <= instance * size + size <= bytes
    ensures forall b :: instance * size <= b < instance * size + size <==> 0 <= b && b / size == instance
  {
    Quotient(bytes, size);
    Times(instance + 1, bytes / size, size);
    Quotient(instance * size, size);
    forall b
      ensures instance * size <= b < instance * size + size <==> 0 <= b && b / size == instance
    {
      if b >= 0 {
        InstanceOf(b, size, instance, instance + 1);
      }
    }
  }

  function InstanceAt(bytes: seq<Byte>, instance: nat, size: nat): seq<Byte>
    requires 0 < size && instance < |bytes| / size
  {
    InstanceFits(instance, size, |bytes|);
    bytes[instance * size..instance * size + size]
  }

  function Common(before: Image, input: Input): (r: nat)
    requires input.Valid() && input.Present()
    ensures r <= |before.bytes| / input.InstanceBytes() && r <= |input.Current()| / input.InstanceBytes()
  {
    var previous, current := |before.bytes| / input.InstanceBytes(), |input.Current()| / input.InstanceBytes();
    if previous < current then previous else current
  }

  predicate Changed(before: Image, input: Input, instance: nat)
    requires input.Valid() && input.Present() && instance < Common(before, input)
  {
    InstanceAt(before.bytes, instance, input.InstanceBytes()) != InstanceAt(input.Current(), instance, input.InstanceBytes())
  }

  lemma {:induction false} SameInstance(a: seq<Byte>, b: seq<Byte>, instance: nat, size: nat)
    requires 0 < size && instance < |a| / size && instance < |b| / size
    ensures InstanceAt(a, instance, size) == InstanceAt(b, instance, size) <==>
            forall i: nat | i < |a| && i < |b| && i / size == instance :: a[i] == b[i]
    ensures forall i: nat | i / size == instance :: i < |a| && i < |b|
  {
    InstanceFits(instance, size, |a|);
    InstanceFits(instance, size, |b|);
    var start := instance * size;
    forall k | 0 <= k < size
      ensures InstanceAt(a, instance, size)[k] == a[start + k] && InstanceAt(b, instance, size)[k] == b[start + k]
      ensures (start + k) / size == instance
    {
    }
    if InstanceAt(a, instance, size) == InstanceAt(b, instance, size) {
      forall i: nat | i < |a| && i < |b| && i / size == instance
        ensures a[i] == b[i]
      {
        assert InstanceAt(a, instance, size)[i - start] == InstanceAt(b, instance, size)[i - start];
      }
    }
  }

  // ---- What a plan uploads --------------------------------------------------------

  predicate LayoutChanged(before: Image, input: Input)
    requires input.Valid() && input.Present()
  {
    before.initialized && (|before.bytes| != |input.Current()| || before.layoutKey != input.layoutKey)
  }

  predicate Forced(before: Image, input: Input) {
    input.bufferRecreated || input.forceFull || input.nonDirtyInvalidation || !before.initialized
  }

  /** The plan compares row by row with the committed bytes. */
  predicate RowStable(before: Image, input: Input)
    requires input.Valid() && input.Present()
  {
    input.rowStableLayout && input.rows.Some? && !LayoutChanged(before, input) && |before.bytes| == |input.Current()|
  }

  predicate RangesSupplied(input: Input) {
    input.rowStableRanges.Some? && input.rowStableRanges.value != []
  }

  function FirstOf(range: RowRange, common: nat): (r: nat)
    ensures r <= common
  {
    Clamp(range.first, 0, common)
  }

  function LastOf(range: RowRange, common: nat): (r: nat)
    ensures FirstOf(range, common) <= r <= common
  {
    Clamp(range.first + range.count, FirstOf(range, common), common)
  }

  predicate RangeChanged(before: Image, input: Input, range: RowRange)
    requires input.Valid() && input.Present()
  {
    var common := Common(before, input);
    exists i: nat :: FirstOf(range, common) <= i < LastOf(range, common) && Changed(before, input, i)
  }

  /** A supplied range with a change in it is uploaded whole. */
  predicate RangeUploads(before: Image, input: Input, range: RowRange, instance: nat)
    requires input.Valid() && input.Present()
  {
    var common := Common(before, input);
    FirstOf(range, common) <= instance < LastOf(range, common) && RangeChanged(before, input, range)
  }

  predicate Blocked(before: Image, input: Input, instance: nat)
    requires input.Valid() && input.Present()
  {
    (LayoutChanged(before, input) || !input.HasRow(instance)) && !IsDirty(input.dirty, input.rowCount, input.RowOf(instance))
  }

  /** An instance the plan has to write: its bytes differ, or it had none. */
  predicate Fresh(before: Image, input: Input, instance: nat)
    requires input.Valid() && input.Present()
  {
    if instance < Common(before, input) then Changed(before, input, instance)
    else |before.bytes| / input.InstanceBytes() <= instance < |input.Current()| / input.InstanceBytes()
  }

  ghost predicate FreshBlocked(before: Image, input: Input)
    requires input.Valid() && input.Present()
  {
    exists i: nat :: Fresh(before, input, i) && Blocked(before, input, i)
  }

  /** Everything is uploaded: on demand, or since a change lies outside what rows tell. */
  ghost predicate FullUpload(before: Image, input: Input)
    requires input.Valid() && input.Present()
  {
    || Forced(before, input)
    || (if RowStable(before, input)
        then exists i: nat :: i < Common(before, input) && Changed(before, input, i) && !input.HasRow(i)
        else FreshBlocked(before, input))
  }

  predicate Uploads(before: Image, input: Input, instance: nat)
    requires input.Valid() && input.Present()
  {
    if RowStable(before, input) && RangesSupplied(input) then
      exists k :: 0 <= k < |input.rowStableRanges.value| && RangeUploads(before, input, input.rowStableRanges.value[k], instance)
    else Fresh(before, input, instance)
  }

  ghost predicate UploadsByte(before: Image, input: Input, b: nat)
    requires input.Valid() && input.Present()
  {
    if FullUpload(before, input) then b < |input.Current()| else Uploads(before, input, b / input.InstanceBytes())
  }

  /** The plan made for `input` when `before` was committed last. */
  ghost predicate Planned(before: Image, input: Input, plan: Plan)
    requires input.Valid()
  {
    if !input.Present() then plan == Plan([], false, None)
    else
      && plan.commit.Some? && plan.commit.value.initialized && plan.commit.value.layoutKey == input.layoutKey
      && RangesIn(plan.ranges, |input.Current()|)
      && (forall b: nat :: Covered(plan.ranges, b) <==> UploadsByte(before, input, b))
      && (plan.fullUpload <==> FullUpload(before, input) && input.Current() != [])
      && (RowStable(before, input) && !FullUpload(before, input) ==>
            plan.commit.value.bytes == Apply(before.bytes, plan.ranges, input.Current()))
      && (!RowStable(before, input) || FullUpload(before, input) ==>
            plan.commit.value.bytes ==
              if FullUpload(before, input) || plan.ranges != [] || |before.bytes| != |input.Current()|
              then input.Current() else before.bytes)
  }
}
