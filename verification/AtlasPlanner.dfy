/** The planner object: it compares the instances with the bytes committed last. */
module AtlasPlanner {
  import opened AtlasUpload

  lemma {:induction false} AppendInstances(ranges: seq<Range>, first: nat, last: nat, size: nat, total: nat)
    requires 0 < size && first <= last <= total / size && RangesIn(ranges, total)
    ensures first * size >= 0
    ensures var r := AppendUploadRange(ranges, first * size, (last - first) * size);
            && RangesIn(r, total)
            && forall b: nat :: Covered(r, b) <==> Covered(ranges, b) || first <= b / size < last
  {
    InstanceOf(0, size, first, last);
    Quotient(total, size);
    Times(last, total / size, size);
    AppendCovers(ranges, first * size, (last - first) * size, total);
    forall b: nat
      ensures first * size <= b < last * size <==> first <= b / size < last
    {
      InstanceOf(b, size, first, last);
    }
  }

  lemma {:induction false} AppendInstance(ranges: seq<Range>, instance: nat, size: nat, total: nat)
    requires 0 < size && instance < total / size && RangesIn(ranges, total)
    ensures instance * size >= 0
    ensures var r := AppendUploadRange(ranges, instance * size, size);
            && RangesIn(r, total)
            && forall b: nat :: Covered(r, b) <==> Covered(ranges, b) || b / size == instance
  {
    AppendInstances(ranges, instance, instance + 1, size, total);
    assert (instance + 1 - instance) * size == size;
  }

  method UploadInstances(ranges: seq<Range>, first: nat, last: nat, size: nat, total: nat) returns (r: seq<Range>)
    requires 0 < size && first <= last <= total / size && RangesIn(ranges, total)
    ensures RangesIn(r, total)
    ensures forall b: nat :: Covered(r, b) <==> Covered(ranges, b) || first <= b / size < last
  {
    AppendInstances(ranges, first, last, size, total);
    r := AppendUploadRange(ranges, first * size, (last - first) * size);
  }

  function FullPlan(input: Input): Plan
    requires input.Valid() && input.Present()
  {
    var current := input.Current();
    Plan(if current != [] then [Range(0, |current|)] else [], current != [], Some(Image(current, input.layoutKey, true)))
  }

  lemma {:induction false} FullIsPlanned(before: Image, input: Input)
    requires input.Valid() && input.Present() && FullUpload(before, input)
    ensures Planned(before, input, FullPlan(input))
  {
    var ranges := FullPlan(input).ranges;
    forall b: nat
      ensures Covered(ranges, b) <==> UploadsByte(before, input, b)
    {
      assert input.Current() != [] ==> ranges[0] == Range(0, |input.Current()|);
    }
  }

  /** What the first `count` supplied ranges upload. */
  predicate SuppliedUpload(before: Image, input: Input, count: nat, instance: nat)
    requires input.Valid() && input.Present() && RangesSupplied(input) && count <= |input.rowStableRanges.value|
  {
    exists k :: 0 <= k < count && RangeUploads(before, input, input.rowStableRanges.value[k], instance)
  }

  class Planner {
    var bytes: seq<Byte>
    var layoutKey: seq<Byte>
    var initialized: bool

    function Committed(): Image
      reads this
    {
      Image(bytes, layoutKey, initialized)
    }

    constructor ()
      ensures Committed() == Image([], [], false)
    {
      bytes, layoutKey, initialized := [], [], false;
    }

    method Reset()
      modifies this
      ensures Committed() == Image([], [], false)
    {
      bytes, layoutKey, initialized := [], [], false;
    }

    method Commit(plan: Plan)
      modifies this
      ensures Committed() == if plan.commit.Some? then plan.commit.value else old(Committed())
    {
      if plan.commit.None? {
        return;
      }
      bytes := plan.commit.value.bytes;
      layoutKey := plan.commit.value.layoutKey;
      initialized := plan.commit.value.initialized;
    }

    /** The changed spans of a buffer whose instances kept their places. */
    method RowStableUploads(input: Input) returns (ranges: seq<Range>)
      requires input.Valid() && input.Present() && RowStable(Committed(), input)
      ensures RangesIn(ranges, |input.Current()|)
      ensures forall b: nat :: Covered(ranges, b) <==> Uploads(Committed(), input, b / input.InstanceBytes())
    {
      hide Changed, RangeUploads, Covered, RangesIn;
      var before := Committed();
      var size, common, total := input.InstanceBytes(), Common(before, input), |input.Current()|;
      if RangesSupplied(input) {
        ranges := SuppliedUploads(input);
      } else {
        ranges := [];
        NoRanges(total);
        var instance: nat := 0;
        while instance < common
          invariant instance <= common && RangesIn(ranges, total)
          invariant forall b: nat :: Covered(ranges, b) <==> b / size < instance && Changed(before, input, b / size)
        {
          if Changed(before, input, instance) {
            AppendInstance(ranges, instance, size, total);
            ranges := AppendUploadRange(ranges, instance * size, size);
          }
          instance := instance + 1;
        }
        SameSizeFresh(before, input);
      }
    }

    /** The supplied ranges that hold a change, each one whole. */
    method SuppliedUploads(input: Input) returns (ranges: seq<Range>)
      requires input.Valid() && input.Present() && RangesSupplied(input)
      ensures RangesIn(ranges, |input.Current()|)
      ensures forall b: nat :: Covered(ranges, b) <==>
        SuppliedUpload(Committed(), input, |input.rowStableRanges.value|, b / input.InstanceBytes())
    {
      hide RangeUploads, Covered, RangesIn, RangeChanged, SuppliedUpload, AppendUploadRange;
      var before := Committed();
      var size, common, total := input.InstanceBytes(), Common(before, input), |input.Current()|;
      ranges := [];
      NoRanges(total);
      NoneSupplied(before, input);
      var k := 0;
      while k < |input.rowStableRanges.value|
        invariant k <= |input.rowStableRanges.value| && RangesIn(ranges, total)
        invariant forall b: nat :: Covered(ranges, b) <==> SuppliedUpload(before, input, k, b / size)
      {
        var range := input.rowStableRanges.value[k];
        var changed := HasChange(input, range);
        if changed {
          var first, last := FirstOf(range, common), LastOf(range, common);
          ranges := UploadInstances(ranges, first, last, size, total);
        }
        RangeUploadsIs(before, input, range);
        OneMoreSupplied(before, input, k);
        forall b: nat
          ensures Covered(ranges, b) <==> SuppliedUpload(before, input, k + 1, b / size)
        {
          assert SuppliedUpload(before, input, k + 1, b / size) <==>
            SuppliedUpload(before, input, k, b / size) || RangeUploads(before, input, range, b / size);
        }
        k := k + 1;
      }
    }

    method HasChange(input: Input, range: RowRange) returns (changed: bool)
      requires input.Valid() && input.Present()
      ensures changed <==> RangeChanged(Committed(), input, range)
    {
      hide Changed;
      var before := Committed();
      var common := Common(before, input);
      var instance := FirstOf(range, common);
      changed := false;
      while instance < LastOf(range, common) && !changed
        invariant FirstOf(range, common) <= instance <= LastOf(range, common)
        invariant changed ==> RangeChanged(before, input, range)
        invariant !changed ==> forall i: nat | FirstOf(range, common) <= i < instance :: !Changed(before, input, i)
        decreases LastOf(range, common) - instance, !changed
      {
        if Changed(before, input, instance) {
          changed := true;
        } else {
          instance := instance + 1;
        }
      }
    }

    /** Whether an instance outside the rows changed. */
    method NonRowChange(input: Input) returns (changed: bool)
      requires input.Valid() && input.Present()
      ensures changed <==> exists i: nat :: i < Common(Committed(), input) && Changed(Committed(), input, i) && !input.HasRow(i)
    {
      hide Changed;
      var before := Committed();
      var instance: nat := 0;
      while instance < Common(before, input)
        invariant instance <= Common(before, input)
        invariant forall i: nat | i < instance :: input.HasRow(i) || !Changed(before, input, i)
      {
        if !input.HasRow(instance) && Changed(before, input, instance) {
          return true;
        }
        instance := instance + 1;
      }
      changed := false;
    }

    /** The changed and the new instances, unless one of them needs a full upload. */
    method ChangedUploads(input: Input) returns (full: bool, ranges: seq<Range>)
      requires input.Valid() && input.Present()
      ensures full <==> FreshBlocked(Committed(), input)
      ensures RangesIn(ranges, |input.Current()|)
      ensures !full ==> forall b: nat :: Covered(ranges, b) <==> Fresh(Committed(), input, b / input.InstanceBytes())
    {
      hide Changed, IsDirty, LayoutChanged, Fresh, Blocked, Covered, RangesIn, AppendUploadRange, Common;
      var before := Committed();
      var size, common, total := input.InstanceBytes(), Common(before, input), |input.Current()|;
      var previousCount, count := |before.bytes| / size, total / size;
      var dirtyRows := AtlasDirtyRows(input.dirty, input.rowCount);
      FreshIs(before, input, common, previousCount, count);
      full, ranges := false, [];
      NoRanges(total);
      var instance: nat := 0;
      while instance < common && !full
        invariant instance <= common && RangesIn(ranges, total)
        invariant full ==> Fresh(before, input, instance) && Blocked(before, input, instance)
        invariant !full ==> forall i: nat | i < instance && Fresh(before, input, i) :: !Blocked(before, input, i)
        invariant !full ==> forall b: nat :: Covered(ranges, b) <==> b / size < instance && Fresh(before, input, b / size)
        decreases common - instance, !full
      {
        if Changed(before, input, instance) {
          full, ranges := RecordInstance(input, dirtyRows, ranges, instance);
        }
        if !full {
          instance := instance + 1;
        }
      }
      if !full && count > previousCount {
        while instance < count && !full
          invariant common <= instance <= count && RangesIn(ranges, total)
          invariant full ==> Fresh(before, input, instance) && Blocked(before, input, instance)
          invariant !full ==> forall i: nat | i < instance && Fresh(before, input, i) :: !Blocked(before, input, i)
          invariant !full ==> forall b: nat :: Covered(ranges, b) <==> b / size < instance && Fresh(before, input, b / size)
          decreases count - instance, !full
        {
          full, ranges := RecordInstance(input, dirtyRows, ranges, instance);
          if !full {
            instance := instance + 1;
          }
        }
      }
      if full {
        assert FreshBlocked(before, input);
      } else {
        assert forall i: nat | Fresh(before, input, i) :: i < instance;
        assert !FreshBlocked(before, input);
      }
    }

    /** Uploads one instance, or asks for a full upload. */
    method RecordInstance(input: Input, dirtyRows: DirtySummary, ranges: seq<Range>, instance: nat)
      returns (full: bool, more: seq<Range>)
      requires input.Valid() && input.Present() && instance < |input.Current()| / input.InstanceBytes()
      requires forall row :: dirtyRows.IsDirty(row) <==> IsDirty(input.dirty, input.rowCount, row)
      requires RangesIn(ranges, |input.Current()|)
      ensures full <==> Blocked(Committed(), input, instance)
      ensures RangesIn(more, |input.Current()|)
      ensures !full ==> forall b: nat :: Covered(more, b) <==> Covered(ranges, b) || b / input.InstanceBytes() == instance
    {
      hide IsDirty, LayoutChanged, Covered, RangesIn, AppendUploadRange;
      if (LayoutChanged(Committed(), input) || !input.HasRow(instance)) && !dirtyRows.IsDirty(input.RowOf(instance)) {
        return true, ranges;
      }
      var size := input.InstanceBytes();
      AppendInstance(ranges, instance, size, |input.Current()|);
      full, more := false, AppendUploadRange(ranges, instance * size, size);
    }

    /** Copies the uploaded ranges into the bytes to be committed. */
    method CopyRanges(bytes: seq<Byte>, ranges: seq<Range>, current: seq<Byte>) returns (r: seq<Byte>)
      requires RangesIn(ranges, |current|) && |bytes| == |current|
      ensures r == Apply(bytes, ranges, current)
    {
      r := bytes;
      var k := 0;
      while k < |ranges|
        invariant k <= |ranges| && r == Apply(bytes, ranges[..k], current)
      {
        assert ranges[..k + 1][..k] == ranges[..k];
        r := Copy(r, ranges[k], current);
        k := k + 1;
      }
      assert ranges[..k] == ranges;
    }

    method MakePlan(input: Input) returns (plan: Plan)
      requires input.Valid()
      ensures Planned(Committed(), input, plan)
    {
      hide Changed, Blocked, Fresh, Apply, RangesIn, Covered;
      if input.bytes.None? && input.byteCount > 0 {
        return Plan([], false, None);
      }
      var before, current := Committed(), input.Current();
      if Forced(before, input) {
        FullIsPlanned(before, input);
        return FullPlan(input);
      }
      var full, ranges, committed;
      if RowStable(before, input) {
        ranges := RowStableUploads(input);
        full := NonRowChange(input);
        committed := before.bytes;
      } else {
        full, ranges := ChangedUploads(input);
        committed := if ranges != [] || |before.bytes| != |current| then current else before.bytes;
      }
      if full {
        FullIsPlanned(before, input);
        return FullPlan(input);
      }
      ApplyToCurrent(current, ranges);
      committed := CopyRanges(committed, ranges, current);
      plan := Plan(ranges, false, Some(Image(committed, input.layoutKey, true)));
    }
  }

  lemma {:induction false} ApplyToCurrent(current: seq<Byte>, ranges: seq<Range>)
    requires RangesIn(ranges, |current|)
    ensures Apply(current, ranges, current) == current
    ensures forall bytes: seq<Byte> | |bytes| == |current| && ranges == [] :: Apply(bytes, ranges, current) == bytes
  {
    forall b: nat | b < |current|
      ensures Apply(current, ranges, current)[b] == current[b]
    {
      ApplyAt(current, ranges, current, b);
    }
  }

  lemma {:induction false} NoRanges(size: nat)
    ensures RangesIn([], size) && forall b: nat :: !Covered([], b)
  {
  }

  lemma {:induction false} NoneSupplied(before: Image, input: Input)
    requires input.Valid() && input.Present() && RangesSupplied(input)
    ensures forall i: nat :: !SuppliedUpload(before, input, 0, i)
  {
  }

  lemma {:induction false} OneMoreSupplied(before: Image, input: Input, k: nat)
    requires input.Valid() && input.Present() && RangesSupplied(input) && k < |input.rowStableRanges.value|
    ensures forall i: nat :: SuppliedUpload(before, input, k + 1, i) <==>
      SuppliedUpload(before, input, k, i) || RangeUploads(before, input, input.rowStableRanges.value[k], i)
  {
  }

  lemma {:induction false} SameSizeFresh(before: Image, input: Input)
    requires input.Valid() && input.Present() && |before.bytes| == |input.Current()|
    ensures forall i: nat :: Fresh(before, input, i) <==> i < Common(before, input) && Changed(before, input, i)
  {
  }

  lemma {:induction false} FreshIs(before: Image, input: Input, common: nat, previousCount: nat, count: nat)
    requires input.Valid() && input.Present() && common == Common(before, input)
    requires previousCount == |before.bytes| / input.InstanceBytes() && count == |input.Current()| / input.InstanceBytes()
    ensures common == if previousCount < count then previousCount else count
    ensures forall i: nat | i < common :: Fresh(before, input, i) <==> Changed(before, input, i)
    ensures forall i: nat | i >= common :: Fresh(before, input, i) <==> previousCount <= i < count
  {
  }

  lemma {:induction false} RangeUploadsIs(before: Image, input: Input, range: RowRange)
    requires input.Valid() && input.Present()
    ensures forall i: nat :: RangeUploads(before, input, range, i) <==>
      FirstOf(range, Common(before, input)) <= i < LastOf(range, Common(before, input)) && RangeChanged(before, input, range)
  {
  }
}
