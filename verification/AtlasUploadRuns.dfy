/** Incremental upload against full upload: exactly when they agree, and over runs. */
module AtlasUploadRuns {
  import opened AtlasUpload
  import opened AtlasPlanner

  predicate InSupplied(input: Input, common: nat, instance: nat)
    requires RangesSupplied(input)
  {
    exists k :: 0 <= k < |input.rowStableRanges.value|
      && FirstOf(input.rowStableRanges.value[k], common) <= instance < LastOf(input.rowStableRanges.value[k], common)
  }

  /** A byte after the last whole instance. */
  predicate InTail(input: Input, b: nat)
    requires input.Valid() && input.Present()
  {
    b < |input.Current()| && b / input.InstanceBytes() >= |input.Current()| / input.InstanceBytes()
  }

  /** Bytes after the last whole instance are as committed. */
  predicate TailCommitted(before: Image, input: Input)
    requires input.Valid() && input.Present()
  {
    forall b: nat | b < |input.Current()| && InTail(input, b) :: b < |before.bytes| && before.bytes[b] == input.Current()[b]
  }

  /** Supplied ranges contain every instance that changed. */
  ghost predicate RangesContainChanges(before: Image, input: Input)
    requires input.Valid() && input.Present()
  {
    RowStable(before, input) && RangesSupplied(input) ==>
      forall i: nat | i < Common(before, input) && Changed(before, input, i) :: InSupplied(input, Common(before, input), i)
  }

  /** What the planner relies on its caller for. */
  ghost predicate Complete(before: Image, input: Input)
    requires input.Valid() && input.Present()
  {
    FullUpload(before, input) || (TailCommitted(before, input) && RangesContainChanges(before, input))
  }

  /** The buffer is large enough and, unless it is new, starts with the committed bytes. */
  predicate GpuHolds(before: Image, input: Input, gpu: seq<Byte>)
    requires input.Valid() && input.Present()
  {
    && |gpu| >= |input.Current()|
    && (before.initialized && !input.bufferRecreated ==> before.bytes <= gpu)
  }

  lemma {:induction false} NotUploadedIsCommitted(before: Image, input: Input, b: nat)
    requires input.Valid() && input.Present() && Complete(before, input)
    requires b < |input.Current()| && !UploadsByte(before, input, b)
    ensures b < |before.bytes| && before.bytes[b] == input.Current()[b]
  {
    hide Changed;
    var size := input.InstanceBytes();
    var i, common, count := b / size, Common(before, input), |input.Current()| / size;
    FreshIs(before, input, common, |before.bytes| / size, count);
    if i < count {
      if RowStable(before, input) && RangesSupplied(input) {
        NotSupplied(before, input, i);
      }
      assert i < common && !Changed(before, input, i);
      ChangedIs(before, input, i);
    } else {
      assert InTail(input, b);
    }
  }

  lemma {:induction false} ChangedIs(before: Image, input: Input, instance: nat)
    requires input.Valid() && input.Present() && instance < Common(before, input)
    ensures Changed(before, input, instance) <==>
      exists b: nat :: b < |before.bytes| && b < |input.Current()| && b / input.InstanceBytes() == instance
        && before.bytes[b] != input.Current()[b]
    ensures forall b: nat | b / input.InstanceBytes() == instance :: b < |before.bytes| && b < |input.Current()|
  {
    SameInstance(before.bytes, input.Current(), instance, input.InstanceBytes());
  }

  lemma {:induction false} NoneBeyond(before: Image, input: Input, instance: nat)
    requires input.Valid() && input.Present() && instance >= |input.Current()| / input.InstanceBytes()
    ensures !Uploads(before, input, instance)
  {
  }

  lemma {:induction false} TailNotUploaded(before: Image, input: Input, b: nat)
    requires input.Valid() && input.Present() && InTail(input, b)
    ensures !Uploads(before, input, b / input.InstanceBytes())
  {
    NoneBeyond(before, input, b / input.InstanceBytes());
  }

  lemma {:induction false} NoneOutside(before: Image, input: Input, instance: nat)
    requires input.Valid() && input.Present() && RowStable(before, input) && RangesSupplied(input)
    requires instance < Common(before, input) && !InSupplied(input, Common(before, input), instance)
    ensures !Uploads(before, input, instance)
  {
  }

  lemma {:induction false} NotSupplied(before: Image, input: Input, instance: nat)
    requires input.Valid() && input.Present() && RowStable(before, input) && RangesSupplied(input)
    requires instance < Common(before, input) && RangesContainChanges(before, input) && !Uploads(before, input, instance)
    ensures !Changed(before, input, instance)
  {
    var common := Common(before, input);
    if Changed(before, input, instance) {
      var k :| 0 <= k < |input.rowStableRanges.value|
        && FirstOf(input.rowStableRanges.value[k], common) <= instance < LastOf(input.rowStableRanges.value[k], common);
      assert RangeUploads(before, input, input.rowStableRanges.value[k], instance);
    }
  }

  lemma {:induction false} UploadComplete(before: Image, input: Input, plan: Plan, gpu: seq<Byte>)
    requires input.Valid() && input.Present() && Planned(before, input, plan)
    requires Complete(before, input) && GpuHolds(before, input, gpu)
    ensures Apply(gpu, plan.ranges, input.Current())[..|input.Current()|] == input.Current()
  {
    var current := input.Current();
    forall b: nat | b < |current|
      ensures Apply(gpu, plan.ranges, current)[b] == current[b]
    {
      ApplyAt(gpu, plan.ranges, current, b);
      if !UploadsByte(before, input, b) {
        NotUploadedIsCommitted(before, input, b);
      }
    }
  }

  lemma {:induction false} CommitsCurrent(before: Image, input: Input, plan: Plan)
    requires input.Valid() && input.Present() && Planned(before, input, plan) && Complete(before, input)
    ensures plan.commit.value.bytes == input.Current()
  {
    var current := input.Current();
    if !FullUpload(before, input) {
      if RowStable(before, input) {
        UploadComplete(before, input, plan, before.bytes);
        assert Apply(before.bytes, plan.ranges, current)[..|current|] == Apply(before.bytes, plan.ranges, current);
      } else if plan.ranges == [] && |before.bytes| == |current| {
        UploadComplete(before, input, plan, before.bytes);
      }
    }
  }

  /** A buffer that holds the committed bytes and agrees with `current` nowhere after them. */
  function Adversary(committed: seq<Byte>, current: seq<Byte>): (r: seq<Byte>)
    ensures committed <= r && |r| >= |current|
    ensures forall b | |committed| <= b < |current| :: r[b] != current[b]
  {
    committed + seq(if |current| > |committed| then |current| - |committed| else 0,
                    i requires 0 <= i && |committed| + i < |current| => if current[|committed| + i] == 0 then 1 else 0)
  }

  lemma {:induction false} StaleTail(before: Image, input: Input) returns (b: nat)
    requires input.Valid() && input.Present() && !Complete(before, input) && !TailCommitted(before, input)
    ensures b < |input.Current()| && !UploadsByte(before, input, b)
    ensures b < |before.bytes| ==> before.bytes[b] != input.Current()[b]
  {
    hide Uploads, RangesContainChanges, FullUpload, InTail;
    b :| b < |input.Current()| && InTail(input, b) && !(b < |before.bytes| && before.bytes[b] == input.Current()[b]);
    TailNotUploaded(before, input, b);
  }

  lemma {:induction false} StaleInstance(before: Image, input: Input) returns (b: nat)
    requires input.Valid() && input.Present() && !Complete(before, input) && TailCommitted(before, input)
    ensures b < |input.Current()| && !UploadsByte(before, input, b)
    ensures b < |before.bytes| ==> before.bytes[b] != input.Current()[b]
  {
    hide Changed, Common, Uploads, InSupplied, TailCommitted, FullUpload;
    var size, current := input.InstanceBytes(), input.Current();
    var common := Common(before, input);
    var i: nat :| i < common && Changed(before, input, i) && !InSupplied(input, common, i);
    ChangedIs(before, input, i);
    NoneOutside(before, input, i);
    b :| b < |before.bytes| && b < |current| && b / size == i && before.bytes[b] != current[b];
  }

  /** What an incomplete plan leaves stale. */
  lemma {:induction false} Stale(before: Image, input: Input) returns (b: nat)
    requires input.Valid() && input.Present() && !Complete(before, input)
    ensures b < |input.Current()| && !UploadsByte(before, input, b)
    ensures b < |before.bytes| ==> before.bytes[b] != input.Current()[b]
  {
    if TailCommitted(before, input) {
      b := StaleInstance(before, input);
    } else {
      b := StaleTail(before, input);
    }
  }

  /** An incremental upload leaves what a full one would, on every buffer that holds
      the committed bytes, if and only if the plan is complete. */
  lemma {:induction false} UploadExact(before: Image, input: Input, plan: Plan)
    requires input.Valid() && input.Present() && Planned(before, input, plan)
    ensures (forall gpu | GpuHolds(before, input, gpu) ::
               Apply(gpu, plan.ranges, input.Current())[..|input.Current()|] == input.Current())
            <==> Complete(before, input)
  {
    var current := input.Current();
    if Complete(before, input) {
      forall gpu | GpuHolds(before, input, gpu)
        ensures Apply(gpu, plan.ranges, current)[..|current|] == current
      {
        UploadComplete(before, input, plan, gpu);
      }
    } else {
      var gpu := Adversary(before.bytes, current);
      var b := Stale(before, input);
      ApplyAt(gpu, plan.ranges, current, b);
      assert GpuHolds(before, input, gpu);
      assert Apply(gpu, plan.ranges, current)[..|current|][b] != current[b];
    }
  }

  /** The callers' way of making every plan complete: whole instances, and ranges
      that contain every instance of a row. */
  lemma {:induction false} WholeInstancesComplete(before: Image, input: Input)
    requires input.Valid() && input.Present() && |input.Current()| % input.InstanceBytes() == 0
    requires RangesSupplied(input) ==>
      forall i: nat | i < |input.Current()| / input.InstanceBytes() && input.HasRow(i) ::
        InSupplied(input, |input.Current()| / input.InstanceBytes(), i)
    ensures Complete(before, input)
  {
    var size, current := input.InstanceBytes(), input.Current();
    var count := |current| / size;
    forall b: nat | b < |current|
      ensures !InTail(input, b)
    {
      assert |current| == count * size;
      InstanceOf(b, size, 0, count);
    }
    if !FullUpload(before, input) && RowStable(before, input) && RangesSupplied(input) {
      forall i: nat | i < Common(before, input) && Changed(before, input, i)
        ensures InSupplied(input, Common(before, input), i)
      {
        assert input.HasRow(i);
      }
    }
  }

  /** The last byte of three, in instances of two, is never compared. */
  lemma {:induction false} TailIsNotUploaded() returns (before: Image, input: Input)
    ensures input.Valid() && input.Present() && !Complete(before, input)
    ensures !FullUpload(before, input) && before.bytes != input.Current() && forall b: nat :: !UploadsByte(before, input, b)
  {
    before := Image([1, 2, 3], [], true);
    input := Input(1, 2, Some([1, 2, 4]), 3, None, [], [], false, false, false, false, None);
    assert InTail(input, 2) && input.Current()[2] == 4 && 2 / input.InstanceBytes() == 1;
    assert InstanceAt([1, 2, 3], 0, 2) == [1, 2] == InstanceAt([1, 2, 4], 0, 2);
    assert Common(before, input) == 1 && !Changed(before, input, 0);
    assert forall i: nat :: !Fresh(before, input, i);
  }

  // ---- What a plan writes, told on bytes ---------------------------------------------

  /** A whole instance that the committed bytes do not have, or not like this. */
  ghost predicate NeedsWriting(before: Image, input: Input, i: nat)
    requires input.Valid() && input.Present()
  {
    var size := input.InstanceBytes();
    && i < |input.Current()| / size
    && (i >= |before.bytes| / size
        || exists b: nat :: b < |before.bytes| && b < |input.Current()| && b / size == i && before.bytes[b] != input.Current()[b])
  }

  /** The row of an instance, when it is one of the grid's. */
  predicate InRow(input: Input, i: nat, row: int) {
    0 <= row < input.rowCount && input.rows.Some? && i < |input.rows.value| && input.rows.value[i] == row
  }

  ghost predicate RowTold(input: Input, row: int) {
    exists k :: 0 <= k < |input.dirty| && input.dirty[k].firstRow <= row < input.dirty[k].firstRow + input.dirty[k].rowCount
  }

  /** The dirty rows tell of an instance: of its row, or, for one of all rows, of each. */
  ghost predicate Told(input: Input, i: nat) {
    && input.rowCount > 0 && input.rows.Some? && i < |input.rows.value|
    && ((0 <= input.rows.value[i] < input.rowCount && RowTold(input, input.rows.value[i]))
        || (input.rows.value[i] == -1 && forall row | 0 <= row < input.rowCount :: RowTold(input, row)))
  }

  predicate SameLayout(before: Image, input: Input)
    requires input.Valid() && input.Present()
  {
    |before.bytes| == |input.Current()| && before.layoutKey == input.layoutKey
  }

  /** A change that an incremental upload may write. */
  ghost predicate Explained(before: Image, input: Input, i: nat)
    requires input.Valid() && input.Present()
  {
    || (SameLayout(before, input) && exists row :: InRow(input, i, row))
    || (!(SameLayout(before, input) && input.rowStableLayout && input.rows.Some?) && Told(input, i))
  }

  lemma {:induction false} NeedsIsFresh(before: Image, input: Input, i: nat)
    requires input.Valid() && input.Present()
    ensures NeedsWriting(before, input, i) <==> Fresh(before, input, i)
  {
    if i < Common(before, input) {
      ChangedIs(before, input, i);
    }
  }

  lemma {:induction false} HasRowIs(input: Input, i: nat)
    ensures input.HasRow(i) <==> exists row :: InRow(input, i, row)
  {
    if input.HasRow(i) {
      assert InRow(input, i, input.rows.value[i]);
    }
  }

  lemma {:induction false} ToldIsDirty(input: Input, i: nat)
    ensures IsDirty(input.dirty, input.rowCount, input.RowOf(i)) <==> Told(input, i)
  {
    if input.rowCount > 0 {
      forall row | 0 <= row < input.rowCount
        ensures RowTold(input, row) <==> DirtyRow(input.dirty, input.rowCount, row)
      {
        RowToldIs(input, row);
      }
      forall row | row < 0 || row >= input.rowCount
        ensures !DirtyRow(input.dirty, input.rowCount, row)
      {
      }
    }
  }

  lemma {:induction false} RowToldIs(input: Input, row: int)
    requires 0 <= row < input.rowCount
    ensures RowTold(input, row) <==> DirtyRow(input.dirty, input.rowCount, row)
  {
    forall k | 0 <= k < |input.dirty|
      ensures InDirtyRange(input.dirty[k], input.rowCount, row) <==>
              input.dirty[k].firstRow <= row < input.dirty[k].firstRow + input.dirty[k].rowCount
    {
    }
  }

  /** Everything is uploaded exactly on demand, for a planner that has nothing committed,
      or when some instance needs writing and nothing explains it. */
  lemma {:induction false} FullUploadMeans(before: Image, input: Input)
    requires input.Valid() && input.Present()
    ensures FullUpload(before, input) <==>
      || input.bufferRecreated || input.forceFull || input.nonDirtyInvalidation || !before.initialized
      || exists i: nat :: NeedsWriting(before, input, i) && !Explained(before, input, i)
  {
    hide Fresh, IsDirty, NeedsWriting, Told, Common, Changed;
    forall i: nat
      ensures NeedsWriting(before, input, i) <==> Fresh(before, input, i)
      ensures input.HasRow(i) <==> exists row :: InRow(input, i, row)
      ensures IsDirty(input.dirty, input.rowCount, input.RowOf(i)) <==> Told(input, i)
    {
      NeedsIsFresh(before, input, i);
      HasRowIs(input, i);
      ToldIsDirty(input, i);
    }
    if RowStable(before, input) {
      SameSizeFresh(before, input);
    }
    hide Input.HasRow, InRow;
  }

  /** Otherwise just the instances that need writing are uploaded, or with row ranges
      supplied those of each range in which one does. */
  lemma {:induction false} UploadsMeans(before: Image, input: Input, b: nat)
    requires input.Valid() && input.Present() && !FullUpload(before, input)
    ensures UploadsByte(before, input, b) <==>
      var i := b / input.InstanceBytes();
      if SameLayout(before, input) && input.rowStableLayout && input.rows.Some? && RangesSupplied(input)
      then exists k :: 0 <= k < |input.rowStableRanges.value| && RangeNeeds(before, input, input.rowStableRanges.value[k], i)
      else NeedsWriting(before, input, i)
  {
    hide Fresh, NeedsWriting, Changed, RangeUploads, RangeNeeds;
    var i := b / input.InstanceBytes();
    NeedsIsFresh(before, input, i);
    if RowStable(before, input) && RangesSupplied(input) {
      forall k | 0 <= k < |input.rowStableRanges.value|
        ensures RangeUploads(before, input, input.rowStableRanges.value[k], i) <==>
                RangeNeeds(before, input, input.rowStableRanges.value[k], i)
      {
        RangeNeedsIs(before, input, input.rowStableRanges.value[k], i);
      }
    }
  }

  /** An instance of a range in which some instance needs writing. */
  ghost predicate RangeNeeds(before: Image, input: Input, range: RowRange, i: nat)
    requires input.Valid() && input.Present()
  {
    && range.first <= i < range.first + range.count && i < |input.Current()| / input.InstanceBytes()
    && exists j: nat :: range.first <= j < range.first + range.count && NeedsWriting(before, input, j)
  }

  lemma {:induction false} RangeNeedsIs(before: Image, input: Input, range: RowRange, i: nat)
    requires input.Valid() && input.Present() && |before.bytes| == |input.Current()|
    ensures RangeUploads(before, input, range, i) <==> RangeNeeds(before, input, range, i)
  {
    hide NeedsWriting, Changed, Fresh;
    SameSizeFresh(before, input);
    forall j: nat
      ensures NeedsWriting(before, input, j) <==> j < Common(before, input) && Changed(before, input, j)
    {
      NeedsIsFresh(before, input, j);
    }
    var common := Common(before, input);
    assert common == |input.Current()| / input.InstanceBytes();
  }

  // ---- Runs -------------------------------------------------------------------------

  /** One frame: the ranges are copied into `target`, a new buffer or the one there was. */
  datatype Frame = Frame(input: Input, plan: Plan, target: seq<Byte>)

  ghost predicate Step(image: Image, gpu: seq<Byte>, f: Frame, image': Image, gpu': seq<Byte>) {
    && f.input.Valid() && Planned(image, f.input, f.plan)
    && if !f.input.Present() then image' == image && gpu' == gpu
       else
         && |f.target| >= |f.input.Current()| && (!f.input.bufferRecreated ==> f.target == gpu)
         && gpu' == Apply(f.target, f.plan.ranges, f.input.Current())
         && image' == f.plan.commit.value
  }

  ghost predicate Holds(image: Image, gpu: seq<Byte>) {
    image.initialized ==> image.bytes <= gpu
  }

  lemma {:induction false} StepShowsCurrent(image: Image, gpu: seq<Byte>, f: Frame, image': Image, gpu': seq<Byte>)
    requires Step(image, gpu, f, image', gpu') && Holds(image, gpu)
    requires f.input.Present() ==> Complete(image, f.input)
    ensures Holds(image', gpu')
    ensures f.input.Present() ==> image'.initialized && image'.bytes == f.input.Current() && f.input.Current() <= gpu'
  {
    if f.input.Present() {
      UploadComplete(image, f.input, f.plan, f.target);
      CommitsCurrent(image, f.input, f.plan);
      assert gpu'[..|f.input.Current()|] == f.input.Current();
    }
  }

  ghost predicate Run(frames: seq<Frame>, images: seq<Image>, gpus: seq<seq<Byte>>) {
    && |images| == |gpus| == |frames| + 1
    && (forall k | 0 <= k < |frames| :: Step(images[k], gpus[k], frames[k], images[k + 1], gpus[k + 1]))
    && (forall k | 0 <= k < |frames| :: frames[k].input.Valid() && frames[k].input.Present() ==> Complete(images[k], frames[k].input))
  }

  /** Over a whole run, after each frame the buffer starts with that frame's instances. */
  lemma {:induction false} RunShowsCurrent(frames: seq<Frame>, images: seq<Image>, gpus: seq<seq<Byte>>, k: nat)
    requires Run(frames, images, gpus) && k <= |frames| && !images[0].initialized
    ensures Holds(images[k], gpus[k])
    ensures k > 0 && frames[k - 1].input.Present() ==>
      images[k].bytes == frames[k - 1].input.Current() && frames[k - 1].input.Current() <= gpus[k]
  {
    if k > 0 {
      RunShowsCurrent(frames, images, gpus, k - 1);
      StepShowsCurrent(images[k - 1], gpus[k - 1], frames[k - 1], images[k], gpus[k]);
    }
  }
}
