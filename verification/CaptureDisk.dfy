/** The directory of an output capture and the disk steps its writer takes
    (src/backend_output_capture.cpp). Every directory a step leaves is recorded:
    an interruption can leave any of them behind. */
module CaptureDisk {
  type Bytes = string

  /** The recognized artifacts of one capture; sequences are decimal file-name fields. */
  datatype Name = Completion | RawSegment(sequence: nat) | FinalizedMarker(sequence: nat)

  type Directory = map<Name, Bytes>

  const FINALIZED_MARKER: Bytes := "vnm-terminal-output-capture-finalized-v1\n"
  const COMPLETION_MARKER: Bytes := "vnm-terminal-output-capture-complete-v1\n"
  const MAX_SEQUENCE := 0xffff_ffff_ffff_ffff
  const MAX_CAPTURE_BYTES := 0x7fff_ffff_ffff_ffff

  predicate ValidSequence(n: nat) { 0 < n <= MAX_SEQUENCE }

  function RetainedSegmentLimit(maxBytes: nat): nat {
    if maxBytes == 1 then 1 else 2
  }

  function SegmentCapacity(maxBytes: nat, sequence: nat): nat {
    if maxBytes == 1 then 1
    else
      var lower := maxBytes / 2;
      if sequence % 2 == 1 then lower else maxBytes - lower
  }

  datatype MarkerState = Absent | ValidMarker | PartialMarker | InvalidMarker

  function InspectMarker(d: Directory, name: Name, expected: Bytes): MarkerState {
    if name !in d then Absent
    else if d[name] == expected then ValidMarker
    else if d[name] < expected then PartialMarker
    else InvalidMarker
  }

  // ---- Directories a recovery scan accepts -----------------------------------

  predicate Finalized(d: Directory, n: nat) {
    FinalizedMarker(n) in d && d[FinalizedMarker(n)] == FINALIZED_MARKER
  }

  /** A raw segment that holds bytes; an empty one is an interrupted creation. */
  predicate Real(d: Directory, n: nat) {
    RawSegment(n) in d && d[RawSegment(n)] != []
  }

  predicate SequencesOk(d: Directory) {
    forall name | name in d && !name.Completion? :: ValidSequence(name.sequence)
  }

  /** Markers are whole or cut short, and a whole one has its raw segment. */
  predicate MarkersOk(d: Directory) {
    forall name | name in d && name.FinalizedMarker? ::
      if RawSegment(name.sequence) in d then d[name] <= FINALIZED_MARKER else d[name] < FINALIZED_MARKER
  }

  predicate SegmentsOk(d: Directory, maxBytes: nat) {
    forall name | name in d && name.RawSegment? ::
      && |d[name]| <= SegmentCapacity(maxBytes, name.sequence)
      && (d[name] == [] ==> !Finalized(d, name.sequence))
  }

  ghost predicate Consecutive(d: Directory) {
    forall a: nat, b: nat, c: nat | Real(d, a) && Real(d, b) && a <= c <= b :: Real(d, c)
  }

  /** The segments a scan keeps: those with fewer than the limit above them. */
  predicate Retained(d: Directory, maxBytes: nat, n: nat) {
    Real(d, n) && !Real(d, n + RetainedSegmentLimit(maxBytes))
  }

  ghost predicate CompletionOk(d: Directory, maxBytes: nat) {
    Completion in d ==>
      && d[Completion] <= COMPLETION_MARKER
      && (d[Completion] == COMPLETION_MARKER ==> forall n: nat | Retained(d, maxBytes, n) :: Finalized(d, n))
  }

  /** What a recovery scan accepts without error. */
  ghost predicate WellFormed(d: Directory, maxBytes: nat) {
    SequencesOk(d) && MarkersOk(d) && SegmentsOk(d, maxBytes) && Consecutive(d) && CompletionOk(d, maxBytes)
  }

  /** The lower half of the limit for odd sequences, what is left for even ones. */
  lemma {:induction false} SegmentSizesDecide(d: Directory, maxBytes: nat)
    requires 1 < maxBytes
    ensures SegmentsOk(d, maxBytes) <==>
      forall n: nat | RawSegment(n) in d ::
        && |d[RawSegment(n)]| <= (if n % 2 == 1 then maxBytes / 2 else maxBytes - maxBytes / 2)
        && (d[RawSegment(n)] == [] ==> !Finalized(d, n))
  {
    if forall n: nat | RawSegment(n) in d ::
        && |d[RawSegment(n)]| <= (if n % 2 == 1 then maxBytes / 2 else maxBytes - maxBytes / 2)
        && (d[RawSegment(n)] == [] ==> !Finalized(d, n))
    {
      forall name | name in d && name.RawSegment?
        ensures |d[name]| <= SegmentCapacity(maxBytes, name.sequence) && (d[name] == [] ==> !Finalized(d, name.sequence))
      {
        assert RawSegment(name.sequence) in d;
      }
    }
  }

  /** Segment `n`, full and finalized, and the one after it. */
  function Pair(n: nat, first: Bytes, second: Bytes): Directory {
    map[RawSegment(n) := first, FinalizedMarker(n) := FINALIZED_MARKER, RawSegment(n + 1) := second]
  }

  /** A full segment and the next one are accepted, whichever is odd. */
  lemma {:induction false} PairIsAccepted(n: nat, first: Bytes, second: Bytes, maxBytes: nat)
    requires 1 < maxBytes && 0 < n < MAX_SEQUENCE && |first| == (if n % 2 == 1 then maxBytes / 2 else maxBytes - maxBytes / 2)
    requires 0 < |second| && |first| + |second| <= maxBytes
    ensures WellFormed(Pair(n, first, second), maxBytes)
  {
    var d := Pair(n, first, second);
    assert forall k: nat :: Real(d, k) <==> k == n || k == n + 1;
  }

  // ---- Which single steps keep a directory acceptable -------------------------

  lemma {:induction false} RemoveCompletionKeeps(d: Directory, maxBytes: nat)
    requires WellFormed(d, maxBytes)
    ensures WellFormed(d - {Completion}, maxBytes)
  {
    var e := d - {Completion};
    assert forall n: nat :: Real(e, n) <==> Real(d, n);
  }

  /** A marker goes before its raw segment, so no whole marker is orphaned. */
  lemma {:induction false} RemoveMarkerKeeps(d: Directory, maxBytes: nat, n: nat)
    requires WellFormed(d, maxBytes)
    requires Completion in d && d[Completion] == COMPLETION_MARKER && Finalized(d, n) ==> !Retained(d, maxBytes, n)
    ensures WellFormed(d - {FinalizedMarker(n)}, maxBytes)
  {
    var e := d - {FinalizedMarker(n)};
    assert forall k: nat :: Real(e, k) <==> Real(d, k);
    assert forall k: nat | k != n :: Finalized(e, k) <==> Finalized(d, k);
  }

  lemma {:induction false} RemoveRawKeeps(d: Directory, maxBytes: nat, n: nat)
    requires WellFormed(d, maxBytes)
    requires FinalizedMarker(n) in d ==> d[FinalizedMarker(n)] < FINALIZED_MARKER
    requires Real(d, n) ==> !Retained(d, maxBytes, n) && forall k: nat | Real(d, k) :: n <= k
    ensures WellFormed(d - {RawSegment(n)}, maxBytes)
  {
    var e := d - {RawSegment(n)};
    assert forall k: nat | k != n :: Real(e, k) <==> Real(d, k);
    assert forall k: nat :: Finalized(e, k) <==> Finalized(d, k);
    forall k: nat | Retained(e, maxBytes, k)
      ensures Retained(d, maxBytes, k)
    {
      assert Real(d, k);
    }
  }

  lemma {:induction false} CreateRawKeeps(d: Directory, maxBytes: nat, n: nat)
    requires WellFormed(d, maxBytes) && ValidSequence(n)
    requires RawSegment(n) !in d && FinalizedMarker(n) !in d
    ensures WellFormed(d[RawSegment(n) := []], maxBytes)
  {
    var e := d[RawSegment(n) := []];
    assert forall k: nat :: Real(e, k) <==> Real(d, k);
    assert forall k: nat :: Finalized(e, k) <==> Finalized(d, k);
  }

  /** Bytes may be written to a new or unfinished segment at the end of the run. */
  lemma {:induction false} WriteRawKeeps(d: Directory, maxBytes: nat, n: nat, content: Bytes)
    requires WellFormed(d, maxBytes) && Completion !in d
    requires RawSegment(n) in d && |content| <= SegmentCapacity(maxBytes, n) && content != []
    requires Real(d, n) || forall k: nat | Real(d, k) :: k < n && forall c: nat | k <= c < n :: Real(d, c)
    ensures WellFormed(d[RawSegment(n) := content], maxBytes)
  {
    var e := d[RawSegment(n) := content];
    assert forall k: nat | k != n :: Real(e, k) <==> Real(d, k);
    assert forall k: nat :: Finalized(e, k) <==> Finalized(d, k);
  }

  lemma {:induction false} PublishMarkerKeeps(d: Directory, maxBytes: nat, n: nat)
    requires WellFormed(d, maxBytes) && Real(d, n)
    ensures WellFormed(d[FinalizedMarker(n) := FINALIZED_MARKER], maxBytes)
  {
    var e := d[FinalizedMarker(n) := FINALIZED_MARKER];
    assert forall k: nat :: Real(e, k) <==> Real(d, k);
    assert forall k: nat :: Finalized(e, k) <==> k == n || Finalized(d, k);
  }

  lemma {:induction false} PublishCompletionKeeps(d: Directory, maxBytes: nat)
    requires WellFormed(d, maxBytes)
    requires forall n: nat | Retained(d, maxBytes, n) :: Finalized(d, n)
    ensures WellFormed(d[Completion := COMPLETION_MARKER], maxBytes)
  {
    var e := d[Completion := COMPLETION_MARKER];
    assert forall k: nat :: Real(e, k) <==> Real(d, k);
    assert forall k: nat :: Finalized(e, k) <==> Finalized(d, k);
  }

  // ---- The disk -----------------------------------------------------------------

  ghost predicate AllAccepted(history: seq<Directory>, maxBytes: nat) {
    forall i | 0 <= i < |history| :: WellFormed(history[i], maxBytes)
  }

  /** `e` is `d` with some of `bytes` appended to a file. */
  ghost predicate PartlyAppended(e: Directory, d: Directory, name: Name, bytes: Bytes)
    requires name in d
  {
    exists k: nat :: k <= |bytes| && e == d[name := d[name] + bytes[..k]]
  }

  /** Steps are atomic but an append, which can stop after any byte. Any step can fail. */
  class Disk {
    var files: Directory

    /** Every directory there has been, the oldest first. */
    ghost var history: seq<Directory>

    /** How many steps failed. */
    ghost var failures: nat

    ghost predicate Valid()
      reads this
    {
      history != [] && history[|history| - 1] == files
    }

    /** An interruption at any point left a directory that a recovery scan accepts. */
    ghost predicate AllWellFormed(maxBytes: nat): (all: bool)
      reads this
      ensures all ==> Valid() && WellFormed(files, maxBytes)
    {
      Valid() && AllAccepted(history, maxBytes)
    }

    constructor (files: Directory)
      ensures Valid() && this.files == files && history == [files] && failures == 0
    {
      this.files := files;
      history := [files];
      failures := 0;
    }

    /** Creates an empty file; a file of that name must not exist. */
    method Create(name: Name) returns (ok: bool)
      requires Valid()
      modifies this
      ensures Valid()
      ensures ok ==> name !in old(files) && files == old(files)[name := []] && history == old(history) + [files]
      ensures !ok ==> files == old(files) && history == old(history)
      ensures failures == old(failures) + if ok || name in old(files) then 0 else 1
    {
      var fails: bool := *;
      ok := !fails && name !in files;
      failures := failures + if ok || name in files then 0 else 1;
      if ok {
        files := files[name := []];
        history := history + [files];
      }
    }

    /** Appends the bytes one after the other; a failure leaves a prefix of them. */
    method Append(name: Name, bytes: Bytes) returns (ok: bool)
      requires Valid() && name in files
      modifies this
      ensures Valid()
      ensures PartlyAppended(files, old(files), name, bytes)
      ensures ok ==> files == old(files)[name := old(files)[name] + bytes]
      ensures old(history) <= history
      ensures forall i | |old(history)| <= i < |history| :: PartlyAppended(history[i], old(files), name, bytes)
      ensures ok ==> |history| == |old(history)| + |bytes|
      ensures ok ==> forall k | 1 <= k <= |bytes| ::
        history[|old(history)| + k - 1] == old(files)[name := old(files)[name] + bytes[..k]]
      ensures failures == old(failures) + if ok then 0 else 1
    {
      var original := files[name];
      ghost var before := files;
      ok := true;
      var i := 0;
      assert original + bytes[..0] == original && before == before[name := original + bytes[..0]];
      while i < |bytes| && ok
        invariant i <= |bytes| && Valid()
        invariant files == before[name := original + bytes[..i]]
        invariant old(history) <= history && |history| == |old(history)| + i
        invariant forall k | 1 <= k <= i :: history[|old(history)| + k - 1] == before[name := original + bytes[..k]]
        invariant failures == old(failures)
        decreases |bytes| - i, ok
      {
        var fails: bool := *;
        if fails {
          ok := false;
        } else {
          assert original + bytes[..i + 1] == original + bytes[..i] + [bytes[i]];
          files := files[name := files[name] + [bytes[i]]];
          history := history + [files];
          i := i + 1;
        }
      }
      var flushFails: bool := *;
      ok := ok && !flushFails;
      assert bytes[..|bytes|] == bytes;
      failures := failures + if ok then 0 else 1;
      assert PartlyAppended(files, before, name, bytes);
      forall k | |old(history)| <= k < |history|
        ensures PartlyAppended(history[k], before, name, bytes)
      {
        assert history[k] == before[name := original + bytes[..k - |old(history)| + 1]];
      }
    }

    /** Removes a file; one that does not exist counts as removed. */
    method Remove(name: Name) returns (ok: bool)
      requires Valid()
      modifies this
      ensures Valid()
      ensures ok ==> files == old(files) - {name}
      ensures !ok ==> files == old(files)
      ensures history == old(history) || (ok && history == old(history) + [files])
      ensures failures == old(failures) + if ok then 0 else 1
    {
      if name !in files {
        assert files == files - {name};
        return true;
      }
      var fails: bool := *;
      ok := !fails;
      if ok {
        files := files - {name};
        history := history + [files];
      }
      failures := failures + if fails then 1 else 0;
    }

    /** Flushes an open file. */
    method Flush() returns (ok: bool)
      requires Valid()
      modifies this`failures
      ensures failures == old(failures) + if ok then 0 else 1
    {
      var fails: bool := *;
      ok := !fails;
      failures := failures + if fails then 1 else 0;
    }

    /** Publishes a file whole or not at all. */
    method Publish(name: Name, bytes: Bytes) returns (ok: bool)
      requires Valid()
      modifies this
      ensures Valid()
      ensures ok ==> files == old(files)[name := bytes] && history == old(history) + [files]
      ensures !ok ==> files == old(files) && history == old(history)
      ensures failures == old(failures) + if ok then 0 else 1
    {
      var fails: bool := *;
      ok := !fails;
      if ok {
        files := files[name := bytes];
        history := history + [files];
      }
      failures := failures + if fails then 1 else 0;
    }
  }
}
