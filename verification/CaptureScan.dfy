/** The recovery scan: it accepts exactly the well-formed directories, lists the
    retained suffix and, when it may mutate, leaves nothing else behind. */
module CaptureScan {
  import opened CaptureDisk
  import opened CaptureText

  datatype Segment = Segment(sequence: nat, byteCount: nat, finalized: bool)

  ghost predicate SomeUnfinished(segments: seq<Segment>) {
    exists i :: 0 <= i < |segments| && !segments[i].finalized
  }

  datatype Status = EmptyCapture | IncompleteCapture | FinalizedCapture

  datatype Scan = ScanError | Scanned(status: Status, segments: seq<Segment>)

  // ---- Litter: what an interruption leaves that is not a segment ------------

  predicate IsLitter(d: Directory, name: Name)
    requires name in d
  {
    match name
    case Completion => d[name] < COMPLETION_MARKER
    case FinalizedMarker(_) => d[name] < FINALIZED_MARKER
    case RawSegment(_) => d[name] == []
  }

  ghost predicate AllLitter(d: Directory, removed: set<Name>) {
    forall name | name in removed :: name in d && IsLitter(d, name)
  }

  lemma {:induction false} LitterRemovalKeeps(d: Directory, removed: set<Name>, maxBytes: nat)
    requires WellFormed(d, maxBytes) && AllLitter(d, removed)
    ensures WellFormed(d - removed, maxBytes)
  {
    var e := d - removed;
    assert forall k: nat :: Real(e, k) <==> Real(d, k);
    assert forall k: nat :: Finalized(e, k) <==> Finalized(d, k);
  }

  lemma {:induction false} LitterIsNoText(d: Directory, removed: set<Name>, maxBytes: nat)
    requires AllLitter(d, removed)
    ensures SameRetained(d - removed, d, maxBytes)
  {
    var e := d - removed;
    assert forall k: nat :: Real(e, k) <==> Real(d, k);
    SameBytesSameRetained(e, d, maxBytes);
  }

  // ---- One sequence at a time -------------------------------------------------

  /** What a scan demands of the files of one sequence. */
  predicate EntryOk(d: Directory, maxBytes: nat, n: nat) {
    && (FinalizedMarker(n) in d ==>
          if RawSegment(n) in d then d[FinalizedMarker(n)] <= FINALIZED_MARKER else d[FinalizedMarker(n)] < FINALIZED_MARKER)
    && (RawSegment(n) in d ==>
          |d[RawSegment(n)]| <= SegmentCapacity(maxBytes, n) && (d[RawSegment(n)] == [] ==> !Finalized(d, n)))
  }

  lemma {:induction false} EntriesDecide(d: Directory, maxBytes: nat)
    ensures MarkersOk(d) && SegmentsOk(d, maxBytes) <==> forall n: nat :: EntryOk(d, maxBytes, n)
  {
    if forall n: nat :: EntryOk(d, maxBytes, n) {
      forall name | name in d && !name.Completion?
        ensures EntryOk(d, maxBytes, name.sequence)
      {
      }
    }
  }

  function CandidateSequences(d: Directory): set<nat> {
    set name | name in d && !name.Completion? :: name.sequence
  }

  predicate Describes(d: Directory, s: Segment) {
    && Real(d, s.sequence)
    && s.byteCount == |d[RawSegment(s.sequence)]|
    && (s.finalized <==> Finalized(d, s.sequence))
  }

  /** `segments` lists the real segments among the sequences `done`, ascending. */
  ghost predicate Collected(d: Directory, segments: seq<Segment>, done: set<nat>) {
    && (forall i | 0 <= i < |segments| :: segments[i].sequence in done && Describes(d, segments[i]))
    && (forall i, j | 0 <= i < j < |segments| :: segments[i].sequence < segments[j].sequence)
    && (forall n | n in done && Real(d, n) :: exists i :: 0 <= i < |segments| && segments[i].sequence == n)
  }

  lemma {:induction false} CollectNext(d: Directory, segments: seq<Segment>, done: set<nat>, s: Segment)
    requires Collected(d, segments, done) && Describes(d, s)
    requires forall n | n in done :: n < s.sequence
    ensures Collected(d, segments + [s], done + {s.sequence})
  {
    var more := segments + [s];
    forall n | n in done + {s.sequence} && Real(d, n)
      ensures exists i :: 0 <= i < |more| && more[i].sequence == n
    {
      if n in done {
        var i :| 0 <= i < |segments| && segments[i].sequence == n;
        assert more[i].sequence == n;
      } else {
        assert more[|segments|].sequence == n;
      }
    }
  }

  lemma {:induction false} CollectNothing(d: Directory, segments: seq<Segment>, done: set<nat>, n: nat)
    requires Collected(d, segments, done) && !Real(d, n)
    ensures Collected(d, segments, done + {n})
  {
  }

  /** `segments` is a run of successive sequences. */
  predicate IsRun(segments: seq<Segment>) {
    forall i | 0 <= i < |segments| :: segments[i].sequence == segments[0].sequence + i
  }

  predicate InRun(segments: seq<Segment>, n: nat) {
    segments != [] && segments[0].sequence <= n < segments[0].sequence + |segments|
  }

  /** `segments` is a run and names exactly the real segments of `d`. */
  ghost predicate Listed(d: Directory, segments: seq<Segment>) {
    && IsRun(segments)
    && (forall i | 0 <= i < |segments| :: Describes(d, segments[i]))
    && (forall n: nat :: Real(d, n) <==> InRun(segments, n))
  }

  lemma {:induction false} RealIsCandidate(d: Directory, n: nat)
    requires Real(d, n)
    ensures n in CandidateSequences(d)
  {
    assert RawSegment(n) in d && !RawSegment(n).Completion?;
    assert RawSegment(n).sequence == n;
  }

  lemma {:induction false} RunIsListed(d: Directory, segments: seq<Segment>)
    requires Collected(d, segments, CandidateSequences(d)) && IsRun(segments)
    ensures Listed(d, segments)
  {
    hide CandidateSequences;
    forall n: nat
      ensures Real(d, n) <==> InRun(segments, n)
    {
      if InRun(segments, n) {
        assert Describes(d, segments[n - segments[0].sequence]);
      }
      if Real(d, n) {
        RealIsCandidate(d, n);
        var i :| 0 <= i < |segments| && segments[i].sequence == n;
        assert n == segments[0].sequence + i;
      }
    }
  }

  lemma {:induction false} ListedIsConsecutive(d: Directory, segments: seq<Segment>)
    requires Listed(d, segments)
    ensures Consecutive(d)
  {
  }

  lemma {:induction false} RunIffConsecutive(d: Directory, segments: seq<Segment>)
    requires Collected(d, segments, CandidateSequences(d))
    ensures IsRun(segments) <==> Consecutive(d)
    ensures IsRun(segments) ==> Listed(d, segments)
  {
    hide Collected, CandidateSequences, IsRun, Listed, Consecutive;
    if IsRun(segments) {
      RunIsListed(d, segments);
      ListedIsConsecutive(d, segments);
    }
    if Consecutive(d) {
      ConsecutiveIsRun(d, segments, |segments|);
      assert segments[..|segments|] == segments;
    }
  }

  lemma {:induction false} ConsecutiveIsRun(d: Directory, segments: seq<Segment>, count: nat)
    requires Collected(d, segments, CandidateSequences(d)) && Consecutive(d) && count <= |segments|
    ensures IsRun(segments[..count])
  {
    hide CandidateSequences;
    if count > 1 {
      ConsecutiveIsRun(d, segments, count - 1);
      var previous, last := segments[count - 2].sequence, segments[count - 1].sequence;
      assert segments[..count - 1][count - 2] == segments[count - 2];
      assert Describes(d, segments[count - 2]) && Describes(d, segments[count - 1]);
      assert Real(d, previous + 1);
      RealIsCandidate(d, previous + 1);
      var i :| 0 <= i < |segments| && segments[i].sequence == previous + 1;
      assert count - 2 < i <= count - 1;
    }
  }

  /** What a directory holds after a scan that may mutate: the listed segments
      with their whole markers, and perhaps a whole completion manifest. */
  ghost predicate Tidy(d: Directory, segments: seq<Segment>) {
    && Listed(d, segments)
    && (forall name | name in d :: !IsLitter(d, name))
    && (forall name | name in d && name.FinalizedMarker? :: RawSegment(name.sequence) in d)
  }

  // ---- The scan -----------------------------------------------------------------

  /** The scan of `d` stands at what is left of it after removing some litter; all
      directories since `past` retained the same text. */
  ghost predicate Scanning(disk: Disk, d: Directory, removed: set<Name>, maxBytes: nat, past: seq<Directory>)
    reads disk
  {
    && past <= disk.history && AllKeepText(disk.history, |past|, d, maxBytes)
    && disk.Valid()
    && disk.files == d - removed
    && AllLitter(d, removed)
    && (WellFormed(d, maxBytes) ==> disk.AllWellFormed(maxBytes))
  }

  /** Removes one piece of litter, if the scan may. */
  method ClearLitter(disk: Disk, name: Name, allowMutation: bool, maxBytes: nat, ghost d: Directory, ghost removed: set<Name>,
                     ghost past: seq<Directory>)
    returns (ok: bool, ghost cleared: set<Name>)
    requires Scanning(disk, d, removed, maxBytes, past) && name in d && IsLitter(d, name)
    modifies disk
    ensures Scanning(disk, d, cleared, maxBytes, past)
    ensures removed <= cleared <= removed + {name}
    ensures ok && allowMutation ==> name in cleared
    ensures !allowMutation ==> ok && disk.files == old(disk.files) && disk.history == old(disk.history)
    ensures !allowMutation ==> cleared == removed
    ensures disk.failures >= old(disk.failures) && (!ok ==> disk.failures > old(disk.failures))
  {
    ok, cleared := true, removed;
    if !allowMutation {
      return;
    }
    ok := disk.Remove(name);
    if ok {
      cleared := removed + {name};
      assert disk.files == d - cleared;
      LitterIsNoText(d, cleared, maxBytes);
      if WellFormed(d, maxBytes) {
        LitterRemovalKeeps(d, cleared, maxBytes);
      }
    }
  }

  /** Whether the sequences `done` have litter. */
  ghost predicate LitterAmong(d: Directory, done: set<nat>) {
    exists name :: name in d && !name.Completion? && IsLitter(d, name) && name.sequence in done
  }

  /** The litter of the sequences `done` is gone. */
  ghost predicate ClearedAmong(d: Directory, done: set<nat>, removed: set<Name>) {
    forall name | name in d && !name.Completion? && IsLitter(d, name) && name.sequence in done :: name in removed
  }

  predicate HasLitter(d: Directory, n: nat) {
    || (RawSegment(n) in d && IsLitter(d, RawSegment(n)))
    || (FinalizedMarker(n) in d && IsLitter(d, FinalizedMarker(n)))
  }

  lemma {:induction false} LitterStep(d: Directory, done: set<nat>, n: nat)
    ensures LitterAmong(d, done + {n}) <==> LitterAmong(d, done) || HasLitter(d, n)
  {
    if LitterAmong(d, done + {n}) {
      var name :| name in d && !name.Completion? && IsLitter(d, name) && name.sequence in done + {n};
      assert name.sequence == n ==> name == RawSegment(n) || name == FinalizedMarker(n);
    }
    if LitterAmong(d, done) {
      var name :| name in d && !name.Completion? && IsLitter(d, name) && name.sequence in done;
      assert name.sequence in done + {n};
    }
    if RawSegment(n) in d && IsLitter(d, RawSegment(n)) {
      assert RawSegment(n).sequence in done + {n};
    }
    if FinalizedMarker(n) in d && IsLitter(d, FinalizedMarker(n)) {
      assert FinalizedMarker(n).sequence in done + {n};
    }
  }

  lemma {:induction false} ClearedStep(d: Directory, done: set<nat>, before: set<Name>, removed: set<Name>, n: nat)
    requires ClearedAmong(d, done, before) && before <= removed
    requires RawSegment(n) in d && IsLitter(d, RawSegment(n)) ==> RawSegment(n) in removed
    requires FinalizedMarker(n) in d && IsLitter(d, FinalizedMarker(n)) ==> FinalizedMarker(n) in removed
    ensures ClearedAmong(d, done + {n}, removed)
  {
    forall name | name in d && !name.Completion? && IsLitter(d, name) && name.sequence in done + {n}
      ensures name in removed
    {
      assert name.sequence == n ==> name == RawSegment(n) || name == FinalizedMarker(n);
    }
  }

  lemma {:induction false} Candidates(d: Directory, n: nat)
    ensures RawSegment(n) in d || FinalizedMarker(n) in d <==> n in CandidateSequences(d)
  {
    assert RawSegment(n) in d ==> RawSegment(n).sequence in CandidateSequences(d);
    assert FinalizedMarker(n) in d ==> FinalizedMarker(n).sequence in CandidateSequences(d);
    if n in CandidateSequences(d) {
      var name :| name in d && !name.Completion? && name.sequence == n;
      assert name == RawSegment(n) || name == FinalizedMarker(n);
    }
  }

  lemma {:induction false} UnlistedEntryOk(d: Directory, maxBytes: nat, n: nat)
    requires n !in CandidateSequences(d)
    ensures EntryOk(d, maxBytes, n)
  {
    Candidates(d, n);
  }

  datatype Entry = BadEntry | NoSegment(litter: bool) | Listing(segment: Segment, litter: bool)

  /** Inspects the files of one sequence. */
  method ScanEntry(disk: Disk, n: nat, maxBytes: nat, allowMutation: bool, ghost d: Directory, ghost removed: set<Name>,
                   ghost past: seq<Directory>)
    returns (entry: Entry, ghost cleared: set<Name>)
    requires Scanning(disk, d, removed, maxBytes, past) && n in CandidateSequences(d)
    requires RawSegment(n) !in removed && FinalizedMarker(n) !in removed
    modifies disk
    ensures Scanning(disk, d, cleared, maxBytes, past)
    ensures removed <= cleared <= removed + {RawSegment(n), FinalizedMarker(n)}
    ensures !allowMutation ==> disk.files == old(disk.files) && disk.history == old(disk.history)
    ensures disk.failures >= old(disk.failures)
    ensures entry.BadEntry? && disk.failures == old(disk.failures) ==> !EntryOk(d, maxBytes, n)
    ensures !entry.BadEntry? ==> EntryOk(d, maxBytes, n)
    ensures !entry.BadEntry? ==> (entry.litter <==> HasLitter(d, n))
    ensures !entry.BadEntry? && allowMutation ==>
      && (RawSegment(n) in d && IsLitter(d, RawSegment(n)) ==> RawSegment(n) in cleared)
      && (FinalizedMarker(n) in d && IsLitter(d, FinalizedMarker(n)) ==> FinalizedMarker(n) in cleared)
    ensures entry.NoSegment? ==> !Real(d, n)
    ensures entry.Listing? ==> entry.segment.sequence == n && Describes(d, entry.segment)
  {
    cleared := removed;
    var ok := true;
    var marker := InspectMarker(disk.files, FinalizedMarker(n), FINALIZED_MARKER);
    if RawSegment(n) !in disk.files {
      if marker == PartialMarker {
        ok, cleared := ClearLitter(disk, FinalizedMarker(n), allowMutation, maxBytes, d, cleared, past);
        return if ok then NoSegment(true) else BadEntry, cleared;
      }
      return BadEntry, cleared;
    }
    var bytes := disk.files[RawSegment(n)];
    if marker == InvalidMarker {
      return BadEntry, cleared;
    }
    var litter := marker == PartialMarker;
    if litter {
      ok, cleared := ClearLitter(disk, FinalizedMarker(n), allowMutation, maxBytes, d, cleared, past);
      if !ok {
        return BadEntry, cleared;
      }
    }
    if |bytes| == 0 && marker != ValidMarker {
      ok, cleared := ClearLitter(disk, RawSegment(n), allowMutation, maxBytes, d, cleared, past);
      return if ok then NoSegment(true) else BadEntry, cleared;
    }
    if |bytes| == 0 || |bytes| > SegmentCapacity(maxBytes, n) {
      return BadEntry, cleared;
    }
    entry := Listing(Segment(n, |bytes|, marker == ValidMarker), litter);
  }

  lemma {:induction false} Least(s: set<nat>) returns (least: nat)
    requires s != {}
    ensures least in s && forall m | m in s :: least <= m
  {
    least :| least in s;
    var others := s - {least};
    if others != {} {
      var other := Least(others);
      forall m | m in s
        ensures (if other < least then other else least) <= m
      {
        assert m == least || m in others;
      }
      least := if other < least then other else least;
    } else {
      assert s == {least};
    }
  }

  /** The sequences `done` have been scanned with this outcome. */
  ghost predicate ScannedUpTo(d: Directory, maxBytes: nat, allowMutation: bool,
                              segments: seq<Segment>, done: set<nat>, litter: bool, removed: set<Name>) {
    && (forall name | name in removed :: name.Completion? || name.sequence in done)
    && Collected(d, segments, done)
    && (forall n | n in done :: EntryOk(d, maxBytes, n))
    && (litter <==> LitterAmong(d, done))
    && (allowMutation ==> ClearedAmong(d, done, removed))
  }

  /** Scans one more sequence, above all those before it. */
  method ScanNext(disk: Disk, n: nat, maxBytes: nat, allowMutation: bool, segments: seq<Segment>, litter: bool,
                  ghost d: Directory, ghost done: set<nat>, ghost removed: set<Name>, ghost past: seq<Directory>)
    returns (ok: bool, moreSegments: seq<Segment>, moreLitter: bool, ghost cleared: set<Name>)
    requires Scanning(disk, d, removed, maxBytes, past) && n in CandidateSequences(d)
    requires ScannedUpTo(d, maxBytes, allowMutation, segments, done, litter, removed)
    requires forall k | k in done :: k < n
    modifies disk
    ensures Scanning(disk, d, cleared, maxBytes, past) && removed <= cleared
    ensures !allowMutation ==> disk.files == old(disk.files) && disk.history == old(disk.history)
    ensures disk.failures >= old(disk.failures)
    ensures ok ==> ScannedUpTo(d, maxBytes, allowMutation, moreSegments, done + {n}, moreLitter, cleared)
    ensures !ok && disk.failures == old(disk.failures) ==> !EntryOk(d, maxBytes, n)
  {
    hide WellFormed, Describes, Real, EntryOk, IsLitter, HasLitter, Collected, LitterAmong, ClearedAmong,
          CandidateSequences, Scanning;
    forall name | name in removed
      ensures name != RawSegment(n) && name != FinalizedMarker(n)
    {
      assert name.Completion? || name.sequence in done;
    }
    moreSegments, moreLitter := segments, litter;
    var entry;
    entry, cleared := ScanEntry(disk, n, maxBytes, allowMutation, d, removed, past);
    ok := !entry.BadEntry?;
    if ok {
      LitterStep(d, done, n);
      moreLitter := litter || entry.litter;
      if allowMutation {
        ClearedStep(d, done, removed, cleared, n);
      }
      if entry.Listing? {
        CollectNext(d, segments, done, entry.segment);
        moreSegments := segments + [entry.segment];
      } else {
        CollectNothing(d, segments, done, n);
      }
    }
  }

  lemma {:induction false} BeginScan(disk: Disk, d: Directory, before: set<Name>, maxBytes: nat, allowMutation: bool,
        past: seq<Directory>)
    requires Scanning(disk, d, before, maxBytes, past) && before <= {Completion}
    ensures CandidateSequences(disk.files) == CandidateSequences(d)
    ensures SequencesOk(d) <==> forall n | n in CandidateSequences(d) :: ValidSequence(n)
    ensures ScannedUpTo(d, maxBytes, allowMutation, [], {}, false, before)
  {
    forall n | n in CandidateSequences(d)
      ensures SequencesOk(d) ==> ValidSequence(n)
    {
      var name :| name in d && !name.Completion? && name.sequence == n;
    }
  }

  /** Lists the real segments in ascending order, checking the files of every sequence. */
  method CollectSegments(disk: Disk, maxBytes: nat, allowMutation: bool, ghost d: Directory, ghost before: set<Name>,
                         ghost past: seq<Directory>)
    returns (ok: bool, segments: seq<Segment>, litter: bool, ghost removed: set<Name>)
    requires Scanning(disk, d, before, maxBytes, past) && before <= {Completion}
    modifies disk
    ensures Scanning(disk, d, removed, maxBytes, past) && before <= removed
    ensures !allowMutation ==> disk.files == old(disk.files) && disk.history == old(disk.history)
    ensures disk.failures >= old(disk.failures)
    ensures ok ==> ScannedUpTo(d, maxBytes, allowMutation, segments, CandidateSequences(d), litter, removed)
    ensures ok ==> SequencesOk(d) && MarkersOk(d) && SegmentsOk(d, maxBytes)
    ensures !ok && disk.failures == old(disk.failures) ==> !(SequencesOk(d) && MarkersOk(d) && SegmentsOk(d, maxBytes))
  {
    hide WellFormed, EntryOk, MarkersOk, SegmentsOk, SequencesOk, ValidSequence, CandidateSequences, Scanning, ScannedUpTo;
    removed, segments, litter := before, [], false;
    BeginScan(disk, d, before, maxBytes, allowMutation, past);
    var rest := CandidateSequences(disk.files);
    if exists n | n in rest :: !ValidSequence(n) {
      return false, segments, litter, removed;
    }
    ghost var done: set<nat>, floor := {}, 0;
    while rest != {}
      invariant Scanning(disk, d, removed, maxBytes, past) && before <= removed
      invariant !allowMutation ==> disk.files == old(disk.files) && disk.history == old(disk.history)
      invariant disk.failures >= old(disk.failures)
      invariant done + rest == CandidateSequences(d)
      invariant (forall n | n in done :: n < floor) && (forall n | n in rest :: floor <= n)
      invariant ScannedUpTo(d, maxBytes, allowMutation, segments, done, litter, removed)
    {
      ghost var least := Least(rest);
      var n :| n in rest && forall m | m in rest :: n <= m;
      rest := rest - {n};
      ok, segments, litter, removed := ScanNext(disk, n, maxBytes, allowMutation, segments, litter, d, done, removed, past);
      if !ok {
        EntriesDecide(d, maxBytes);
        return;
      }
      done, floor := done + {n}, n + 1;
    }
    EveryEntryOk(d, maxBytes, allowMutation, segments, done, litter, removed);
    ok := true;
  }

  lemma {:induction false} EveryEntryOk(d: Directory, maxBytes: nat, allowMutation: bool,
                     segments: seq<Segment>, done: set<nat>, litter: bool, removed: set<Name>)
    requires ScannedUpTo(d, maxBytes, allowMutation, segments, done, litter, removed) && done == CandidateSequences(d)
    ensures MarkersOk(d) && SegmentsOk(d, maxBytes)
  {
    forall n: nat
      ensures EntryOk(d, maxBytes, n)
    {
      if n !in done {
        UnlistedEntryOk(d, maxBytes, n);
      }
    }
    EntriesDecide(d, maxBytes);
  }

  /** Nothing was added or changed. */
  predicate OnlyRemoved(after: Directory, before: Directory) {
    forall name | name in after :: name in before && after[name] == before[name]
  }

  // ---- Pruning ------------------------------------------------------------------

  ghost predicate Prunable(d: Directory, maxBytes: nat, n: nat) {
    !Retained(d, maxBytes, n) && forall k: nat | Real(d, k) :: n <= k
  }

  /** Removes a segment, its marker first: an interruption in between leaves an
      unfinished raw segment, never an orphaned whole marker. */
  method PruneSegment(disk: Disk, n: nat, maxBytes: nat) returns (ok: bool)
    requires disk.Valid()
    modifies disk
    ensures disk.Valid() && old(disk.history) <= disk.history
    ensures Prunable(old(disk.files), maxBytes, n) ==> AllKeepText(disk.history, |old(disk.history)|, old(disk.files), maxBytes)
    ensures old(disk.AllWellFormed(maxBytes)) && Prunable(old(disk.files), maxBytes, n) ==> disk.AllWellFormed(maxBytes)
    ensures ok ==> disk.files == old(disk.files) - {FinalizedMarker(n), RawSegment(n)}
    ensures OnlyRemoved(disk.files, old(disk.files))
    ensures disk.failures >= old(disk.failures) && (!ok ==> disk.failures > old(disk.failures))
  {
    hide WellFormed, SameRetained, Prunable;
    ghost var d := disk.files;
    ghost var prunable := disk.AllWellFormed(maxBytes) && Prunable(d, maxBytes, n);
    ok := disk.Remove(FinalizedMarker(n));
    PruningIsNoText(d, n, maxBytes);
    if prunable {
      PruningKeeps(d, maxBytes, n);
    }
    if ok {
      ok := disk.Remove(RawSegment(n));
      assert ok ==> disk.files == d - {FinalizedMarker(n), RawSegment(n)};
    }
  }

  lemma {:induction false} PruningKeeps(d: Directory, maxBytes: nat, n: nat)
    requires WellFormed(d, maxBytes) && Prunable(d, maxBytes, n)
    ensures WellFormed(d - {FinalizedMarker(n)}, maxBytes) && WellFormed(d - {FinalizedMarker(n)} - {RawSegment(n)}, maxBytes)
  {
    var e := d - {FinalizedMarker(n)};
    RemoveMarkerKeeps(d, maxBytes, n);
    assert forall k: nat :: Real(e, k) <==> Real(d, k);
    RemoveRawKeeps(e, maxBytes, n);
  }

  lemma {:induction false} PruningIsNoText(d: Directory, n: nat, maxBytes: nat)
    ensures SameRetained(d - {FinalizedMarker(n)}, d, maxBytes)
    ensures Prunable(d, maxBytes, n) ==> SameRetained(d - {FinalizedMarker(n), RawSegment(n)}, d, maxBytes)
    ensures Prunable(d, maxBytes, n) ==> SameRetained(d - {FinalizedMarker(n)} - {RawSegment(n)}, d, maxBytes)
  {
    var e := d - {FinalizedMarker(n)};
    assert forall k: nat :: Real(e, k) <==> Real(d, k);
    SameBytesSameRetained(e, d, maxBytes);
    assert e - {RawSegment(n)} == d - {FinalizedMarker(n), RawSegment(n)};
    if Prunable(d, maxBytes, n) {
      OldestGoneSameRetained(e, maxBytes, n);
    }
  }

  lemma {:induction false} PruneTidy(d: Directory, segments: seq<Segment>, maxBytes: nat)
    requires Tidy(d, segments) && |segments| > RetainedSegmentLimit(maxBytes)
    ensures Prunable(d, maxBytes, segments[0].sequence)
    ensures Tidy(d - {FinalizedMarker(segments[0].sequence), RawSegment(segments[0].sequence)}, segments[1..])
  {
    var n, rest := segments[0].sequence, segments[1..];
    var e := d - {FinalizedMarker(n), RawSegment(n)};
    assert InRun(segments, n) && InRun(segments, n + RetainedSegmentLimit(maxBytes));
    assert forall k: nat | k != n :: (Real(e, k) <==> Real(d, k)) && (Finalized(e, k) <==> Finalized(d, k));
    assert rest[0] == segments[1];
    forall i | 0 <= i < |rest|
      ensures rest[i].sequence == rest[0].sequence + i && Describes(e, rest[i])
    {
      assert rest[i] == segments[i + 1] && Describes(d, segments[i + 1]);
    }
    assert forall k: nat :: InRun(rest, k) <==> InRun(segments, k) && k != n;
  }

  /** The last segments of a listed run are the retained ones. */
  lemma {:induction false} LastAreRetained(d: Directory, segments: seq<Segment>, maxBytes: nat, kept: seq<Segment>)
    requires Listed(d, segments)
    requires |kept| <= |segments| && kept == segments[|segments| - |kept|..]
    requires |kept| == if |segments| > RetainedSegmentLimit(maxBytes) then RetainedSegmentLimit(maxBytes) else |segments|
    ensures IsRun(kept) && forall i | 0 <= i < |kept| :: Describes(d, kept[i])
    ensures forall n: nat :: Retained(d, maxBytes, n) <==> InRun(kept, n)
  {
    assert forall i | 0 <= i < |kept| :: kept[i] == segments[|segments| - |kept| + i];
    forall n: nat
      ensures Retained(d, maxBytes, n) <==> InRun(kept, n)
    {
      assert Real(d, n) <==> InRun(segments, n);
      assert Real(d, n + RetainedSegmentLimit(maxBytes)) <==> InRun(segments, n + RetainedSegmentLimit(maxBytes));
    }
  }

  /** After collecting with leave to mutate, only segments and whole markers are left. */
  lemma {:induction false} CollectedIsTidy(d: Directory, maxBytes: nat, segments: seq<Segment>, litter: bool, removed: set<Name>)
    requires ScannedUpTo(d, maxBytes, true, segments, CandidateSequences(d), litter, removed)
    requires MarkersOk(d) && SegmentsOk(d, maxBytes) && AllLitter(d, removed) && Listed(d, segments)
    requires Completion in d && IsLitter(d, Completion) ==> Completion in removed
    ensures Tidy(d - removed, segments)
  {
    var e := d - removed;
    assert forall k: nat :: Real(e, k) <==> Real(d, k);
    assert forall k: nat :: Finalized(e, k) <==> Finalized(d, k);
    forall i | 0 <= i < |segments|
      ensures Describes(e, segments[i])
    {
      assert Describes(d, segments[i]);
    }
    forall name | name in e
      ensures !IsLitter(e, name)
    {
      if !name.Completion? {
        Candidates(d, name.sequence);
      }
    }
    forall name | name in e && name.FinalizedMarker?
      ensures RawSegment(name.sequence) in e
    {
      Candidates(d, name.sequence);
      assert !IsLitter(d, name);
      assert Finalized(d, name.sequence);
    }
  }

  function LastSegments(segments: seq<Segment>, maxBytes: nat): (r: seq<Segment>)
    ensures |r| <= |segments| && r == segments[|segments| - |r|..]
    ensures |r| == if |segments| > RetainedSegmentLimit(maxBytes) then RetainedSegmentLimit(maxBytes) else |segments|
  {
    if |segments| > RetainedSegmentLimit(maxBytes) then segments[|segments| - RetainedSegmentLimit(maxBytes)..] else segments
  }

  /** Drops the oldest segments beyond the limit, on disk too where the scan may. */
  method PruneToLimit(disk: Disk, maxBytes: nat, allowMutation: bool, segments: seq<Segment>)
    returns (ok: bool, kept: seq<Segment>)
    requires disk.Valid() && (allowMutation ==> Tidy(disk.files, segments))
    modifies disk
    ensures disk.Valid() && disk.failures >= old(disk.failures) && (!ok ==> disk.failures > old(disk.failures))
    ensures !allowMutation ==> ok && disk.files == old(disk.files) && disk.history == old(disk.history)
    ensures old(disk.AllWellFormed(maxBytes)) ==> disk.AllWellFormed(maxBytes)
    ensures ok ==> kept == LastSegments(segments, maxBytes)
    ensures ok && allowMutation ==> Tidy(disk.files, kept)
    ensures OnlyRemoved(disk.files, old(disk.files))
    ensures old(disk.history) <= disk.history && AllKeepText(disk.history, |old(disk.history)|, old(disk.files), maxBytes)
  {
    hide Tidy, Prunable, WellFormed, SameRetained, AllKeepText, OnlyRemoved, Disk.AllWellFormed;
    ok, kept := true, segments;
    ghost var d := disk.files;
    NothingKept(disk.history, d, maxBytes);
    OnlyRemovedTwice(d, d, d);
    while |kept| > RetainedSegmentLimit(maxBytes)
      invariant disk.Valid() && disk.failures >= old(disk.failures)
      invariant !allowMutation ==> disk.files == old(disk.files) && disk.history == old(disk.history)
      invariant old(disk.AllWellFormed(maxBytes)) ==> disk.AllWellFormed(maxBytes)
      invariant allowMutation ==> Tidy(disk.files, kept)
      invariant OnlyRemoved(disk.files, old(disk.files))
      invariant old(disk.history) <= disk.history && AllKeepText(disk.history, |old(disk.history)|, d, maxBytes)
      invariant SameRetained(disk.files, d, maxBytes)
      invariant |kept| <= |segments| && kept == segments[|segments| - |kept|..]
      invariant kept == segments || RetainedSegmentLimit(maxBytes) <= |kept|
    {
      if allowMutation {
        PruneTidy(disk.files, kept, maxBytes);
        ghost var e, before := disk.files, disk.history;
        ok := PruneSegment(disk, kept[0].sequence, maxBytes);
        KeepTextTwice(before, disk.history, |old(disk.history)|, d, e, maxBytes);
        OnlyRemovedTwice(disk.files, e, d);
        if ok {
          CurrentKept(disk, d, e, maxBytes, kept[0].sequence);
        }
        if !ok {
          return;
        }
      }
      kept := kept[1..];
    }
  }

  lemma {:induction false} OnlyRemovedTwice(after: Directory, middle: Directory, before: Directory)
    ensures OnlyRemoved(before, before)
    ensures OnlyRemoved(after, middle) && OnlyRemoved(middle, before) ==> OnlyRemoved(after, before)
  {
  }

  lemma {:induction false} NothingKept(history: seq<Directory>, d: Directory, maxBytes: nat)
    ensures AllKeepText(history, |history|, d, maxBytes) && SameRetained(d, d, maxBytes)
  {
  }

  lemma {:induction false} CurrentKept(disk: Disk, d: Directory, e: Directory, maxBytes: nat, n: nat)
    requires SameRetained(e, d, maxBytes) && Prunable(e, maxBytes, n)
    requires disk.files == e - {FinalizedMarker(n), RawSegment(n)}
    ensures SameRetained(disk.files, d, maxBytes)
  {
    PruningIsNoText(e, n, maxBytes);
  }

  /** What an accepted scan reports about the directory it found. */
  ghost predicate ScanReports(d: Directory, maxBytes: nat, scan: Scan)
    requires scan.Scanned?
  {
    && IsRun(scan.segments) && |scan.segments| <= RetainedSegmentLimit(maxBytes)
    && (forall i | 0 <= i < |scan.segments| :: Describes(d, scan.segments[i]))
    && (forall n: nat :: Retained(d, maxBytes, n) <==> InRun(scan.segments, n))
    && (scan.status == FinalizedCapture <==> Completion in d && d[Completion] == COMPLETION_MARKER)
    && (scan.status == EmptyCapture <==> d == map[])
  }

  lemma {:induction false} WellFormedIs(d: Directory, maxBytes: nat)
    ensures WellFormed(d, maxBytes) <==>
      SequencesOk(d) && MarkersOk(d) && SegmentsOk(d, maxBytes) && Consecutive(d) && CompletionOk(d, maxBytes)
  {
  }

  lemma {:induction false} CompletionCases(d: Directory, maxBytes: nat)
    ensures InspectMarker(d, Completion, COMPLETION_MARKER) == InvalidMarker ==> !WellFormed(d, maxBytes)
    ensures InspectMarker(d, Completion, COMPLETION_MARKER) == PartialMarker <==> Completion in d && IsLitter(d, Completion)
    ensures InspectMarker(d, Completion, COMPLETION_MARKER) == ValidMarker <==>
            Completion in d && d[Completion] == COMPLETION_MARKER
    ensures InspectMarker(d, Completion, COMPLETION_MARKER) == Absent <==> Completion !in d
  {
  }

  lemma {:induction false} CompletionDecides(d: Directory, maxBytes: nat, kept: seq<Segment>)
    requires forall i | 0 <= i < |kept| :: Describes(d, kept[i])
    requires IsRun(kept) && forall n: nat :: Retained(d, maxBytes, n) <==> InRun(kept, n)
    requires InspectMarker(d, Completion, COMPLETION_MARKER) != InvalidMarker
    ensures CompletionOk(d, maxBytes) <==>
      !(InspectMarker(d, Completion, COMPLETION_MARKER) == ValidMarker && exists i | 0 <= i < |kept| :: !kept[i].finalized)
  {
    forall i | 0 <= i < |kept|
      ensures InRun(kept, kept[i].sequence)
    {
    }
    forall n: nat | Retained(d, maxBytes, n)
      ensures kept[n - kept[0].sequence].sequence == n
    {
    }
  }

  lemma {:induction false} CollectedRun(d: Directory, maxBytes: nat, allowMutation: bool, segments: seq<Segment>,
        litter: bool, removed: set<Name>)
    requires ScannedUpTo(d, maxBytes, allowMutation, segments, CandidateSequences(d), litter, removed)
    ensures Collected(d, segments, CandidateSequences(d))
    ensures litter <==> LitterAmong(d, CandidateSequences(d))
    ensures IsRun(segments) <==> Consecutive(d)
    ensures IsRun(segments) ==> Listed(d, segments)
  {
    RunIffConsecutive(d, segments);
  }

  lemma {:induction false} AdjacentIsRun(segments: seq<Segment>)
    ensures IsRun(segments) <==> forall i | 1 <= i < |segments| :: segments[i].sequence == segments[i - 1].sequence + 1
  {
    if forall i | 1 <= i < |segments| :: segments[i].sequence == segments[i - 1].sequence + 1 {
      forall i | 0 <= i < |segments|
        ensures segments[i].sequence == segments[0].sequence + i
      {
        AdjacentUpTo(segments, i);
      }
    }
  }

  lemma {:induction false} AdjacentUpTo(segments: seq<Segment>, i: nat)
    requires i < |segments|
    requires forall k | 1 <= k < |segments| :: segments[k].sequence == segments[k - 1].sequence + 1
    ensures segments[i].sequence == segments[0].sequence + i
  {
    if i > 0 {
      AdjacentUpTo(segments, i - 1);
    }
  }

  lemma {:induction false} NoEntry(d: Directory, maxBytes: nat, n: nat)
    requires WellFormed(d, maxBytes) && !Real(d, n) && !LitterAmong(d, CandidateSequences(d))
    ensures RawSegment(n) !in d && FinalizedMarker(n) !in d
  {
    Candidates(d, n);
    LitterStep(d, CandidateSequences(d), n);
    assert n in CandidateSequences(d) ==> CandidateSequences(d) + {n} == CandidateSequences(d);
  }

  /** A well-formed directory without segments or litter is empty. */
  lemma {:induction false} NothingLeft(d: Directory, maxBytes: nat)
    requires WellFormed(d, maxBytes) && Listed(d, [])
    requires !LitterAmong(d, CandidateSequences(d)) && Completion !in d
    ensures d == map[]
  {
    forall name: Name
      ensures name !in d
    {
      if !name.Completion? {
        NoEntry(d, maxBytes, name.sequence);
      }
    }
  }

  lemma {:induction false} EmptyHasNothing(segments: seq<Segment>)
    requires Listed(map[], segments)
    ensures segments == [] && !LitterAmong(map[], CandidateSequences(map[]))
  {
    assert segments != [] ==> Describes(map[], segments[0]);
  }

  lemma {:induction false} Reports(d: Directory, maxBytes: nat, segments: seq<Segment>, scan: Scan, litter: bool)
    requires WellFormed(d, maxBytes) && Listed(d, segments) && scan.Scanned?
    requires scan.segments == LastSegments(segments, maxBytes)
    requires litter <==> LitterAmong(d, CandidateSequences(d))
    requires scan.status ==
      if InspectMarker(d, Completion, COMPLETION_MARKER) == ValidMarker then FinalizedCapture
      else if scan.segments != [] || litter || InspectMarker(d, Completion, COMPLETION_MARKER) == PartialMarker
      then IncompleteCapture else EmptyCapture
    ensures ScanReports(d, maxBytes, scan)
  {
    hide WellFormed, Listed, LitterAmong, CandidateSequences, IsLitter, InspectMarker, IsRun, InRun, Describes, Retained, Real;
    CompletionCases(d, maxBytes);
    LastAreRetained(d, segments, maxBytes, scan.segments);
    if scan.status == EmptyCapture {
      NothingLeft(d, maxBytes);
    }
    if d == map[] {
      EmptyHasNothing(segments);
    }
  }

  lemma {:induction false} NoLitterRemoved(d: Directory)
    ensures d == d - {} && AllLitter(d, {})
  {
  }

  /** Prunes the collected run to the retained suffix and reports it. */
  method ReportSuffix(disk: Disk, maxBytes: nat, allowMutation: bool, ghost d: Directory,
                      segments: seq<Segment>, litter: bool, completion: MarkerState) returns (scan: Scan)
    requires disk.Valid() && (WellFormed(d, maxBytes) ==> disk.AllWellFormed(maxBytes))
    requires Listed(d, segments) && (allowMutation ==> Tidy(disk.files, segments))
    requires SequencesOk(d) && MarkersOk(d) && SegmentsOk(d, maxBytes) && Consecutive(d)
    requires litter <==> LitterAmong(d, CandidateSequences(d))
    requires completion == InspectMarker(d, Completion, COMPLETION_MARKER) && completion != InvalidMarker
    modifies disk
    ensures disk.Valid() && disk.failures >= old(disk.failures)
    ensures !allowMutation ==> disk.files == old(disk.files) && disk.history == old(disk.history)
    ensures WellFormed(d, maxBytes) ==> disk.AllWellFormed(maxBytes)
    ensures scan.Scanned? ==> WellFormed(d, maxBytes) && ScanReports(d, maxBytes, scan)
    ensures WellFormed(d, maxBytes) && disk.failures == old(disk.failures) ==> scan.Scanned?
    ensures scan.Scanned? && allowMutation ==> Tidy(disk.files, scan.segments)
    ensures OnlyRemoved(disk.files, old(disk.files))
    ensures old(disk.history) <= disk.history && AllKeepText(disk.history, |old(disk.history)|, old(disk.files), maxBytes)
  {
    hide AllKeepText, SameRetained, WellFormed, MarkersOk, SegmentsOk, SequencesOk, Consecutive, CompletionOk, CandidateSequences,
         IsLitter, IsRun, Listed, Tidy, ScanReports, LitterAmong, Disk.AllWellFormed;
    var ok, kept := PruneToLimit(disk, maxBytes, allowMutation, segments);
    if !ok {
      return ScanError;
    }
    WellFormedIs(d, maxBytes);
    CompletionCases(d, maxBytes);
    LastAreRetained(d, segments, maxBytes, kept);
    CompletionDecides(d, maxBytes, kept);
    if completion == ValidMarker && exists i | 0 <= i < |kept| :: !kept[i].finalized {
      return ScanError;
    }
    scan := Scanned(
      if completion == ValidMarker then FinalizedCapture
      else if kept != [] || litter || completion == PartialMarker then IncompleteCapture
      else EmptyCapture,
      kept);
    Reports(d, maxBytes, segments, scan, litter);
  }

  lemma {:induction false} SegmentSizes(d: Directory, maxBytes: nat)
    ensures 1 < maxBytes && WellFormed(d, maxBytes) ==> forall n: nat | RawSegment(n) in d ::
      |d[RawSegment(n)]| <= (if n % 2 == 1 then maxBytes / 2 else maxBytes - maxBytes / 2)
  {
    if 1 < maxBytes {
      SegmentSizesDecide(d, maxBytes);
    }
  }

  /** The recovery scan. It accepts exactly the well-formed directories; it can
      fail on one only because a disk step did. */
  method ScanCapture(disk: Disk, maxBytes: nat, allowMutation: bool) returns (scan: Scan)
    requires disk.Valid() && (WellFormed(disk.files, maxBytes) ==> disk.AllWellFormed(maxBytes))
    modifies disk
    ensures disk.Valid() && disk.failures >= old(disk.failures)
    ensures !allowMutation ==> disk.files == old(disk.files) && disk.history == old(disk.history)
    ensures WellFormed(old(disk.files), maxBytes) ==> disk.AllWellFormed(maxBytes)
    ensures scan.Scanned? ==> WellFormed(old(disk.files), maxBytes)
    ensures scan.Scanned? && 1 < maxBytes ==> forall n: nat | RawSegment(n) in old(disk.files) ::
      |old(disk.files)[RawSegment(n)]| <= (if n % 2 == 1 then maxBytes / 2 else maxBytes - maxBytes / 2)
    ensures WellFormed(old(disk.files), maxBytes) && disk.failures == old(disk.failures) ==> scan.Scanned?
    ensures scan.Scanned? ==> ScanReports(old(disk.files), maxBytes, scan)
    ensures scan.Scanned? && allowMutation ==> Tidy(disk.files, scan.segments)
    ensures OnlyRemoved(disk.files, old(disk.files))
    ensures old(disk.history) <= disk.history && AllKeepText(disk.history, |old(disk.history)|, old(disk.files), maxBytes)
  {
    hide AllKeepText, SameRetained, WellFormed, MarkersOk, SegmentsOk, SequencesOk, Consecutive, CompletionOk, CandidateSequences,
         ScannedUpTo,
         AllLitter, IsLitter, Collected, IsRun, Listed, Tidy, ScanReports, LitterAmong, Disk.AllWellFormed;
    ghost var d, past := disk.files, disk.history;
    NothingKept(past, d, maxBytes);
    SegmentSizes(d, maxBytes);
    var completion := InspectMarker(disk.files, Completion, COMPLETION_MARKER);
    ghost var removed: set<Name> := {};
    assert d == d - removed && AllLitter(d, removed) by {
      NoLitterRemoved(d);
    }
    CompletionCases(d, maxBytes);
    if completion == InvalidMarker {
      return ScanError;
    }
    var ok := true;
    if completion == PartialMarker {
      ok, removed := ClearLitter(disk, Completion, allowMutation, maxBytes, d, removed, past);
      if !ok {
        return ScanError;
      }
    }
    var segments, litter;
    ok, segments, litter, removed := CollectSegments(disk, maxBytes, allowMutation, d, removed, past);
    WellFormedIs(d, maxBytes);
    if !ok {
      return ScanError;
    }
    CollectedRun(d, maxBytes, allowMutation, segments, litter, removed);
    AdjacentIsRun(segments);
    if exists i | 1 <= i < |segments| :: segments[i].sequence != segments[i - 1].sequence + 1 {
      return ScanError;
    }
    if allowMutation {
      CollectedIsTidy(d, maxBytes, segments, litter, removed);
    }
    ghost var e, before := disk.files, disk.history;
    LitterIsNoText(d, removed, maxBytes);
    scan := ReportSuffix(disk, maxBytes, allowMutation, d, segments, litter, completion);
    KeepTextTwice(before, disk.history, |past|, d, e, maxBytes);
  }
}
