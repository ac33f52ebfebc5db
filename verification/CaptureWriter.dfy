/** The capture writer: a suffix log of at most two segments, crash-tolerant at
    every disk step. */
module CaptureWriter {
  import opened CaptureDisk
  import opened CaptureText
  import opened CaptureScan
  import opened CaptureSegments

  /** Publishes a marker unless it is there already; a cut-short one goes first. */
  method PublishMarker(disk: Disk, name: Name, marker: Bytes, maxBytes: nat) returns (ok: bool)
    requires disk.AllWellFormed(maxBytes) && !name.RawSegment?
    requires WellFormed(disk.files[name := marker], maxBytes)
    requires name in disk.files && disk.files[name] < marker ==> WellFormed(disk.files - {name}, maxBytes)
    modifies disk
    ensures disk.AllWellFormed(maxBytes) && disk.failures >= old(disk.failures)
    ensures old(disk.history) <= disk.history && AllKeepText(disk.history, |old(disk.history)|, old(disk.files), maxBytes)
    ensures ok ==> disk.files == old(disk.files)[name := marker]
    ensures !ok ==> disk.failures > old(disk.failures) || InspectMarker(old(disk.files), name, marker) == InvalidMarker
  {
    hide WellFormed, SameRetained;
    ghost var d := disk.files;
    MarkerIsNoText(d, name, marker, maxBytes);
    var current := InspectMarker(disk.files, name, marker);
    if current == ValidMarker {
      assert disk.files == d[name := marker];
      return true;
    }
    if current == InvalidMarker {
      return false;
    }
    if current == PartialMarker {
      ok := disk.Remove(name);
      if !ok {
        return;
      }
    }
    assert disk.files[name := marker] == d[name := marker];
    ok := disk.Publish(name, marker);
    if ok {
      ok := InspectMarker(disk.files, name, marker) == ValidMarker;
    }
  }

  /** Creates a segment and writes its bytes. */
  method CreateAndWrite(disk: Disk, n: nat, bytes: Bytes, maxBytes: nat) returns (ok: bool)
    requires disk.AllWellFormed(maxBytes) && Completion !in disk.files && ValidSequence(n)
    requires RawSegment(n) !in disk.files && FinalizedMarker(n) !in disk.files && AtEnd(disk.files, n)
    requires |bytes| <= SegmentCapacity(maxBytes, n)
    modifies disk
    ensures disk.AllWellFormed(maxBytes) && disk.failures >= old(disk.failures)
    ensures old(disk.history) <= disk.history
    ensures AllWritten(disk.history, |old(disk.history)|, old(disk.files), n, bytes)
    ensures ok ==> EachWritten(disk.history, |old(disk.history)|, old(disk.files), n, bytes)
    ensures ok ==> disk.files == old(disk.files)[RawSegment(n) := bytes]
    ensures !ok ==> disk.failures > old(disk.failures)
  {
    hide WellFormed, AtEnd, SegmentCapacity, AllWritten, EachWritten, AllAccepted;
    ghost var d, past := disk.files, disk.history;
    NothingWritten(past, d, n, bytes);
    ok := disk.Create(RawSegment(n));
    if !ok {
      return;
    }
    ok := disk.Append(RawSegment(n), bytes);
    CreatedThenWritten(past, disk.history, d, n, bytes);
    WrittenKeeps(past, disk.history, d, maxBytes, n, bytes);
    if ok {
      EachThenWritten(past, disk.history, d, n, bytes);
      assert [] + bytes == bytes;
    }
  }

  class Writer {
    const maxBytes: nat
    const disk: Disk

    var segments: seq<Segment>
    /** Whether the last segment's file is open for appending. */
    var currentOpen: bool
    var nextSequence: nat
    var initialized: bool
    var finalized: bool
    var completionInvalidated: bool
    var poisoned: bool

    /** What each listed segment holds. */
    ghost var contents: seq<Bytes>
    /** The text that was retained when the writer was initialized. */
    ghost var start: Bytes
    /** Every byte accepted since. */
    ghost var appended: Bytes
    /** How many of the listed segments were there when it was initialized. */
    ghost var older: nat
    /** Whether the writer was given a directory that a recovery scan accepts. */
    ghost const sound: bool

    /** The writer knows exactly what the directory holds. */
    ghost predicate Running()
      reads this, disk
    {
      && 0 < maxBytes <= MAX_CAPTURE_BYTES
      && disk.AllWellFormed(maxBytes)
      && Tidy(disk.files, segments) && Holds(disk.files, segments, contents)
      && Follows(segments, nextSequence) && ValidSequence(nextSequence)
      && (currentOpen ==> segments != [] && !segments[|segments| - 1].finalized)
    }

    /** The retained text, between two disk operations of an append. */
    ghost predicate Keeping(text: Bytes)
      reads this
    {
      Keeps(start, segments, contents, maxBytes, currentOpen, text, older)
    }

    /** What holds between two calls of a writer that has not failed. */
    ghost predicate Settled()
      reads this, disk
    {
      && Running()
      && |segments| <= RetainedSegmentLimit(maxBytes)
      && (completionInvalidated && !finalized ==> Completion !in disk.files)
      && (currentOpen ==> completionInvalidated && !finalized)
      && (if finalized then IsSuffix(Joined(contents), start + appended) else Keeping(appended))
    }

    /** A directory that was acceptable is so after every step, whatever failed. */
    ghost predicate Valid()
      reads this, disk
    {
      && disk.Valid()
      && (sound ==> disk.AllWellFormed(maxBytes))
      && (!initialized && !poisoned ==>
            && (WellFormed(disk.files, maxBytes) ==> sound)
            && segments == [] && contents == [] && !currentOpen && !completionInvalidated
            && nextSequence == 1 && start == [] && appended == [])
      && (finalized ==> initialized && !poisoned)
      && (initialized && !poisoned ==> sound && Settled())
    }

    constructor (maxBytes: nat, disk: Disk)
      requires disk.Valid() && disk.history == [disk.files]
      ensures Valid() && this.disk == disk && this.maxBytes == maxBytes
      ensures !initialized && !poisoned && !finalized && (sound <==> WellFormed(disk.files, maxBytes))
    {
      this.maxBytes, this.disk := maxBytes, disk;
      segments, currentOpen, nextSequence := [], false, 1;
      initialized, finalized, completionInvalidated, poisoned := false, false, false, false;
      contents, start, appended, older := [], [], [], 0;
      sound := WellFormed(disk.files, maxBytes);
    }

    /** Creates the next segment with its first bytes. */
    method OpenAndWriteNewSegment(bytes: Bytes) returns (ok: bool)
      requires Running() && Completion !in disk.files
      requires bytes != [] && |bytes| <= SegmentCapacity(maxBytes, nextSequence)
      modifies this`segments, this`contents, this`currentOpen, this`nextSequence, disk
      ensures disk.AllWellFormed(maxBytes) && disk.failures >= old(disk.failures)
      ensures old(disk.history) <= disk.history
      ensures AllWritten(disk.history, |old(disk.history)|, old(disk.files), old(nextSequence), bytes)
      ensures ok ==> EachWritten(disk.history, |old(disk.history)|, old(disk.files), old(nextSequence), bytes)
      ensures ok ==> Running() && Completion !in disk.files && currentOpen
      ensures ok ==> segments == old(segments) + [Segment(old(nextSequence), |bytes|, false)]
      ensures ok ==> contents == old(contents) + [bytes] && nextSequence == old(nextSequence) + 1
      ensures !ok ==> disk.failures > old(disk.failures) || nextSequence == MAX_SEQUENCE
    {
      hide WellFormed, Tidy, Describes, Real, Holds, AtEnd, SegmentCapacity, AllWritten, EachWritten, WithBytes,
            Disk.AllWellFormed;
      NothingWritten(disk.history, disk.files, nextSequence, bytes);
      if nextSequence == MAX_SEQUENCE {
        return false;
      }
      var n := nextSequence;
      ghost var d := disk.files;
      NothingAtNext(d, segments, n);
      ok := CreateAndWrite(disk, n, bytes, maxBytes);
      if !ok {
        return;
      }
      TidyWithNew(d, segments, n, bytes);
      HoldsWithNew(d, segments, contents, n, bytes);
      segments := segments + [Segment(n, |bytes|, false)];
      contents := contents + [bytes];
      currentOpen := true;
      nextSequence := nextSequence + 1;
    }

    /** Appends to the open segment what it has room for. */
    method WriteCurrent(bytes: Bytes) returns (ok: bool)
      requires Running() && Completion !in disk.files && currentOpen
      requires bytes != []
      requires var s := segments[|segments| - 1]; s.byteCount + |bytes| <= SegmentCapacity(maxBytes, s.sequence)
      modifies this`segments, this`contents, disk
      ensures disk.AllWellFormed(maxBytes) && disk.failures >= old(disk.failures)
      ensures ok ==> Running() && Completion !in disk.files
      ensures old(disk.history) <= disk.history
      ensures AllWritten(disk.history, |old(disk.history)|, old(disk.files), old(segments[|segments| - 1].sequence), bytes)
      ensures |old(contents)| == |old(segments)|
      ensures ok ==> segments == Grown(old(segments), |bytes|)
      ensures ok ==> contents == old(contents)[|old(segments)| - 1 := old(contents)[|old(segments)| - 1] + bytes]
      ensures !ok ==> disk.failures > old(disk.failures)
    {
      hide WellFormed, Tidy, Describes, Real, AtEnd, SegmentCapacity, AllWritten, AllAccepted;
      var last := |segments| - 1;
      var n := segments[last].sequence;
      ghost var d, before := disk.files, disk.history;
      LastOfRun(d, segments, maxBytes);
      assert d[RawSegment(n)] == contents[last];
      RealIsRaw(d, n);
      ok := disk.Append(RawSegment(n), bytes);
      OnlyWritten(before, disk.history, d, n, bytes);
      WrittenKeeps(before, disk.history, d, maxBytes, n, bytes);
      if !ok {
        return;
      }
      TidyWithMore(d, segments, contents[last] + bytes);
      HoldsWithMore(d, segments, contents, bytes);
      contents := contents[last := contents[last] + bytes];
      segments := segments[last := segments[last].(byteCount := segments[last].byteCount + |bytes|)];
    }

    /** Closes the open segment and publishes its marker. */
    method FinalizeCurrentSegment() returns (ok: bool)
      requires Running() && currentOpen
      modifies this`segments, this`currentOpen, disk
      ensures disk.AllWellFormed(maxBytes) && disk.failures >= old(disk.failures)
      ensures old(disk.history) <= disk.history && AllKeepText(disk.history, |old(disk.history)|, old(disk.files), maxBytes)
      ensures ok ==> Running() && !currentOpen && (Completion in disk.files <==> Completion in old(disk.files))
      ensures ok ==> segments == Closed(old(segments))
      ensures !ok ==> disk.failures > old(disk.failures)
    {
      hide WellFormed, Describes, Real, Holds, Tidy, SameRetained, AllKeepText;
      var last := |segments| - 1;
      var n := segments[last].sequence;
      ghost var d := disk.files;
      NothingKept(disk.history, d, maxBytes);
      ok := disk.Flush();
      if !ok {
        return;
      }
      LastOfRun(d, segments, maxBytes);
      PublishMarkerKeeps(d, maxBytes, n);
      MarkerNotCut(d, segments, n, maxBytes);
      ok := PublishMarker(disk, FinalizedMarker(n), FINALIZED_MARKER, maxBytes);
      if !ok {
        return;
      }
      TidyWithMarker(d, segments);
      HoldsElsewhere(d, segments, contents, disk.files);
      HoldsForSequences(disk.files, segments, segments[last := segments[last].(finalized := true)], contents);
      segments := segments[last := segments[last].(finalized := true)];
      currentOpen := false;
    }

    /** Removes the oldest segment. */
    method PruneOldest() returns (ok: bool)
      requires Running() && |segments| > RetainedSegmentLimit(maxBytes)
      modifies this`segments, this`contents, disk
      ensures disk.AllWellFormed(maxBytes) && disk.failures >= old(disk.failures)
      ensures old(disk.history) <= disk.history && AllKeepText(disk.history, |old(disk.history)|, old(disk.files), maxBytes)
      ensures ok ==> SameRetained(disk.files, old(disk.files), maxBytes)
      ensures |old(contents)| == |old(segments)|
      ensures ok ==> Running() && segments == old(segments)[1..] && contents == old(contents)[1..]
      ensures ok ==> (Completion in disk.files <==> Completion in old(disk.files))
      ensures !ok ==> disk.failures > old(disk.failures)
    {
      hide WellFormed, Tidy, Prunable, Holds, Follows, SameRetained, AllKeepText;
      ghost var d, past := disk.files, disk.history;
      HoldsLength(d, segments, contents);
      PruneTidy(d, segments, maxBytes);
      HoldsAfterPrune(d, segments, contents);
      FollowsAfterPrune(d, segments, nextSequence);
      NothingKept(disk.history, d, maxBytes);
      ok := PruneSegment(disk, segments[0].sequence, maxBytes);
      if ok {
        CurrentKept(disk, d, d, maxBytes, segments[0].sequence);
        segments := segments[1..];
        contents := contents[1..];
      }
    }

    /** Removes the oldest segments beyond the limit. */
    method PruneRetainedSegments() returns (ok: bool)
      requires Running()
      modifies this`segments, this`contents, disk
      ensures disk.AllWellFormed(maxBytes) && disk.failures >= old(disk.failures)
      ensures old(disk.history) <= disk.history && AllKeepText(disk.history, |old(disk.history)|, old(disk.files), maxBytes)
      ensures |old(contents)| == |old(segments)|
      ensures ok ==> Running() && segments == LastSegments(old(segments), maxBytes)
      ensures ok ==> contents == old(contents)[|old(segments)| - |segments|..]
      ensures ok ==> (Completion in disk.files <==> Completion in old(disk.files))
      ensures !ok ==> disk.failures > old(disk.failures)
    {
      hide WellFormed, Tidy, Holds, Follows, SameRetained, AllKeepText;
      ok := true;
      ghost var d := disk.files;
      NothingKept(disk.history, d, maxBytes);
      HoldsLength(disk.files, segments, contents);
      ghost var wasSegments, wasContents := segments, contents;
      ghost var dropped := 0;
      while |segments| > RetainedSegmentLimit(maxBytes)
        invariant Running() && disk.failures >= old(disk.failures)
        invariant Completion in disk.files <==> Completion in old(disk.files)
        invariant old(disk.history) <= disk.history && AllKeepText(disk.history, |old(disk.history)|, d, maxBytes)
        invariant SameRetained(disk.files, d, maxBytes)
        invariant dropped <= |wasSegments| && segments == wasSegments[dropped..] && contents == wasContents[dropped..]
        invariant dropped > 0 ==> |segments| >= RetainedSegmentLimit(maxBytes)
      {
        ghost var e, before := disk.files, disk.history;
        ok := PruneOldest();
        KeepTextTwice(before, disk.history, |old(disk.history)|, d, e, maxBytes);
        SameRetainedTwice(disk.files, e, d, maxBytes);
        if !ok {
          return;
        }
        dropped := dropped + 1;
      }
    }

    /** An append's next bytes, when no segment is open for them. */
    method AppendToNew(rest: Bytes, ghost text: Bytes, ghost whole: Bytes) returns (ok: bool, size: nat)
      requires Running() && Completion !in disk.files && !currentOpen && rest != []
      requires Keeping(text) && IsSuffix(Joined(contents), whole)
      modifies this`segments, this`contents, this`currentOpen, this`nextSequence, this`older, disk
      ensures disk.AllWellFormed(maxBytes) && disk.failures >= old(disk.failures)
      ensures old(disk.history) <= disk.history
      ensures AllSurvive(disk.history, |old(disk.history)|, maxBytes, whole, rest)
      ensures ok ==> Running() && Completion !in disk.files && |segments| <= RetainedSegmentLimit(maxBytes)
      ensures 0 < size <= |rest| && (ok ==> Keeping(text + rest[..size]))
      ensures ok ==> IsSuffix(Joined(contents), whole + rest[..size])
      ensures !ok ==> disk.failures > old(disk.failures) || nextSequence == MAX_SEQUENCE
    {
      hide WellFormed, Tidy, Holds, Follows, Keeps, Disk.AllWellFormed, SegmentCapacity, LastSegments,
            RetainedSegmentLimit, StillOlder,
           Joined, IsSuffix, AllSurvive, AllKeepText, AllWritten, EachWritten;
      ghost var d, past := disk.files, disk.history;
      CapacityPositive(maxBytes, nextSequence);
      size := if |rest| < SegmentCapacity(maxBytes, nextSequence) then |rest| else SegmentCapacity(maxBytes, nextSequence);
      var piece := rest[..size];
      ghost var s, c := segments, contents;
      ghost var added := Segment(nextSequence, size, false);
      ok := OpenAndWriteNewSegment(piece);
      NewSegmentSurvives(disk.history, |past|, d, s, c, maxBytes, added.sequence, whole, rest, size);
      if !ok {
        return;
      }
      KeepsOpened(start, s, c, maxBytes, text, older, added, piece);
      ghost var s', c' := segments, contents;
      ghost var e, before := disk.files, disk.history;
      HoldsLength(e, s', c');
      EachIsNew(before, |past|, d, added.sequence, piece);
      ok := PruneRetainedSegments();
      SurvivesThenKept(before, disk.history, |past|, e, maxBytes, whole, rest);
      if !ok {
        return;
      }
      KeepsPruned(start, s', c', maxBytes, true, text + piece, older);
      EndsAfterPrune(c, whole, piece, |s'| - |segments|);
      older := StillOlder(older, |s'| - |segments|);
    }

    /** An append's next bytes, when the open segment has room. */
    method AppendToCurrent(rest: Bytes, ghost text: Bytes, ghost whole: Bytes) returns (ok: bool, size: nat)
      requires Running() && Completion !in disk.files && currentOpen && rest != []
      requires var s := segments[|segments| - 1]; s.byteCount < SegmentCapacity(maxBytes, s.sequence)
      requires Keeping(text) && IsSuffix(Joined(contents), whole)
      modifies this`segments, this`contents, disk
      ensures disk.AllWellFormed(maxBytes) && disk.failures >= old(disk.failures)
      ensures old(disk.history) <= disk.history
      ensures AllSurvive(disk.history, |old(disk.history)|, maxBytes, whole, rest)
      ensures ok ==> Running() && Completion !in disk.files && |segments| == |old(segments)|
      ensures 0 < size <= |rest| && (ok ==> Keeping(text + rest[..size]))
      ensures ok ==> IsSuffix(Joined(contents), whole + rest[..size])
      ensures !ok ==> disk.failures > old(disk.failures)
    {
      hide WellFormed, Tidy, Holds, Follows, Keeps, Disk.AllWellFormed, Joined, IsSuffix, AllSurvive, AllWritten;
      ghost var d, past := disk.files, disk.history;
      var current := segments[|segments| - 1];
      var room := SegmentCapacity(maxBytes, current.sequence) - current.byteCount;
      size := if |rest| < room then |rest| else room;
      var piece := rest[..size];
      ghost var s, c := segments, contents;
      HoldsLength(d, s, c);
      ok := WriteCurrent(piece);
      MoreSurvives(disk.history, |past|, d, s, c, maxBytes, whole, rest, size);
      if ok {
        KeepsGrown(start, s, c, maxBytes, text, older, segments[|segments| - 1], piece);
        JoinedGrow(c, piece);
        SuffixOfExtended(Joined(c), whole, piece);
      }
    }

    /** Finalizes a full segment in the middle of an append. */
    method FinalizeFull(ghost text: Bytes, ghost whole: Bytes, ghost rest: Bytes) returns (ok: bool)
      requires Running() && Completion !in disk.files && currentOpen
      requires Keeping(text) && IsSuffix(Joined(contents), whole)
      requires Full(segments[|segments| - 1], maxBytes)
      modifies this`segments, this`currentOpen, disk
      ensures disk.AllWellFormed(maxBytes) && disk.failures >= old(disk.failures)
      ensures old(disk.history) <= disk.history
      ensures AllSurvive(disk.history, |old(disk.history)|, maxBytes, whole, rest)
      ensures ok ==> Running() && Completion !in disk.files && |segments| == |old(segments)| && !currentOpen
      ensures ok ==> Keeping(text)
      ensures !ok ==> disk.failures > old(disk.failures)
    {
      hide WellFormed, Tidy, Holds, Follows, Keeps, Joined, IsSuffix, Survives, AllSurvive, AllKeepText;
      ghost var d, past := disk.files, disk.history;
      KeepsClosed(start, segments, contents, maxBytes, text, older);
      RunningSurvives(d, segments, contents, maxBytes, whole, rest);
      ok := FinalizeCurrentSegment();
      KeptTextSurvives(disk.history, |past|, d, maxBytes, whole, rest);
    }

    /** The append loop for bytes that do not replace everything retained. */
    method AppendPieces(bytes: Bytes, ghost whole: Bytes) returns (ok: bool)
      requires Running() && Completion !in disk.files && |segments| <= RetainedSegmentLimit(maxBytes)
      requires Keeping(appended) && IsSuffix(Joined(contents), whole)
      modifies this`segments, this`contents, this`currentOpen, this`nextSequence, this`older, disk
      ensures disk.AllWellFormed(maxBytes) && disk.failures >= old(disk.failures)
      ensures old(disk.history) <= disk.history
      ensures AllSurvive(disk.history, |old(disk.history)|, maxBytes, whole, bytes)
      ensures ok ==> Running() && Completion !in disk.files && |segments| <= RetainedSegmentLimit(maxBytes)
      ensures ok ==> Keeping(appended + bytes) && IsSuffix(Joined(contents), whole + bytes)
      ensures !ok ==> disk.failures > old(disk.failures) || nextSequence == MAX_SEQUENCE
    {
      hide WellFormed, Tidy, Holds, Follows, Keeps, Joined, IsSuffix, Disk.AllWellFormed, SegmentCapacity, AllSurvive;
      NothingNewSurvives(disk.history, maxBytes, whole, bytes);
      ok := true;
      var offset := 0;
      assert appended + bytes[..0] == appended && whole + bytes[..0] == whole;
      while offset < |bytes|
        invariant offset <= |bytes| && disk.failures >= old(disk.failures)
        invariant Running() && Completion !in disk.files && |segments| <= RetainedSegmentLimit(maxBytes)
        invariant Keeping(appended + bytes[..offset]) && IsSuffix(Joined(contents), whole + bytes[..offset])
        invariant old(disk.history) <= disk.history
        invariant AllSurvive(disk.history, |old(disk.history)|, maxBytes, whole, bytes)
        decreases |bytes| - offset, currentOpen
      {
        ghost var text := appended + bytes[..offset];
        ghost var before := disk.history;
        if !currentOpen {
          var size;
          ok, size := AppendToNew(bytes[offset..], text, whole + bytes[..offset]);
          PieceSurvives(before, disk.history, |old(disk.history)|, maxBytes, whole, bytes, offset);
          if !ok {
            return;
          }
          TextGrows(appended, bytes, offset, size);
          TextGrows(whole, bytes, offset, size);
          offset := offset + size;
        } else {
          var current := segments[|segments| - 1];
          LastOfRun(disk.files, segments, maxBytes);
          if current.byteCount == SegmentCapacity(maxBytes, current.sequence) {
            ok := FinalizeFull(text, whole + bytes[..offset], bytes[offset..]);
            PieceSurvives(before, disk.history, |old(disk.history)|, maxBytes, whole, bytes, offset);
            if !ok {
              return;
            }
          } else {
            var size;
            ok, size := AppendToCurrent(bytes[offset..], text, whole + bytes[..offset]);
            PieceSurvives(before, disk.history, |old(disk.history)|, maxBytes, whole, bytes, offset);
            if !ok {
              return;
            }
            TextGrows(appended, bytes, offset, size);
            TextGrows(whole, bytes, offset, size);
            offset := offset + size;
          }
        }
      }
      assert bytes[..offset] == bytes;
    }

    /** Writes `suffix` to new segments, each but the last finalized. */
    method WriteSuffix(suffix: Bytes) returns (ok: bool, ghost newSegments: seq<Segment>, ghost newContents: seq<Bytes>)
      requires Running() && Completion !in disk.files && |segments| <= RetainedSegmentLimit(maxBytes)
      requires |suffix| == maxBytes && !currentOpen
      modifies this`segments, this`contents, this`currentOpen, this`nextSequence, disk
      ensures disk.AllWellFormed(maxBytes) && disk.failures >= old(disk.failures) && old(disk.history) <= disk.history
      ensures AllReplaced(disk.history, |old(disk.history)|, old(contents), maxBytes, old(nextSequence), suffix)
      ensures ok ==> ReplacedSoFar(disk.history, |old(disk.history)|, old(contents), maxBytes, old(nextSequence), suffix, maxBytes)
      ensures ok ==> Running() && Completion !in disk.files && currentOpen
      ensures ok ==> segments == old(segments) + newSegments && contents == old(contents) + newContents
      ensures ok ==> NewRun(newSegments, newContents, maxBytes, old(nextSequence), suffix, maxBytes)
      ensures ok ==> nextSequence == old(nextSequence) + |newSegments|
      ensures !ok ==> disk.failures > old(disk.failures) || nextSequence == MAX_SEQUENCE
    {
      hide WellFormed, Tidy, Holds, Follows, Joined, Dense, SegmentCapacity, RetainedSegmentLimit, LastSegments,
            Disk.AllWellFormed,
           NewRun, PieceSize, AllReplaced, EachPieceRecorded, AllKeepText, AllWritten, EachWritten;
      ghost var s, c, first := segments, contents, nextSequence;
      ghost var past := disk.history;
      HoldsLength(disk.files, s, c);
      NothingReplaced(past, c, maxBytes, first, suffix);
      NothingNew(maxBytes, first, suffix);
      newSegments, newContents := [], [];
      ok := true;
      var offset := 0;
      while offset < |suffix|
        invariant offset <= |suffix| && disk.failures >= old(disk.failures)
        invariant Running() && Completion !in disk.files && (currentOpen <==> offset == |suffix|)
        invariant segments == s + newSegments && contents == c + newContents && |newContents| == |newSegments|
        invariant NewRun(newSegments, newContents, maxBytes, first, suffix, offset)
        invariant nextSequence == first + |newSegments|
        invariant past <= disk.history && ReplacedSoFar(disk.history, |past|, c, maxBytes, first, suffix, offset)
      {
        NewRunStep(newSegments, newContents, maxBytes, first, suffix, offset);
        var capacity := SegmentCapacity(maxBytes, nextSequence);
        var size := if |suffix| - offset < capacity then |suffix| - offset else capacity;
        PieceSizeIs(maxBytes, nextSequence, offset);
        ghost var d, was, wasSegments := disk.files, disk.history, segments;
        ok := OpenAndWriteNewSegment(suffix[offset..offset + size]);
        PieceReplaces(was, disk.history, |past|, d, wasSegments, c, newSegments, newContents, maxBytes, first, suffix, offset, size, ok);
        if !ok {
          return;
        }
        newContents := newContents + [suffix[offset..offset + size]];
        newSegments := newSegments + [segments[|segments| - 1]];
        offset := offset + size;
        if offset < |suffix| {
          ghost var before := disk.history;
          ok := FinalizeCurrentSegment();
          ReplacedThenKept(before, disk.history, |past|, c, maxBytes, first, suffix, offset);
          if !ok {
            return;
          }
          newSegments := Closed(newSegments);
        }
      }
    }

    /** Starts over with new segments holding exactly `suffix`. */
    method ReplaceWithSuffix(suffix: Bytes) returns (ok: bool)
      requires Running() && Completion !in disk.files && |segments| <= RetainedSegmentLimit(maxBytes)
      requires |suffix| == maxBytes
      modifies this`segments, this`contents, this`currentOpen, this`nextSequence, disk
      ensures disk.AllWellFormed(maxBytes) && disk.failures >= old(disk.failures)
      ensures old(disk.history) <= disk.history
      ensures AllReplaced(disk.history, |old(disk.history)|, old(contents), maxBytes, old(nextSequence), suffix)
      ensures ok ==> EachPieceRecorded(disk.history, |old(disk.history)|, old(contents), maxBytes, old(nextSequence), suffix)
      ensures ok ==> Running() && Completion !in disk.files && |segments| <= RetainedSegmentLimit(maxBytes)
      ensures ok ==> Joined(contents) == suffix && forall text :: Dense(segments, contents, maxBytes, currentOpen, text)
      ensures ok && 1 < maxBytes ==>
        var half := if old(nextSequence) % 2 == 1 then maxBytes / 2 else maxBytes - maxBytes / 2;
        disk.files == Pair(old(nextSequence), suffix[..half], suffix[half..])
      ensures !ok ==> disk.failures > old(disk.failures) || nextSequence == MAX_SEQUENCE
    {
      hide WellFormed, Tidy, Holds, Follows, Joined, Dense, SegmentCapacity, RetainedSegmentLimit, LastSegments,
            Disk.AllWellFormed,
           NewRun, ReplacedSoFar, AllReplaced, EachPieceRecorded, AllKeepText;
      currentOpen := false;
      ghost var s, c, first := segments, contents, nextSequence;
      ghost var past := disk.history;
      HoldsLength(disk.files, s, c);
      ghost var newSegments, newContents;
      ok, newSegments, newContents := WriteSuffix(suffix);
      if !ok {
        return;
      }
      NewRunWhole(s, newSegments, newContents, maxBytes, first, suffix);
      ghost var before := disk.history;
      ok := PruneRetainedSegments();
      ReplacedThenKept(before, disk.history, |past|, c, maxBytes, first, suffix, maxBytes);
      if ok && 1 < maxBytes {
        SegmentLengths(disk.files, segments, contents, maxBytes);
        FollowsMeans(segments, nextSequence);
        NewRunCuts(newSegments, newContents, maxBytes, first, suffix);
        TidyPair(disk.files, segments, contents, maxBytes);
      }
    }

    method InvalidateCompletionManifest() returns (ok: bool)
      requires Running() && (completionInvalidated ==> Completion !in disk.files)
      modifies this`completionInvalidated, disk
      ensures disk.AllWellFormed(maxBytes) && disk.failures >= old(disk.failures)
      ensures old(disk.history) <= disk.history && AllKeepText(disk.history, |old(disk.history)|, old(disk.files), maxBytes)
      ensures ok ==> Running() && completionInvalidated && Completion !in disk.files
      ensures !ok ==> disk.failures > old(disk.failures)
    {
      hide WellFormed, Tidy, Follows, Joined, SameRetained;
      MarkerIsNoText(disk.files, Completion, COMPLETION_MARKER, maxBytes);
      if completionInvalidated {
        return true;
      }
      ghost var d := disk.files;
      RemoveCompletionKeeps(d, maxBytes);
      TidyWithoutCompletion(d, segments);
      ok := disk.Remove(Completion);
      completionInvalidated := ok;
    }

    /** Scans the directory once and takes up the segments it kept. */
    method EnsureInitialized() returns (ok: bool)
      requires Valid() && !poisoned
      modifies this`initialized, this`segments, this`contents, this`start, this`older, this`nextSequence, disk
      ensures disk.Valid() && (sound ==> disk.AllWellFormed(maxBytes)) && disk.failures >= old(disk.failures)
      ensures old(disk.history) <= disk.history && AllKeepText(disk.history, |old(disk.history)|, old(disk.files), maxBytes)
      ensures ok ==> initialized && sound && Settled()
      ensures old(initialized) ==> ok && disk.files == old(disk.files) && segments == old(segments) && contents == old(contents)
      ensures old(initialized) ==> start == old(start) && disk.failures == old(disk.failures)
      ensures !old(initialized) && ok ==> start == Joined(contents) && RetainedTextIs(old(disk.files), maxBytes, start)
      ensures !old(initialized) && ok ==> forall n: nat :: Retained(old(disk.files), maxBytes, n) <==> InRun(segments, n)
      ensures !old(initialized) && ok && old(disk.files) == map[] ==> segments == [] && nextSequence == 1
      ensures !ok ==> disk.failures > old(disk.failures) || !Openable(old(disk.files), maxBytes)
    {
      hide WellFormed, Tidy, Describes, Retained, Real, ScanReports, Holds, Follows, Joined, IsSuffix, Dense, InRun, OnlyRemoved,
           RetainedTextIs, SameRetained, AllKeepText, Disk.AllWellFormed;
      NothingKept(disk.history, disk.files, maxBytes);
      if initialized {
        return true;
      }
      if maxBytes == 0 || maxBytes > MAX_CAPTURE_BYTES {
        return false;
      }
      ghost var d, past := disk.files, disk.history;
      var scan := ScanCapture(disk, maxBytes, true);
      CurrentText(disk.history, past, d, maxBytes);
      if scan.ScanError? {
        return false;
      }
      ok := TakeUp(d, scan);
    }

    /** Continues after the segments a scan kept. */
    method TakeUp(ghost d: Directory, scan: Scan) returns (ok: bool)
      requires !poisoned && !initialized && !currentOpen && !finalized && !completionInvalidated
      requires 0 < maxBytes <= MAX_CAPTURE_BYTES && nextSequence == 1 && appended == []
      requires disk.AllWellFormed(maxBytes)
      requires WellFormed(d, maxBytes) && scan.Scanned? && ScanReports(d, maxBytes, scan) && Tidy(disk.files, scan.segments)
      requires SameRetained(disk.files, d, maxBytes)
      modifies this`initialized, this`segments, this`contents, this`start, this`older, this`nextSequence
      ensures ok <==> !Real(d, MAX_SEQUENCE)
      ensures ok ==> initialized && Settled() && start == Joined(contents) && RetainedTextIs(d, maxBytes, start)
      ensures ok ==> forall n: nat :: Retained(d, maxBytes, n) <==> InRun(segments, n)
      ensures ok && d == map[] ==> segments == [] && nextSequence == 1
    {
      hide WellFormed, Tidy, Describes, Retained, Real, ScanReports, Holds, Follows, Joined, IsSuffix, Dense, InRun, SameRetained,
           RetainedTextIs, Keeps, Disk.AllWellFormed, SegmentCapacity;
      TakesUp(d, disk.files, maxBytes, scan);
      if scan.segments != [] {
        if scan.segments[|scan.segments| - 1].sequence == MAX_SEQUENCE {
          return false;
        }
        nextSequence := scan.segments[|scan.segments| - 1].sequence + 1;
      }
      segments := scan.segments;
      ContentsAreThere(disk.files, segments);
      contents := ContentsOf(disk.files, segments);
      start := Joined(contents);
      ScannedText(d, disk.files, maxBytes, scan);
      older := |segments|;
      NoneNewer(segments, contents, maxBytes);
      initialized := true;
      ok := true;
    }

    /** Gives up for good after a failure. */
    method PoisonAndReject() returns (accepted: bool)
      requires disk.Valid() && (sound ==> disk.AllWellFormed(maxBytes)) && !finalized
      modifies this`poisoned, this`currentOpen
      ensures Valid() && poisoned && !currentOpen && !accepted
    {
      poisoned, currentOpen, accepted := true, false, false;
    }

    /** What every append does first. */
    method BeginAppend() returns (ok: bool)
      requires Valid() && !poisoned && !finalized
      modifies this`segments, this`contents, this`nextSequence, this`initialized, this`start, this`older,
            this`completionInvalidated, disk
      ensures disk.Valid() && (sound ==> disk.AllWellFormed(maxBytes)) && disk.failures >= old(disk.failures)
      ensures old(disk.history) <= disk.history && AllKeepText(disk.history, |old(disk.history)|, old(disk.files), maxBytes)
      ensures ok ==> initialized && sound && completionInvalidated && Completion !in disk.files
      ensures ok ==> Running() && |segments| <= RetainedSegmentLimit(maxBytes) && Keeping(appended)
      ensures ok && old(initialized) ==> start == old(start)
      ensures ok && !old(initialized) && old(disk.files) == map[] ==> segments == [] && nextSequence == 1
      ensures ok && !old(initialized) ==> RetainedTextIs(old(disk.files), maxBytes, start)
      ensures !ok ==> disk.failures > old(disk.failures) || (!old(initialized) && !Openable(old(disk.files), maxBytes))
    {
      hide WellFormed, Tidy, Holds, Follows, Keeps, Joined, Openable, Retained, InRun, RetainedTextIs, Disk.AllWellFormed,
           SegmentCapacity, RetainedSegmentLimit, AllKeepText, SameRetained;
      ghost var d, past := disk.files, disk.history;
      ok := EnsureInitialized();
      if !ok {
        return;
      }
      CurrentText(disk.history, past, d, maxBytes);
      ghost var e, middle := disk.files, disk.history;
      ok := InvalidateCompletionManifest();
      KeepTextTwice(middle, disk.history, |past|, d, e, maxBytes);
    }

    /** The last bytes of an append to an empty directory: segment 1 has the lower half of
        the limit, segment 2 the rest. */
    ghost predicate HoldsLast(d: Directory, bytes: Bytes, limit: nat)
      requires limit <= |bytes|
    {
      var suffix := bytes[|bytes| - limit..];
      d == map[RawSegment(1) := suffix[..limit / 2], FinalizedMarker(1) := FINALIZED_MARKER, RawSegment(2) := suffix[limit / 2..]]
    }

    /** The disk steps of an append of one byte or more. */
    method AppendSteps(bytes: Bytes) returns (ok: bool)
      requires Valid() && !poisoned && !finalized && bytes != []
      modifies this`segments, this`contents, this`currentOpen, this`nextSequence, this`initialized,
               this`start, this`older, this`completionInvalidated, disk
      ensures disk.Valid() && (sound ==> disk.AllWellFormed(maxBytes)) && disk.failures >= old(disk.failures)
      ensures old(disk.history) <= disk.history
      ensures EndsWithoutGap(disk.history, |old(disk.history)|, old(disk.files), maxBytes, bytes)
      ensures ok ==> GapsRecorded(disk.history, |old(disk.history)|, old(disk.files), maxBytes, bytes)
      ensures ok ==> Appended(disk.files, old(disk.files), maxBytes, bytes)
      ensures ok ==> initialized && sound && completionInvalidated && Completion !in disk.files
      ensures ok ==> Running() && |segments| <= RetainedSegmentLimit(maxBytes) && Keeping(appended + bytes)
      ensures ok && old(initialized) ==> start == old(start)
      ensures ok && !old(initialized) ==> RetainedTextIs(old(disk.files), maxBytes, start)
      ensures ok && |bytes| >= maxBytes ==> Joined(contents) == bytes[|bytes| - maxBytes..]
      ensures ok && |bytes| >= maxBytes > 1 && !old(initialized) && old(disk.files) == map[] ==>
        HoldsLast(disk.files, bytes, maxBytes)
      ensures !ok ==>
        || disk.failures > old(disk.failures) || nextSequence == MAX_SEQUENCE
        || (!old(initialized) && !Openable(old(disk.files), maxBytes))
    {
      hide WellFormed, Tidy, Holds, Follows, Keeps, Joined, IsSuffix, Dense, Openable, Retained, InRun, RetainedTextIs,
            Disk.AllWellFormed,
           SegmentCapacity, RetainedSegmentLimit, AllKeepText, AllSurvive, AllReplaced,
           EachPieceRecorded, SameRetained, EndsWithoutGap, GapsRecorded, Appended, NoGap;
      ghost var d, past := disk.files, disk.history;
      ok := BeginAppend();
      KeptEndsWithoutGap(disk.history, |past|, d, maxBytes, bytes);
      if !ok {
        return;
      }
      CurrentText(disk.history, past, d, maxBytes);
      ghost var whole, before := Joined(contents), disk.history;
      ghost var c, n := contents, nextSequence;
      RunningText(disk.files, d, segments, c, maxBytes);
      WholeIsSuffix(whole);
      if |bytes| >= maxBytes {
        ok := ReplaceWithSuffix(bytes[|bytes| - maxBytes..]);
        ReplacedEndsWithoutGap(before, disk.history, |past|, d, c, maxBytes, n, bytes);
        if ok {
          GapsAreRecorded(before, disk.history, |past|, d, c, maxBytes, n, bytes);
        }
        older := 0;
        EndsWith(start, appended, bytes, maxBytes);
        if ok {
          HoldsLength(disk.files, segments, contents);
          AllNewer(start, segments, contents, maxBytes, currentOpen, appended + bytes);
          EndsWithLast(whole, bytes, maxBytes);
          NowAppended(disk.files, d, segments, contents, maxBytes, whole, bytes);
        }
      } else {
        ok := AppendPieces(bytes, whole);
        NoGapNothingToRecord(disk.history, |past|, d, maxBytes, bytes);
        AppendedEndsWithoutGap(before, disk.history, |past|, d, whole, maxBytes, bytes);
        if ok {
          NowAppended(disk.files, d, segments, contents, maxBytes, whole, bytes);
        }
      }
    }

    method Append(bytes: Bytes) returns (accepted: bool)
      requires Valid()
      modifies this, disk
      ensures Valid() && disk.failures >= old(disk.failures) && finalized == old(finalized)
      ensures old(disk.history) <= disk.history
      ensures EndsWithoutGap(disk.history, |old(disk.history)|, old(disk.files), maxBytes, bytes)
      ensures accepted && bytes != [] ==> GapsRecorded(disk.history, |old(disk.history)|, old(disk.files), maxBytes, bytes)
      ensures accepted ==> Appended(disk.files, old(disk.files), maxBytes, bytes)
      ensures old(poisoned) || old(finalized) ==>
        !accepted && poisoned == old(poisoned) && disk.files == old(disk.files) && disk.history == old(disk.history)
      ensures !old(poisoned) && !old(finalized) && bytes == [] ==>
        && accepted && disk.files == old(disk.files) && disk.history == old(disk.history)
        && initialized == old(initialized) && segments == old(segments) && !poisoned
      ensures accepted && bytes != [] ==>
        initialized && !poisoned && Completion !in disk.files && appended == old(appended) + bytes
      ensures accepted && old(initialized) ==> start == old(start)
      ensures accepted && bytes != [] && !old(initialized) ==> RetainedTextIs(old(disk.files), maxBytes, start)
      ensures accepted && bytes != [] ==> IsSuffix(Joined(contents), start + appended)
      ensures accepted && bytes != [] && |bytes| >= maxBytes ==> Joined(contents) == bytes[|bytes| - maxBytes..]
      ensures accepted && bytes != [] && 1 < maxBytes ==> SegmentsSized(segments, contents, maxBytes, older)
      ensures accepted && |bytes| >= maxBytes > 1 && !old(initialized) && old(disk.files) == map[] ==>
        HoldsLast(disk.files, bytes, maxBytes)
      ensures accepted && bytes != [] ==>
        && |Joined(contents)| <= maxBytes
        && (|Joined(contents)| >= |appended| || |Joined(contents)| >= maxBytes / 2 + 1)
      ensures !accepted && !old(poisoned) && !old(finalized) ==>
        && poisoned
        && (|| disk.failures > old(disk.failures) || nextSequence == MAX_SEQUENCE
            || (!old(initialized) && !Openable(old(disk.files), maxBytes)))
    {
      hide WellFormed, Tidy, Holds, Follows, Joined, IsSuffix, Dense, Openable, RetainedTextIs, Disk.AllWellFormed, AllKeepText,
           Keeps, SegmentsSized, HoldsLast, RetainedSegmentLimit, EndsWithoutGap, GapsRecorded, Appended, SameRetained;
      NothingKept(disk.history, disk.files, maxBytes);
      KeptEndsWithoutGap(disk.history, |disk.history|, disk.files, maxBytes, bytes);
      NothingAppended(disk.files, disk.files, maxBytes);
      if poisoned || finalized {
        return false;
      }
      if bytes == [] {
        return true;
      }
      accepted := AppendSteps(bytes);
      if !accepted {
        accepted := PoisonAndReject();
        return;
      }
      appended := appended + bytes;
      AppendLeaves(disk.files, segments, contents, maxBytes, currentOpen, start, appended, older);
    }

    method PublishManifest() returns (ok: bool)
      requires Running() && forall i | 0 <= i < |segments| :: segments[i].finalized
      modifies disk
      ensures disk.AllWellFormed(maxBytes) && disk.failures >= old(disk.failures)
      ensures old(disk.history) <= disk.history && AllKeepText(disk.history, |old(disk.history)|, old(disk.files), maxBytes)
      ensures ok ==> Running() && Completion in disk.files && disk.files[Completion] == COMPLETION_MARKER
      ensures !ok ==> disk.failures > old(disk.failures)
    {
      hide WellFormed, Tidy, Holds, Follows, Retained, SameRetained, AllKeepText, Disk.AllWellFormed, SegmentCapacity;
      ghost var d := disk.files;
      AllFinalizedTidy(d, segments, maxBytes);
      PublishCompletionKeeps(d, maxBytes);
      CompletionNotCut(d, segments, maxBytes);
      TidyWithCompletion(d, segments);
      ok := PublishMarker(disk, Completion, COMPLETION_MARKER, maxBytes);
      if ok {
        HoldsElsewhere(d, segments, contents, disk.files);
      }
    }

    /** The disk steps of a finalization. */
    method FinalizeSteps() returns (ok: bool)
      requires Valid() && !poisoned && !finalized
      modifies this`segments, this`contents, this`currentOpen, this`nextSequence, this`initialized,
               this`start, this`older, disk
      ensures disk.Valid() && (sound ==> disk.AllWellFormed(maxBytes)) && disk.failures >= old(disk.failures)
      ensures old(disk.history) <= disk.history && AllKeepText(disk.history, |old(disk.history)|, old(disk.files), maxBytes)
      ensures ok ==> initialized && sound && !currentOpen && Completion in disk.files
      ensures ok ==> disk.files[Completion] == COMPLETION_MARKER && forall i | 0 <= i < |segments| :: segments[i].finalized
      ensures ok ==> Running() && |segments| <= RetainedSegmentLimit(maxBytes) && IsSuffix(Joined(contents), start + appended)
      ensures ok && old(initialized) ==> contents == old(contents) && start == old(start)
      ensures ok && !old(initialized) ==> RetainedTextIs(old(disk.files), maxBytes, start)
      ensures !ok ==>
        || disk.failures > old(disk.failures)
        || (!old(initialized) && !Openable(old(disk.files), maxBytes))
        || (older <= |segments| && SomeUnfinished(segments[..older]))
    {
      hide WellFormed, Tidy, Holds, Follows, Keeps, Openable, Retained, InRun, RetainedTextIs, Disk.AllWellFormed,
            SegmentCapacity,
           RetainedSegmentLimit, SameRetained, AllKeepText;
      ghost var d, past := disk.files, disk.history;
      ok := EnsureInitialized();
      if !ok {
        return;
      }
      CurrentText(disk.history, past, d, maxBytes);
      KeepsAnyOpen(start, segments, contents, maxBytes, currentOpen, appended, older);
      if currentOpen {
        ghost var e, before := disk.files, disk.history;
        ok := FinalizeCurrentSegment();
        KeepTextTwice(before, disk.history, |past|, d, e, maxBytes);
        CurrentText(disk.history, past, d, maxBytes);
        if !ok {
          return;
        }
      }
      if exists i | 0 <= i < |segments| :: !segments[i].finalized {
        assert SomeUnfinished(segments[..older]);
        return false;
      }
      ghost var e, before := disk.files, disk.history;
      ok := PublishManifest();
      KeepTextTwice(before, disk.history, |past|, d, e, maxBytes);
    }

    method Finalize() returns (accepted: bool)
      requires Valid()
      modifies this, disk
      ensures Valid() && disk.failures >= old(disk.failures)
      ensures old(disk.history) <= disk.history && AllKeepText(disk.history, |old(disk.history)|, old(disk.files), maxBytes)
      ensures old(poisoned) ==> !accepted && poisoned && disk.files == old(disk.files) && disk.history == old(disk.history)
      ensures old(finalized) ==> accepted && !poisoned && disk.files == old(disk.files) && disk.history == old(disk.history)
      ensures accepted ==> finalized && appended == old(appended)
      ensures accepted && !old(finalized) ==>
        && Completion in disk.files && disk.files[Completion] == COMPLETION_MARKER
        && (forall i | 0 <= i < |segments| :: segments[i].finalized)
        && IsSuffix(Joined(contents), start + appended)
      ensures accepted && old(initialized) ==> contents == old(contents) && start == old(start)
      ensures accepted && !old(initialized) ==> RetainedTextIs(old(disk.files), maxBytes, start)
      ensures !accepted && !old(poisoned) ==>
        && poisoned
        && (|| disk.failures > old(disk.failures)
            || (!old(initialized) && !Openable(old(disk.files), maxBytes))
            || (older <= |segments| && SomeUnfinished(segments[..older])))
    {
      hide WellFormed, Tidy, Holds, Follows, Joined, IsSuffix, Dense, Openable, RetainedTextIs, Disk.AllWellFormed, AllKeepText;
      NothingKept(disk.history, disk.files, maxBytes);
      if poisoned {
        return false;
      }
      if finalized {
        return true;
      }
      accepted := FinalizeSteps();
      if accepted {
        finalized := true;
      } else {
        accepted := PoisonAndReject();
      }
    }
  }
}
