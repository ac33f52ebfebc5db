/** What the disk steps of a capture writer do to its segments and their contents. */
module CaptureSegments {
  import opened CaptureDisk
  import opened CaptureText
  import opened CaptureScan

  // ---- What the steps of the writer do to a tidy directory --------------------

  /** The segment after the last one of a run. */
  predicate Follows(segments: seq<Segment>, n: nat) {
    segments != [] ==> n == segments[0].sequence + |segments|
  }

  /** Sequence `n` ends the run of real segments, or can become its end. */
  ghost predicate AtEnd(d: Directory, n: nat) {
    Real(d, n) || forall k: nat | Real(d, k) :: k < n && forall c: nat | k <= c < n :: Real(d, c)
  }

  lemma {:induction false} NothingAtNext(d: Directory, segments: seq<Segment>, n: nat)
    requires Tidy(d, segments) && Follows(segments, n)
    ensures RawSegment(n) !in d && FinalizedMarker(n) !in d && !Real(d, n) && AtEnd(d, n)
  {
    assert !InRun(segments, n);
    assert RawSegment(n) in d ==> !IsLitter(d, RawSegment(n));
    assert FinalizedMarker(n) in d ==> RawSegment(n) in d;
    forall k: nat | Real(d, k)
      ensures k < n && forall c: nat | k <= c < n :: Real(d, c)
    {
      assert InRun(segments, k);
      forall c: nat | k <= c < n
        ensures Real(d, c)
      {
        assert InRun(segments, c);
      }
    }
  }

  lemma {:induction false} TidyWithNew(d: Directory, segments: seq<Segment>, n: nat, bytes: Bytes)
    requires Tidy(d, segments) && Follows(segments, n) && bytes != []
    ensures Tidy(d[RawSegment(n) := bytes], segments + [Segment(n, |bytes|, false)])
  {
    NothingAtNext(d, segments, n);
    var e, more := d[RawSegment(n) := bytes], segments + [Segment(n, |bytes|, false)];
    assert forall k: nat | k != n :: (Real(e, k) <==> Real(d, k)) && (Finalized(e, k) <==> Finalized(d, k));
    forall i | 0 <= i < |more|
      ensures Describes(e, more[i]) && more[i].sequence == more[0].sequence + i
    {
      if i < |segments| {
        assert Describes(d, segments[i]);
        assert InRun(segments, segments[i].sequence);
      }
    }
    assert forall k: nat :: InRun(more, k) <==> InRun(segments, k) || k == n;
    forall name | name in e
      ensures !IsLitter(e, name)
    {
      assert name != RawSegment(n) ==> !IsLitter(d, name);
    }
  }

  lemma {:induction false} TidyWithMore(d: Directory, segments: seq<Segment>, content: Bytes)
    requires Tidy(d, segments) && segments != [] && content != []
    ensures var last := |segments| - 1;
            Tidy(d[RawSegment(segments[last].sequence) := content], segments[last := segments[last].(byteCount := |content|)])
  {
    var last, n := |segments| - 1, segments[|segments| - 1].sequence;
    var e, changed := d[RawSegment(n) := content], segments[last := segments[last].(byteCount := |content|)];
    assert Describes(d, segments[last]);
    assert forall k: nat :: (Real(e, k) <==> Real(d, k)) && (Finalized(e, k) <==> Finalized(d, k));
    forall i | 0 <= i < |changed|
      ensures Describes(e, changed[i]) && changed[i].sequence == changed[0].sequence + i
    {
      assert Describes(d, segments[i]) && segments[i].sequence == segments[0].sequence + i;
    }
    assert forall k: nat :: InRun(changed, k) <==> InRun(segments, k);
    forall name | name in e
      ensures !IsLitter(e, name)
    {
      assert name != RawSegment(n) ==> !IsLitter(d, name);
    }
  }

  lemma {:induction false} TidyWithMarker(d: Directory, segments: seq<Segment>)
    requires Tidy(d, segments) && segments != []
    ensures var last := |segments| - 1;
            Tidy(d[FinalizedMarker(segments[last].sequence) := FINALIZED_MARKER], segments[last := segments[last].(finalized := true)])
  {
    var last, n := |segments| - 1, segments[|segments| - 1].sequence;
    var e, changed := d[FinalizedMarker(n) := FINALIZED_MARKER], segments[last := segments[last].(finalized := true)];
    assert Describes(d, segments[last]);
    assert forall k: nat :: (Real(e, k) <==> Real(d, k)) && (k != n ==> (Finalized(e, k) <==> Finalized(d, k)));
    forall i | 0 <= i < |changed|
      ensures Describes(e, changed[i]) && changed[i].sequence == changed[0].sequence + i
    {
      assert Describes(d, segments[i]) && segments[i].sequence == segments[0].sequence + i;
    }
    assert forall k: nat :: InRun(changed, k) <==> InRun(segments, k);
    forall name | name in e
      ensures !IsLitter(e, name)
    {
      assert name != FinalizedMarker(n) ==> !IsLitter(d, name);
    }
  }

  lemma {:induction false} TidyWithoutCompletion(d: Directory, segments: seq<Segment>)
    requires Tidy(d, segments)
    ensures Tidy(d - {Completion}, segments)
  {
    SameSegmentsTidy(d, d - {Completion}, segments);
  }

  lemma {:induction false} TidyWithCompletion(d: Directory, segments: seq<Segment>)
    requires Tidy(d, segments)
    ensures Tidy(d[Completion := COMPLETION_MARKER], segments)
  {
    SameSegmentsTidy(d, d[Completion := COMPLETION_MARKER], segments);
  }

  lemma {:induction false} SameSegmentsTidy(d: Directory, e: Directory, segments: seq<Segment>)
    requires Tidy(d, segments)
    requires forall name: Name | !name.Completion? :: (name in e <==> name in d) && (name in d ==> e[name] == d[name])
    requires Completion in e ==> !IsLitter(e, Completion)
    ensures Tidy(e, segments)
  {
    assert forall k: nat :: (Real(e, k) <==> Real(d, k)) && (Finalized(e, k) <==> Finalized(d, k));
    forall i | 0 <= i < |segments|
      ensures Describes(e, segments[i])
    {
      assert Describes(d, segments[i]);
    }
  }

  /** When every listed segment is finalized the manifest may be published. */
  lemma {:induction false} AllFinalized(d: Directory, segments: seq<Segment>, maxBytes: nat)
    requires Listed(d, segments) && forall i | 0 <= i < |segments| :: segments[i].finalized
    ensures forall n: nat | Retained(d, maxBytes, n) :: Finalized(d, n)
  {
    forall n: nat | Retained(d, maxBytes, n)
      ensures Finalized(d, n)
    {
      assert InRun(segments, n);
      assert Describes(d, segments[n - segments[0].sequence]);
    }
  }

  lemma {:induction false} PartialAppendKeeps(d: Directory, maxBytes: nat, n: nat, bytes: Bytes, e: Directory)
    requires WellFormed(d, maxBytes) && Completion !in d && RawSegment(n) in d
    requires |d[RawSegment(n)]| + |bytes| <= SegmentCapacity(maxBytes, n)
    requires AtEnd(d, n)
    requires PartlyAppended(e, d, RawSegment(n), bytes)
    ensures WellFormed(e, maxBytes)
  {
    var k: nat :| k <= |bytes| && e == d[RawSegment(n) := d[RawSegment(n)] + bytes[..k]];
    if d[RawSegment(n)] + bytes[..k] == [] {
      assert e == d;
    } else {
      WriteRawKeeps(d, maxBytes, n, d[RawSegment(n)] + bytes[..k]);
    }
  }

  // ---- What the retained text keeps of the bytes appended ------------------------

  ghost predicate Holds(d: Directory, segments: seq<Segment>, contents: seq<Bytes>) {
    && |contents| == |segments|
    && forall i | 0 <= i < |segments| ::
         RawSegment(segments[i].sequence) in d && d[RawSegment(segments[i].sequence)] == contents[i]
  }

  predicate Full(s: Segment, maxBytes: nat) {
    s.byteCount == SegmentCapacity(maxBytes, s.sequence)
  }

  /** A writer finalizes each of its segments, full, before the next one, and drops
      none before the limit is reached. */
  ghost predicate Dense(segments: seq<Segment>, contents: seq<Bytes>, maxBytes: nat, open: bool, appended: Bytes) {
    && (forall i | 0 <= i < |segments| - 1 :: segments[i].finalized && Full(segments[i], maxBytes))
    && (segments != [] && !open ==> segments[|segments| - 1].finalized && Full(segments[|segments| - 1], maxBytes))
    && (Joined(contents) == appended || |segments| >= RetainedSegmentLimit(maxBytes))
  }

  /** The retained text is a suffix of what there was and `text`, which followed; all
      segments but the first `older` were made for `text`. */
  ghost predicate Keeps(start: Bytes, segments: seq<Segment>, contents: seq<Bytes>, maxBytes: nat, open: bool,
                        text: Bytes, older: nat)
  {
    && |contents| == |segments| && IsSuffix(Joined(contents), start + text)
    && older <= |segments| && (open ==> older < |segments|)
    && Dense(segments[older..], contents[older..], maxBytes, open, text)
  }

  lemma {:induction false} JoinedGrow(contents: seq<Bytes>, bytes: Bytes)
    requires contents != []
    ensures var last := |contents| - 1; Joined(contents[last := contents[last] + bytes]) == Joined(contents) + bytes
  {
    var last := |contents| - 1;
    var grown := contents[last := contents[last] + bytes];
    assert grown[..last] == contents[..last];
  }

  lemma {:induction false} DenseOpen(segments: seq<Segment>, contents: seq<Bytes>, maxBytes: nat, appended: Bytes,
        s: Segment, bytes: Bytes)
    requires Dense(segments, contents, maxBytes, false, appended)
    ensures Dense(segments + [s], contents + [bytes], maxBytes, true, appended + bytes)
  {
    JoinedPush(contents, bytes);
  }

  lemma {:induction false} DenseGrow(segments: seq<Segment>, contents: seq<Bytes>, maxBytes: nat, appended: Bytes,
        s: Segment, bytes: Bytes)
    requires Dense(segments, contents, maxBytes, true, appended) && segments != [] && |contents| == |segments|
    ensures var last := |segments| - 1;
            Dense(segments[last := s], contents[last := contents[last] + bytes], maxBytes, true, appended + bytes)
  {
    JoinedGrow(contents, bytes);
  }

  lemma {:induction false} DenseDrop(segments: seq<Segment>, contents: seq<Bytes>, maxBytes: nat, open: bool, appended: Bytes)
    requires Dense(segments, contents, maxBytes, open, appended) && |segments| > RetainedSegmentLimit(maxBytes)
    requires |contents| == |segments|
    ensures Dense(segments[1..], contents[1..], maxBytes, open, appended)
  {
    assert forall i | 0 <= i < |segments[1..]| :: segments[1..][i] == segments[i + 1];
  }

  /** How much a writer retains. */
  lemma {:induction false} RetainedLength(d: Directory, segments: seq<Segment>, contents: seq<Bytes>, maxBytes: nat, open: bool,
                       start: Bytes, appended: Bytes, older: nat)
    requires Keeps(start, segments, contents, maxBytes, open, appended, older)
    requires Holds(d, segments, contents) && Tidy(d, segments) && WellFormed(d, maxBytes)
    requires 0 < maxBytes && |segments| <= RetainedSegmentLimit(maxBytes)
    ensures |Joined(contents)| <= maxBytes
    ensures |Joined(contents)| >= |appended| || |Joined(contents)| >= maxBytes / 2 + 1
  {
    hide WellFormed, Tidy, Holds, Joined, SegmentCapacity;
    JoinedLength(contents);
    JoinedLength(contents[older..]);
    SegmentLengths(d, segments, contents, maxBytes);
    if segments != [] {
      CapacityPositive(maxBytes, segments[0].sequence);
    }
  }

  /** The segments a writer made are full but for the last: of `maxBytes` bytes, odd ones
      take the lower half and even ones the rest. */
  lemma {:induction false} OwnSegmentSizes(d: Directory, segments: seq<Segment>, contents: seq<Bytes>, maxBytes: nat, open: bool,
                                           start: Bytes, appended: Bytes, older: nat)
    requires Keeps(start, segments, contents, maxBytes, open, appended, older)
    requires Holds(d, segments, contents) && Tidy(d, segments) && WellFormed(d, maxBytes) && 1 < maxBytes
    ensures SegmentsSized(segments, contents, maxBytes, older)
  {
    hide WellFormed, Tidy, Holds, Joined;
    SegmentLengths(d, segments, contents, maxBytes);
    forall i | older <= i < |segments| - 1
      ensures segments[i].finalized && Full(segments[i], maxBytes)
    {
      assert segments[older..][i - older] == segments[i];
    }
  }

  ghost predicate SegmentsSized(segments: seq<Segment>, contents: seq<Bytes>, maxBytes: nat, older: nat) {
    && |contents| == |segments|
    && (forall i | 0 <= i < |segments| :: segments[i].sequence == segments[0].sequence + i && segments[i].byteCount == |contents[i]|)
    && (forall i | 0 <= i < |segments| ::
          |contents[i]| <= if segments[i].sequence % 2 == 1 then maxBytes / 2 else maxBytes - maxBytes / 2)
    && (forall i | older <= i < |segments| - 1 ::
          segments[i].finalized
          && |contents[i]| == if segments[i].sequence % 2 == 1 then maxBytes / 2 else maxBytes - maxBytes / 2)
  }

  /** What an accepted append leaves. */
  lemma {:induction false} AppendLeaves(d: Directory, segments: seq<Segment>, contents: seq<Bytes>, maxBytes: nat, open: bool,
                                        start: Bytes, appended: Bytes, older: nat)
    requires Keeps(start, segments, contents, maxBytes, open, appended, older)
    requires Holds(d, segments, contents) && Tidy(d, segments) && WellFormed(d, maxBytes)
    requires 0 < maxBytes && |segments| <= RetainedSegmentLimit(maxBytes)
    ensures IsSuffix(Joined(contents), start + appended)
    ensures |Joined(contents)| <= maxBytes
    ensures |Joined(contents)| >= |appended| || |Joined(contents)| >= maxBytes / 2 + 1
    ensures 1 < maxBytes ==> SegmentsSized(segments, contents, maxBytes, older)
  {
    hide WellFormed, Tidy, Holds, Joined, IsSuffix, Dense, SegmentsSized, RetainedSegmentLimit;
    RetainedLength(d, segments, contents, maxBytes, open, start, appended, older);
    if 1 < maxBytes {
      OwnSegmentSizes(d, segments, contents, maxBytes, open, start, appended, older);
    }
  }

  /** A directory that holds just these two segments, the first finalized, is their pair. */
  lemma {:induction false} TidyPair(d: Directory, segments: seq<Segment>, contents: seq<Bytes>, maxBytes: nat)
    requires Tidy(d, segments) && Holds(d, segments, contents) && WellFormed(d, maxBytes) && Completion !in d
    requires |segments| == 2 && segments[0].finalized && !segments[1].finalized
    ensures d == Pair(segments[0].sequence, contents[0], contents[1])
  {
    var n := segments[0].sequence;
    assert segments[1].sequence == n + 1;
    assert Describes(d, segments[0]) && Describes(d, segments[1]);
    forall name: Name
      ensures name in d <==> name in Pair(n, contents[0], contents[1])
      ensures name in d ==> d[name] == Pair(n, contents[0], contents[1])[name]
    {
      if name in d {
        assert !IsLitter(d, name);
        match name
        case Completion =>
        case RawSegment(k) =>
          assert Real(d, k) && InRun(segments, k);
        case FinalizedMarker(k) =>
          assert RawSegment(k) in d && !IsLitter(d, RawSegment(k));
          assert Real(d, k) && InRun(segments, k);
      }
    }
  }

  /** Where a replacement cuts its bytes. */
  lemma {:induction false} FollowsMeans(segments: seq<Segment>, n: nat)
    requires Follows(segments, n) && segments != []
    ensures n == segments[0].sequence + |segments|
  {
  }

  lemma {:induction false} NewRunCuts(newSegments: seq<Segment>, newContents: seq<Bytes>, maxBytes: nat, n: nat, suffix: Bytes)
    requires NewRun(newSegments, newContents, maxBytes, n, suffix, maxBytes) && 1 < maxBytes
    requires forall i | 0 <= i < |newSegments| ::
      newSegments[i].sequence == n + i && newSegments[i].byteCount == |newContents[i]|
    ensures |newSegments| == 2 && newSegments[0].finalized
    ensures var half := if n % 2 == 1 then maxBytes / 2 else maxBytes - maxBytes / 2;
            newContents == [suffix[..half], suffix[half..]]
  {
    assert suffix[..maxBytes] == suffix;
    JoinedPair(newContents[0], newContents[1]);
    assert newContents == [newContents[0], newContents[1]];
    assert (newContents[0] + newContents[1])[..|newContents[0]|] == newContents[0];
    assert (newContents[0] + newContents[1])[|newContents[0]|..] == newContents[1];
  }

  lemma {:induction false} SegmentLengths(d: Directory, segments: seq<Segment>, contents: seq<Bytes>, maxBytes: nat)
    requires Holds(d, segments, contents) && Tidy(d, segments) && WellFormed(d, maxBytes)
    ensures forall i | 0 <= i < |segments| ::
      0 < |contents[i]| == segments[i].byteCount <= SegmentCapacity(maxBytes, segments[i].sequence)
    ensures forall i | 0 <= i < |segments| :: segments[i].sequence == segments[0].sequence + i
  {
    forall i | 0 <= i < |segments|
      ensures 0 < |contents[i]| == segments[i].byteCount <= SegmentCapacity(maxBytes, segments[i].sequence)
    {
      assert Describes(d, segments[i]);
    }
  }

  /** A scan of a directory the writer left reports exactly the writer's segments. */
  lemma {:induction false} ScanFindsKept(d: Directory, segments: seq<Segment>, maxBytes: nat, scan: Scan)
    requires Tidy(d, segments) && |segments| <= RetainedSegmentLimit(maxBytes)
    requires scan.Scanned? && ScanReports(d, maxBytes, scan)
    ensures scan.segments == segments
  {
    var found := scan.segments;
    forall n: nat
      ensures InRun(found, n) <==> InRun(segments, n)
    {
      assert Retained(d, maxBytes, n) <==> InRun(found, n);
      assert Real(d, n) <==> InRun(segments, n);
      assert Real(d, n + RetainedSegmentLimit(maxBytes)) <==> InRun(segments, n + RetainedSegmentLimit(maxBytes));
    }
    if found != [] || segments != [] {
      SameRun(found, segments);
      forall i | 0 <= i < |found|
        ensures found[i] == segments[i]
      {
        assert Describes(d, found[i]) && Describes(d, segments[i]);
        assert found[i].sequence == found[0].sequence + i && segments[i].sequence == segments[0].sequence + i;
      }
    }
  }

  lemma {:induction false} SameRun(a: seq<Segment>, b: seq<Segment>)
    requires a != [] || b != []
    requires forall n: nat :: InRun(a, n) <==> InRun(b, n)
    ensures |a| == |b| && a[0].sequence == b[0].sequence
  {
    if a != [] {
      assert InRun(a, a[0].sequence) && InRun(a, a[0].sequence + |a| - 1) && !InRun(a, a[0].sequence + |a|);
    }
    if b != [] {
      assert InRun(b, b[0].sequence) && InRun(b, b[0].sequence + |b| - 1) && !InRun(b, b[0].sequence + |b|);
    }
  }

  // ---- Steps on a tidy directory, well-formedness and content together -----------

  lemma {:induction false} HoldsWithNew(d: Directory, segments: seq<Segment>, contents: seq<Bytes>, n: nat, bytes: Bytes)
    requires Holds(d, segments, contents) && Tidy(d, segments) && Follows(segments, n)
    ensures Holds(d[RawSegment(n) := bytes], segments + [Segment(n, |bytes|, false)], contents + [bytes])
  {
    SequencesBelow(d, segments, n);
  }

  lemma {:induction false} HoldsWithMore(d: Directory, segments: seq<Segment>, contents: seq<Bytes>, bytes: Bytes)
    requires Holds(d, segments, contents) && Tidy(d, segments) && segments != []
    ensures var last := |segments| - 1; var content := contents[last] + bytes;
            Holds(d[RawSegment(segments[last].sequence) := content],
                  segments[last := segments[last].(byteCount := |content|)], contents[last := content])
  {
    assert forall i | 0 <= i < |segments| :: segments[i].sequence == segments[0].sequence + i;
  }

  lemma {:induction false} HoldsElsewhere(d: Directory, segments: seq<Segment>, contents: seq<Bytes>, e: Directory)
    requires Holds(d, segments, contents)
    requires forall n: nat | RawSegment(n) in d :: RawSegment(n) in e && e[RawSegment(n)] == d[RawSegment(n)]
    ensures Holds(e, segments, contents)
  {
  }

  lemma {:induction false} HoldsAfterPrune(d: Directory, segments: seq<Segment>, contents: seq<Bytes>)
    requires Holds(d, segments, contents) && Tidy(d, segments) && segments != []
    ensures var n := segments[0].sequence;
            Holds(d - {FinalizedMarker(n), RawSegment(n)}, segments[1..], contents[1..])
  {
    var rest := segments[1..];
    forall i | 0 <= i < |rest|
      ensures rest[i].sequence == segments[0].sequence + i + 1
    {
      assert rest[i] == segments[i + 1];
    }
  }

  lemma {:induction false} LastOfRun(d: Directory, segments: seq<Segment>, maxBytes: nat)
    requires WellFormed(d, maxBytes) && Tidy(d, segments) && segments != []
    ensures var s := segments[|segments| - 1];
            && Real(d, s.sequence) && s.byteCount == |d[RawSegment(s.sequence)]| && ValidSequence(s.sequence)
            && 0 < s.byteCount <= SegmentCapacity(maxBytes, s.sequence)
            && s.sequence == segments[0].sequence + |segments| - 1
  {
    assert Describes(d, segments[|segments| - 1]);
  }

  /** What the segments of a directory hold. */
  ghost function ContentsOf(d: Directory, segments: seq<Segment>): (r: seq<Bytes>)
    requires forall i | 0 <= i < |segments| :: Describes(d, segments[i])
    ensures Holds(d, segments, r)
  {
    assert forall i | 0 <= i < |segments| :: Describes(d, segments[i]) && RawSegment(segments[i].sequence) in d;
    seq(|segments|, i requires 0 <= i < |segments| =>
      if RawSegment(segments[i].sequence) in d then d[RawSegment(segments[i].sequence)] else [])
  }

  // ---- The text a directory retains, segment by segment --------------------------------

  lemma {:induction false} LastBytes(d: Directory, segments: seq<Segment>, contents: seq<Bytes>, dropped: nat, first: nat)
    requires IsRun(segments) && Holds(d, segments, contents) && dropped <= |segments|
    requires dropped < |segments| ==> first == segments[dropped].sequence
    ensures forall i | 0 <= i < |contents[dropped..]| :: HasBytes(d, first + i, contents[dropped..][i])
  {
    forall i | 0 <= i < |contents[dropped..]|
      ensures HasBytes(d, first + i, contents[dropped..][i])
    {
      assert segments[dropped + i].sequence == segments[0].sequence + dropped + i;
      assert segments[dropped].sequence == segments[0].sequence + dropped;
    }
  }

  lemma {:induction false} RunRange(kept: seq<Segment>, n: nat)
    ensures InRun(kept, n) <==> var first := if kept == [] then 0 else kept[0].sequence; first <= n < first + |kept|
  {
  }

  lemma {:induction false} KeptParts(d: Directory, segments: seq<Segment>, contents: seq<Bytes>, maxBytes: nat)
    requires Tidy(d, segments) && Holds(d, segments, contents)
    ensures Listed(d, segments) && IsRun(segments) && |contents| == |segments|
    ensures |LastSegments(segments, maxBytes)| == |LastContents(contents, maxBytes)|
    ensures LastContents(contents, maxBytes) == contents[|segments| - |LastSegments(segments, maxBytes)|..]
  {
  }

  lemma {:induction false} KeptRange(d: Directory, segments: seq<Segment>, maxBytes: nat)
    requires Listed(d, segments)
    ensures var kept := LastSegments(segments, maxBytes);
            var first := if kept == [] then 0 else kept[0].sequence;
            forall n: nat :: Retained(d, maxBytes, n) <==> first <= n < first + |kept|
  {
    hide Listed, Retained, InRun;
    var kept := LastSegments(segments, maxBytes);
    LastAreRetained(d, segments, maxBytes, kept);
    forall n: nat
      ensures Retained(d, maxBytes, n) <==> var first := if kept == [] then 0 else kept[0].sequence; first <= n < first + |kept|
    {
      RunRange(kept, n);
    }
  }

  /** The retained text is what the last segments hold. */
  lemma {:induction false} TextOfSegments(d: Directory, segments: seq<Segment>, contents: seq<Bytes>, maxBytes: nat)
    requires Tidy(d, segments) && Holds(d, segments, contents)
    ensures RetainedTextIs(d, maxBytes, Joined(LastContents(contents, maxBytes)))
  {
    hide Tidy, Listed, Holds, IsRun, LastContents, Joined, RetainedSegmentLimit, Real, Retained, HasBytes;
    var kept, held := LastSegments(segments, maxBytes), LastContents(contents, maxBytes);
    var first := if kept == [] then 0 else kept[0].sequence;
    KeptParts(d, segments, contents, maxBytes);
    KeptRange(d, segments, maxBytes);
    LastBytes(d, segments, contents, |segments| - |kept|, first);
    assert Retains(d, maxBytes, first, held);
  }

  lemma {:induction false} LastReal(d: Directory, n: nat) returns (last: nat)
    requires (exists k: nat :: Real(d, k)) && forall k: nat | Real(d, k) :: k <= n
    ensures Real(d, last) && forall k: nat | Real(d, k) :: k <= last
  {
    if Real(d, n) {
      last := n;
    } else {
      last := LastReal(d, n - 1);
    }
  }

  /** Every directory a scan accepts retains a text. */
  lemma {:induction false} AcceptedHasText(d: Directory, maxBytes: nat) returns (text: Bytes)
    requires WellFormed(d, maxBytes)
    ensures RetainedTextIs(d, maxBytes, text)
  {
    hide Joined;
    var first: nat, contents: seq<Bytes> := 0, [];
    if exists k: nat :: Real(d, k) {
      forall k: nat | Real(d, k)
        ensures k <= MAX_SEQUENCE
      {
        assert ValidSequence(RawSegment(k).sequence);
      }
      var last := LastReal(d, MAX_SEQUENCE);
      if maxBytes != 1 && last > 0 && Real(d, last - 1) {
        first, contents := last - 1, [d[RawSegment(last - 1)], d[RawSegment(last)]];
      } else {
        first, contents := last, [d[RawSegment(last)]];
      }
    }
    assert Retains(d, maxBytes, first, contents);
    text := Joined(contents);
  }

  /** The text taken up after a scan is the one retained before it. */
  lemma {:induction false} ScannedText(d: Directory, e: Directory, maxBytes: nat, scan: Scan)
    requires scan.Scanned? && ScanReports(d, maxBytes, scan) && Tidy(e, scan.segments) && SameRetained(e, d, maxBytes)
    ensures forall i | 0 <= i < |scan.segments| :: Describes(e, scan.segments[i])
    ensures RetainedTextIs(d, maxBytes, Joined(ContentsOf(e, scan.segments)))
  {
    hide Joined, Retained;
    ContentsAreThere(e, scan.segments);
    TextOfSegments(e, scan.segments, ContentsOf(e, scan.segments), maxBytes);
    assert SameRetained(d, e, maxBytes);
    SameRetainedText(d, e, maxBytes, Joined(ContentsOf(e, scan.segments)));
  }

  /** The current directory is the last one recorded. */
  lemma {:induction false} CurrentText(history: seq<Directory>, past: seq<Directory>, d: Directory, maxBytes: nat)
    requires past != [] && past <= history && past[|past| - 1] == d && AllKeepText(history, |past|, d, maxBytes)
    ensures SameRetained(history[|history| - 1], d, maxBytes)
  {
  }

  lemma {:induction false} MarkerIsNoText(d: Directory, name: Name, marker: Bytes, maxBytes: nat)
    requires !name.RawSegment?
    ensures SameRetained(d - {name}, d, maxBytes) && SameRetained(d[name := marker], d, maxBytes)
  {
    assert forall n: nat :: Real(d - {name}, n) <==> Real(d, n);
    assert forall n: nat :: Real(d[name := marker], n) <==> Real(d, n);
    SameBytesSameRetained(d - {name}, d, maxBytes);
    SameBytesSameRetained(d[name := marker], d, maxBytes);
  }

  /** A new segment with bytes in it ends the retained text; an empty one does not matter. */
  lemma {:induction false} TextWithNew(d: Directory, segments: seq<Segment>, contents: seq<Bytes>, maxBytes: nat, n: nat,
        bytes: Bytes)
    requires Tidy(d, segments) && Holds(d, segments, contents) && Follows(segments, n)
    ensures RetainedTextIs(WithBytes(d, n, bytes), maxBytes,
                           Joined(LastContents(if bytes == [] then contents else contents + [bytes], maxBytes)))
  {
    hide Joined, Tidy, Holds, Follows, LastContents;
    NothingAtNext(d, segments, n);
    assert [] + bytes == bytes;
    var e := d[RawSegment(n) := bytes];
    if bytes == [] {
      TextOfSegments(d, segments, contents, maxBytes);
      EmptyIsNoText(d, n, maxBytes);
      SameRetainedText(e, d, maxBytes, Joined(LastContents(contents, maxBytes)));
    } else {
      TidyWithNew(d, segments, n, bytes);
      HoldsWithNew(d, segments, contents, n, bytes);
      TextOfSegments(e, segments + [Segment(n, |bytes|, false)], contents + [bytes], maxBytes);
    }
  }

  lemma {:induction false} EmptyIsNoText(d: Directory, n: nat, maxBytes: nat)
    requires RawSegment(n) !in d
    ensures SameRetained(d[RawSegment(n) := []], d, maxBytes)
  {
    assert forall k: nat :: Real(d[RawSegment(n) := []], k) <==> Real(d, k);
    SameBytesSameRetained(d[RawSegment(n) := []], d, maxBytes);
  }

  lemma {:induction false} TextWithMore(d: Directory, segments: seq<Segment>, contents: seq<Bytes>, maxBytes: nat, bytes: Bytes)
    requires Tidy(d, segments) && Holds(d, segments, contents) && segments != []
    ensures |contents| == |segments|
    ensures var last := |segments| - 1;
            RetainedTextIs(WithBytes(d, segments[last].sequence, bytes), maxBytes,
                           Joined(LastContents(contents[last := contents[last] + bytes], maxBytes)))
  {
    hide Joined, Tidy, LastContents;
    var last := |segments| - 1;
    var content := contents[last] + bytes;
    LastNotEmpty(d, segments, contents);
    TidyWithMore(d, segments, content);
    HoldsWithMore(d, segments, contents, bytes);
    TextOfSegments(d[RawSegment(segments[last].sequence) := content], segments[last := segments[last].(byteCount := |content|)],
                   contents[last := content], maxBytes);
  }

  lemma {:induction false} LastNotEmpty(d: Directory, segments: seq<Segment>, contents: seq<Bytes>)
    requires Tidy(d, segments) && Holds(d, segments, contents) && segments != []
    ensures contents[|segments| - 1] != []
  {
    assert Describes(d, segments[|segments| - 1]);
  }

  // ---- Every directory of a write survives -----------------------------------------------

  lemma {:induction false} LastIsSuffix(contents: seq<Bytes>, maxBytes: nat, base: Bytes)
    requires IsSuffix(Joined(contents), base)
    ensures IsSuffix(Joined(LastContents(contents, maxBytes)), base)
  {
    hide Joined, IsSuffix;
    JoinedSuffix(contents, |contents| - |LastContents(contents, maxBytes)|);
    SuffixOfSuffix(Joined(LastContents(contents, maxBytes)), Joined(contents), base);
  }

  lemma {:induction false} EndsWithPiece(contents: seq<Bytes>, maxBytes: nat, base: Bytes, piece: Bytes)
    requires IsSuffix(Joined(contents), base)
    ensures IsSuffix(Joined(LastContents(contents + [piece], maxBytes)), base + piece)
  {
    hide Joined, IsSuffix, LastContents;
    JoinedPush(contents, piece);
    SuffixOfExtended(Joined(contents), base, piece);
    LastIsSuffix(contents + [piece], maxBytes, base + piece);
  }

  lemma {:induction false} EndsWithMore(contents: seq<Bytes>, maxBytes: nat, base: Bytes, piece: Bytes)
    requires IsSuffix(Joined(contents), base) && contents != []
    ensures var last := |contents| - 1;
            IsSuffix(Joined(LastContents(contents[last := contents[last] + piece], maxBytes)), base + piece)
  {
    hide Joined, IsSuffix, LastContents;
    JoinedGrow(contents, piece);
    SuffixOfExtended(Joined(contents), base, piece);
    LastIsSuffix(contents[|contents| - 1 := contents[|contents| - 1] + piece], maxBytes, base + piece);
  }

  lemma {:induction false} NewSegmentSurvives(history: seq<Directory>, from: nat, d: Directory, segments: seq<Segment>,
        contents: seq<Bytes>,
                           maxBytes: nat, n: nat, base: Bytes, rest: Bytes, size: nat)
    requires Tidy(d, segments) && Holds(d, segments, contents) && Follows(segments, n) && IsSuffix(Joined(contents), base)
    requires size <= |rest| && AllWritten(history, from, d, n, rest[..size])
    ensures AllSurvive(history, from, maxBytes, base, rest)
  {
    hide Tidy, Holds, Follows, IsSuffix, Joined, LastContents, RetainedTextIs, WithBytes;
    forall i | from <= i < |history|
      ensures Survives(history[i], maxBytes, base, rest)
    {
      assert Written(history[i], d, n, rest[..size]);
      var k: nat :| k <= size && history[i] == WithBytes(d, n, rest[..size][..k]);
      assert rest[..size][..k] == rest[..k] && base + rest[..0] == base;
      TextWithNew(d, segments, contents, maxBytes, n, rest[..k]);
      if k == 0 {
        LastIsSuffix(contents, maxBytes, base);
      } else {
        EndsWithPiece(contents, maxBytes, base, rest[..k]);
      }
    }
  }

  lemma {:induction false} MoreSurvives(history: seq<Directory>, from: nat, d: Directory, segments: seq<Segment>,
        contents: seq<Bytes>,
                     maxBytes: nat, base: Bytes, rest: Bytes, size: nat)
    requires Tidy(d, segments) && Holds(d, segments, contents) && segments != [] && IsSuffix(Joined(contents), base)
    requires size <= |rest| && AllWritten(history, from, d, segments[|segments| - 1].sequence, rest[..size])
    ensures AllSurvive(history, from, maxBytes, base, rest)
  {
    hide Tidy, IsSuffix, Joined, LastContents, RetainedTextIs, WithBytes;
    forall i | from <= i < |history|
      ensures Survives(history[i], maxBytes, base, rest)
    {
      assert Written(history[i], d, segments[|segments| - 1].sequence, rest[..size]);
      var k: nat :| k <= size && history[i] == WithBytes(d, segments[|segments| - 1].sequence, rest[..size][..k]);
      assert rest[..size][..k] == rest[..k];
      TextWithMore(d, segments, contents, maxBytes, rest[..k]);
      EndsWithMore(contents, maxBytes, base, rest[..k]);
    }
  }

  /** The current directory of a running writer survives. */
  lemma {:induction false} RunningSurvives(d: Directory, segments: seq<Segment>, contents: seq<Bytes>, maxBytes: nat,
        base: Bytes, rest: Bytes)
    requires Tidy(d, segments) && Holds(d, segments, contents) && IsSuffix(Joined(contents), base)
    ensures Survives(d, maxBytes, base, rest)
  {
    hide Tidy, Holds, IsSuffix, Joined, LastContents, RetainedTextIs;
    TextOfSegments(d, segments, contents, maxBytes);
    LastIsSuffix(contents, maxBytes, base);
    assert base + rest[..0] == base;
  }

  lemma {:induction false} EndsAfterPrune(contents: seq<Bytes>, whole: Bytes, piece: Bytes, dropped: nat)
    requires IsSuffix(Joined(contents), whole) && dropped <= |contents| + 1
    ensures IsSuffix(Joined((contents + [piece])[dropped..]), whole + piece)
  {
    hide Joined, IsSuffix;
    JoinedPush(contents, piece);
    SuffixOfExtended(Joined(contents), whole, piece);
    JoinedSuffix(contents + [piece], dropped);
    SuffixOfSuffix(Joined((contents + [piece])[dropped..]), Joined(contents + [piece]), whole + piece);
  }

  // ---- Every directory of a replacement ---------------------------------------------------

  /** What a writer that has nothing left to prune retains, and retained before. */
  lemma {:induction false} RunningText(e: Directory, d: Directory, segments: seq<Segment>, contents: seq<Bytes>, maxBytes: nat)
    requires Tidy(e, segments) && Holds(e, segments, contents) && |segments| <= RetainedSegmentLimit(maxBytes)
    requires SameRetained(e, d, maxBytes)
    ensures RetainedTextIs(d, maxBytes, Joined(contents)) && |contents| == |segments|
    ensures forall i | 0 <= i < |contents| :: contents[i] != []
  {
    hide Joined, RetainedTextIs, SameRetained, Real;
    TextOfSegments(e, segments, contents, maxBytes);
    assert LastContents(contents, maxBytes) == contents;
    SameBothWays(e, d, maxBytes);
    SameRetainedText(d, e, maxBytes, Joined(contents));
    forall i | 0 <= i < |contents|
      ensures contents[i] != []
    {
      ContentsAreThere(e, segments);
    }
  }

  /** A writer that has nothing left to prune retains what it holds. */
  lemma {:induction false} NowAppended(e: Directory, d: Directory, segments: seq<Segment>, contents: seq<Bytes>,
        maxBytes: nat, whole: Bytes, bytes: Bytes)
    requires Tidy(e, segments) && Holds(e, segments, contents) && |segments| <= RetainedSegmentLimit(maxBytes)
    requires RetainedTextIs(d, maxBytes, whole) && IsSuffix(Joined(contents), whole + bytes)
    ensures Appended(e, d, maxBytes, bytes)
  {
    hide Tidy, Holds, RetainedTextIs, Joined, IsSuffix, RetainedSegmentLimit, SameRetained, Appended;
    NothingKept([], e, maxBytes);
    RunningText(e, e, segments, contents, maxBytes);
    TextAppended(e, d, maxBytes, whole, bytes, Joined(contents));
  }

  /** The contents of the new segments of a replacement that has written `offset` bytes. */
  ghost predicate NewContents(newContents: seq<Bytes>, maxBytes: nat, n: nat, suffix: Bytes, offset: nat) {
    && offset <= |suffix|
    && (if offset == 0 then newContents == []
        else maxBytes > 1 && offset == SegmentCapacity(maxBytes, n) && newContents == [suffix[..offset]])
  }

  lemma {:induction false} PieceLeaves(contents: seq<Bytes>, newContents: seq<Bytes>, maxBytes: nat, n: nat,
        suffix: Bytes, offset: nat, k: nat)
    requires |contents| <= RetainedSegmentLimit(maxBytes) && NewContents(newContents, maxBytes, n, suffix, offset)
    requires offset + k <= |suffix| && (offset == 0 ==> k <= SegmentCapacity(maxBytes, n))
    ensures var all := contents + newContents; var piece := suffix[offset..offset + k];
            ReplaceLeaves(contents, maxBytes, n, suffix, Joined(LastContents(if k == 0 then all else all + [piece], maxBytes)))
  {
    hide Joined, SegmentCapacity;
    var all := contents + newContents;
    if offset == 0 {
      assert all == contents && suffix[offset..offset + k] == suffix[..k];
      assert LastContents(contents, maxBytes) == contents;
    } else if k == 0 {
      assert suffix[..offset] == newContents[0];
    } else {
      var piece := suffix[offset..offset + k];
      assert LastContents(all + [piece], maxBytes) == [suffix[..offset], piece];
      JoinedPair(suffix[..offset], piece);
      assert suffix[..offset] + piece == suffix[..offset + k];
    }
  }

  /** The new segments of a replacement that has written `offset` bytes, all but the last finalized. */
  ghost predicate NewRun(newSegments: seq<Segment>, newContents: seq<Bytes>, maxBytes: nat, n: nat, suffix: Bytes, offset: nat) {
    && offset <= |suffix| == maxBytes && |newContents| == |newSegments| && Joined(newContents) == suffix[..offset]
    && Dense(newSegments, newContents, maxBytes, offset == maxBytes, suffix[..offset])
    && (if offset == maxBytes then |newSegments| == RetainedSegmentLimit(maxBytes)
        else NewContents(newContents, maxBytes, n, suffix, offset))
  }

  lemma {:induction false} NothingNew(maxBytes: nat, n: nat, suffix: Bytes)
    requires |suffix| == maxBytes > 0
    ensures NewRun([], [], maxBytes, n, suffix, 0)
  {
    DenseNothing(maxBytes);
  }

  /** How many bytes the next segment of a replacement takes. */
  function PieceSize(maxBytes: nat, n: nat, offset: nat): nat
    requires offset <= maxBytes
  {
    if maxBytes - offset < SegmentCapacity(maxBytes, n) then maxBytes - offset else SegmentCapacity(maxBytes, n)
  }

  lemma {:induction false} PieceSizeIs(maxBytes: nat, n: nat, offset: nat)
    requires offset <= maxBytes
    ensures var capacity := SegmentCapacity(maxBytes, n);
            PieceSize(maxBytes, n, offset) == if maxBytes - offset < capacity then maxBytes - offset else capacity
    ensures PieceSize(maxBytes, n, offset) <= SegmentCapacity(maxBytes, n)
  {
  }

  lemma {:induction false} NewRunStep(newSegments: seq<Segment>, newContents: seq<Bytes>, maxBytes: nat, n: nat,
        suffix: Bytes, offset: nat)
    requires NewRun(newSegments, newContents, maxBytes, n, suffix, offset) && offset < maxBytes
    ensures var size := PieceSize(maxBytes, n + |newSegments|, offset);
            var more := newSegments + [Segment(n + |newSegments|, size, false)];
            && 0 < size && offset + size <= maxBytes
            && NewRun(if offset + size == maxBytes then more else Closed(more), newContents + [suffix[offset..offset + size]],
                      maxBytes, n, suffix, offset + size)
  {
    hide Dense, Joined, SegmentCapacity;
    CapacityPositive(maxBytes, n);
    CapacityPositive(maxBytes, n + 1);
    var size := PieceSize(maxBytes, n + |newSegments|, offset);
    var piece := suffix[offset..offset + size];
    var added := Segment(n + |newSegments|, size, false);
    JoinedPush(newContents, piece);
    assert suffix[..offset] + piece == suffix[..offset + size];
    DenseOpen(newSegments, newContents, maxBytes, suffix[..offset], added, piece);
    if offset + size < maxBytes {
      DenseClose(newSegments + [added], newContents + [piece], maxBytes, suffix[..offset + size]);
    }
  }

  /** A finished replacement. */
  lemma {:induction false} NewRunWhole(segments: seq<Segment>, newSegments: seq<Segment>, newContents: seq<Bytes>,
        maxBytes: nat, n: nat, suffix: Bytes)
    requires NewRun(newSegments, newContents, maxBytes, n, suffix, maxBytes)
    ensures LastSegments(segments + newSegments, maxBytes) == newSegments && |newContents| == |newSegments|
    ensures Joined(newContents) == suffix && forall text :: Dense(newSegments, newContents, maxBytes, true, text)
  {
    hide Joined, Dense;
    assert suffix[..maxBytes] == suffix;
    DenseAtLimit(newSegments, newContents, maxBytes, suffix);
  }

  lemma {:induction false} NewContentsStart(newContents: seq<Bytes>, maxBytes: nat, n: nat, suffix: Bytes, offset: nat)
    ensures NewContents(newContents, maxBytes, n, suffix, offset) ==> offset <= |suffix| && (offset == 0 <==> newContents == [])
  {
  }

  lemma {:induction false} PieceKeepsReplaced(history: seq<Directory>, from: nat, d: Directory, segments: seq<Segment>,
        contents: seq<Bytes>,
                      newSegments: seq<Segment>, newContents: seq<Bytes>, maxBytes: nat, n: nat, suffix: Bytes, offset: nat, size: nat)
    requires Tidy(d, segments) && Holds(d, segments, contents + newContents) && Follows(segments, n + |newContents|)
    requires |contents| <= RetainedSegmentLimit(maxBytes) && NewRun(newSegments, newContents, maxBytes, n, suffix, offset)
    requires offset < maxBytes && size == PieceSize(maxBytes, n + |newContents|, offset)
    requires AllWritten(history, from, d, n + |newContents|, suffix[offset..offset + size])
    ensures AllReplaced(history, from, contents, maxBytes, n, suffix)
  {
    hide Tidy, Holds, Follows, Joined, LastContents, RetainedTextIs, WithBytes, NewContents, ReplaceLeaves, SegmentCapacity,
         RetainedSegmentLimit, Dense;
    NewContentsStart(newContents, maxBytes, n, suffix, offset);
    var all, next := contents + newContents, n + |newContents|;
    forall i | from <= i < |history|
      ensures Replaced(history[i], contents, maxBytes, n, suffix)
    {
      assert Written(history[i], d, next, suffix[offset..offset + size]);
      var k: nat :| k <= size && history[i] == WithBytes(d, next, suffix[offset..offset + size][..k]);
      var piece := suffix[offset..offset + k];
      assert suffix[offset..offset + size][..k] == piece;
      TextWithNew(d, segments, all, maxBytes, next, piece);
      PieceLeaves(contents, newContents, maxBytes, n, suffix, offset, k);
      assert k == 0 <==> piece == [];
    }
  }

  lemma {:induction false} PiecesRecorded(history: seq<Directory>, from: nat, was: nat, d: Directory,
        segments: seq<Segment>, contents: seq<Bytes>,
                       maxBytes: nat, n: nat, suffix: Bytes, size: nat)
    requires Tidy(d, segments) && Holds(d, segments, contents) && Follows(segments, n) && from <= was
    requires size <= |suffix| && (size == |suffix| || size == SegmentCapacity(maxBytes, n))
    requires EachWritten(history, was, d, n, suffix[..size])
    ensures EachPieceRecorded(history, from, contents, maxBytes, n, suffix)
  {
    hide Tidy, Holds, Follows, Joined, LastContents, RetainedTextIs, WithBytes, SegmentCapacity;
    forall j: nat | 1 <= j <= |suffix| && j <= SegmentCapacity(maxBytes, n)
      ensures RecordedText(history, from, maxBytes, Joined(LastContents(contents + [suffix[..j]], maxBytes)))
    {
      assert suffix[..size][..j] == suffix[..j];
      assert Recorded(history, was, WithBytes(d, n, suffix[..size][..j]));
      var i :| was <= i < |history| && history[i] == WithBytes(d, n, suffix[..j]);
      TextWithNew(d, segments, contents, maxBytes, n, suffix[..j]);
      assert RetainedTextIs(history[i], maxBytes, Joined(LastContents(contents + [suffix[..j]], maxBytes)));
    }
  }

  /** One more segment of a replacement. */
  lemma {:induction false} PieceReplaces(was: seq<Directory>, history: seq<Directory>, from: nat, d: Directory,
        segments: seq<Segment>, contents: seq<Bytes>,
                      newSegments: seq<Segment>, newContents: seq<Bytes>, maxBytes: nat, n: nat, suffix: Bytes, offset: nat, size: nat,
                      ok: bool)
    requires Tidy(d, segments) && Holds(d, segments, contents + newContents) && Follows(segments, n + |newContents|)
    requires |contents| <= RetainedSegmentLimit(maxBytes) && NewRun(newSegments, newContents, maxBytes, n, suffix, offset)
    requires offset < maxBytes && size == PieceSize(maxBytes, n + |newContents|, offset)
    requires was <= history && ReplacedSoFar(was, from, contents, maxBytes, n, suffix, offset)
    requires AllWritten(history, |was|, d, n + |newContents|, suffix[offset..offset + size])
    requires ok ==> EachWritten(history, |was|, d, n + |newContents|, suffix[offset..offset + size])
    ensures AllReplaced(history, from, contents, maxBytes, n, suffix)
    ensures ok ==> ReplacedSoFar(history, from, contents, maxBytes, n, suffix, offset + size)
  {
    hide Tidy, Holds, Follows, SegmentCapacity, AllReplaced, EachPieceRecorded, AllWritten, EachWritten, PieceSize,
          RetainedSegmentLimit;
    PieceKeepsReplaced(history, |was|, d, segments, contents, newSegments, newContents, maxBytes, n, suffix, offset, size);
    ReplacedTwice(was, history, from, contents, maxBytes, n, suffix);
    if ok {
      NewRunStep(newSegments, newContents, maxBytes, n, suffix, offset);
      EachIsNew(history, |was|, d, n + |newContents|, suffix[offset..offset + size]);
      if offset == 0 {
        assert contents + newContents == contents && suffix[..size] == suffix[offset..offset + size];
        PieceSizeIs(maxBytes, n, 0);
        PiecesRecorded(history, from, |was|, d, segments, contents, maxBytes, n, suffix, size);
      } else {
        StillRecorded(was, history, from, contents, maxBytes, n, suffix);
      }
    }
  }

  /** A new segment is created empty and then written. */
  lemma {:induction false} CreatedThenWritten(past: seq<Directory>, history: seq<Directory>, d: Directory, n: nat, bytes: Bytes)
    requires RawSegment(n) !in d && past + [d[RawSegment(n) := []]] <= history
    requires forall i | |past| + 1 <= i < |history| :: PartlyAppended(history[i], d[RawSegment(n) := []], RawSegment(n), bytes)
    ensures AllWritten(history, |past|, d, n, bytes)
  {
    var created := d[RawSegment(n) := []];
    forall i | |past| <= i < |history|
      ensures Written(history[i], d, n, bytes)
    {
      if i == |past| {
        assert (past + [created])[i] == created && [] + bytes[..0] == [];
        assert history[i] == WithBytes(d, n, bytes[..0]);
      } else {
        var k: nat :| k <= |bytes| && history[i] == created[RawSegment(n) := created[RawSegment(n)] + bytes[..k]];
        assert history[i] == WithBytes(d, n, bytes[..k]);
      }
    }
  }

  lemma {:induction false} EachThenWritten(past: seq<Directory>, history: seq<Directory>, d: Directory, n: nat, bytes: Bytes)
    requires RawSegment(n) !in d && |history| == |past| + 1 + |bytes|
    requires forall k | 1 <= k <= |bytes| :: history[|past| + k] == d[RawSegment(n) := []][RawSegment(n) := [] + bytes[..k]]
    ensures EachWritten(history, |past|, d, n, bytes)
  {
    forall k: nat | 1 <= k <= |bytes|
      ensures Recorded(history, |past|, WithBytes(d, n, bytes[..k]))
    {
      assert history[|past| + k] == WithBytes(d, n, bytes[..k]);
    }
  }

  /** A history stays acceptable while bytes are written at the end of the run. */
  lemma {:induction false} WrittenKeeps(past: seq<Directory>, history: seq<Directory>, d: Directory, maxBytes: nat,
        n: nat, bytes: Bytes)
    requires past <= history && AllAccepted(past, maxBytes) && AllWritten(history, |past|, d, n, bytes)
    requires WellFormed(d, maxBytes) && Completion !in d && AtEnd(d, n) && ValidSequence(n)
    requires RawSegment(n) !in d ==> FinalizedMarker(n) !in d
    requires (if RawSegment(n) in d then |d[RawSegment(n)]| else 0) + |bytes| <= SegmentCapacity(maxBytes, n)
    ensures AllAccepted(history, maxBytes)
  {
    hide WellFormed, AtEnd, SegmentCapacity;
    var begun := if RawSegment(n) in d then d else d[RawSegment(n) := []];
    if RawSegment(n) !in d {
      CreateRawKeeps(d, maxBytes, n);
      AtEndAfterCreation(d, n);
    }
    forall i | 0 <= i < |history|
      ensures WellFormed(history[i], maxBytes)
    {
      if i < |past| {
        assert history[i] == past[i];
      } else {
        assert Written(history[i], d, n, bytes);
        var k: nat :| k <= |bytes| && history[i] == WithBytes(d, n, bytes[..k]);
        assert history[i] == begun[RawSegment(n) := begun[RawSegment(n)] + bytes[..k]];
        PartialAppendKeeps(begun, maxBytes, n, bytes, history[i]);
      }
    }
  }

  lemma {:induction false} OnlyWritten(past: seq<Directory>, history: seq<Directory>, d: Directory, n: nat, bytes: Bytes)
    requires RawSegment(n) in d && past <= history
    requires forall i | |past| <= i < |history| :: PartlyAppended(history[i], d, RawSegment(n), bytes)
    ensures AllWritten(history, |past|, d, n, bytes)
  {
    forall i | |past| <= i < |history|
      ensures Written(history[i], d, n, bytes)
    {
      var k: nat :| k <= |bytes| && history[i] == d[RawSegment(n) := d[RawSegment(n)] + bytes[..k]];
      assert history[i] == WithBytes(d, n, bytes[..k]);
    }
  }

  /** A directory the writer can start from. */
  ghost predicate Openable(d: Directory, maxBytes: nat) {
    0 < maxBytes <= MAX_CAPTURE_BYTES && WellFormed(d, maxBytes) && !Real(d, MAX_SEQUENCE)
  }

  lemma {:induction false} CapacityPositive(maxBytes: nat, n: nat)
    requires 0 < maxBytes
    ensures 0 < SegmentCapacity(maxBytes, n) <= maxBytes
    ensures maxBytes > 1 ==> SegmentCapacity(maxBytes, n) + SegmentCapacity(maxBytes, n + 1) == maxBytes
    ensures maxBytes / 2 <= SegmentCapacity(maxBytes, n)
  {
  }

  function Grown(segments: seq<Segment>, more: nat): seq<Segment>
    requires segments != []
  {
    var last := |segments| - 1;
    segments[last := segments[last].(byteCount := segments[last].byteCount + more)]
  }

  function Closed(segments: seq<Segment>): seq<Segment>
    requires segments != []
  {
    segments[|segments| - 1 := segments[|segments| - 1].(finalized := true)]
  }

  lemma {:induction false} FollowsAfterPrune(d: Directory, segments: seq<Segment>, n: nat)
    requires Tidy(d, segments) && Follows(segments, n) && segments != []
    ensures Follows(segments[1..], n)
  {
    assert |segments| > 1 ==> segments[1].sequence == segments[0].sequence + 1;
  }

  lemma {:induction false} AllFinalizedTidy(d: Directory, segments: seq<Segment>, maxBytes: nat)
    requires Tidy(d, segments) && forall i | 0 <= i < |segments| :: segments[i].finalized
    ensures forall n: nat | Retained(d, maxBytes, n) :: Finalized(d, n)
  {
    AllFinalized(d, segments, maxBytes);
  }

  /** The last bytes of an append are a suffix of everything appended. */
  lemma {:induction false} EndsWith(start: Bytes, appended: Bytes, bytes: Bytes, size: nat)
    requires size <= |bytes|
    ensures IsSuffix(bytes[|bytes| - size..], start + (appended + bytes))
  {
    assert start + (appended + bytes) == start + appended + bytes;
    EndsWithLast(start + appended, bytes, size);
  }

  lemma {:induction false} EndsWithLast(whole: Bytes, bytes: Bytes, size: nat)
    requires size <= |bytes|
    ensures IsSuffix(bytes[|bytes| - size..], whole + bytes)
  {
    assert (whole + bytes)[|whole + bytes| - size..] == bytes[|bytes| - size..];
  }

  lemma {:induction false} WholeIsSuffix(text: Bytes)
    ensures IsSuffix(text, text + [])
  {
    assert text + [] == text;
  }

  /** Taking up the segments a scan kept. */
  lemma {:induction false} TakesUp(d: Directory, e: Directory, maxBytes: nat, scan: Scan)
    requires WellFormed(d, maxBytes) && scan.Scanned? && ScanReports(d, maxBytes, scan) && Tidy(e, scan.segments)
    ensures |scan.segments| <= RetainedSegmentLimit(maxBytes)
    ensures Real(d, MAX_SEQUENCE) <==> scan.segments != [] && scan.segments[|scan.segments| - 1].sequence == MAX_SEQUENCE
    ensures scan.segments != [] ==>
      var last := scan.segments[|scan.segments| - 1].sequence;
      ValidSequence(last) && (last != MAX_SEQUENCE ==> ValidSequence(last + 1)) && Follows(scan.segments, last + 1)
    ensures Follows(scan.segments, 1) || scan.segments != []
    ensures forall n: nat :: Retained(d, maxBytes, n) <==> InRun(scan.segments, n)
    ensures d == map[] ==> scan.segments == []
  {
    var found := scan.segments;
    if found != [] {
      var last := found[|found| - 1];
      assert Describes(d, last) && RawSegment(last.sequence) in d;
      assert last.sequence == found[0].sequence + |found| - 1;
    }
    if Real(d, MAX_SEQUENCE) {
      assert RawSegment(MAX_SEQUENCE + RetainedSegmentLimit(maxBytes)) !in d;
      assert Retained(d, maxBytes, MAX_SEQUENCE);
      assert InRun(found, MAX_SEQUENCE);
    }
    if found != [] {
      assert Describes(d, found[0]);
    }
  }

  lemma {:induction false} ContentsAreThere(d: Directory, segments: seq<Segment>)
    requires Tidy(d, segments)
    ensures forall i | 0 <= i < |segments| :: Describes(d, segments[i])
    ensures forall i | 0 <= i < |segments| :: ContentsOf(d, segments)[i] != []
    ensures |ContentsOf(d, segments)| == |segments|
  {
    forall i | 0 <= i < |segments|
      ensures Describes(d, segments[i]) && ContentsOf(d, segments)[i] != []
    {
      assert Holds(d, segments, ContentsOf(d, segments));
    }
  }

  lemma {:induction false} DenseNothing(maxBytes: nat)
    ensures Joined([]) == [] && Dense([], [], maxBytes, false, [])
  {
  }

  lemma {:induction false} DenseAtLimit(segments: seq<Segment>, contents: seq<Bytes>, maxBytes: nat, appended: Bytes)
    requires Dense(segments, contents, maxBytes, true, appended) && |segments| >= RetainedSegmentLimit(maxBytes)
    ensures forall text :: Dense(segments, contents, maxBytes, true, text)
  {
  }

  lemma {:induction false} DenseClose(segments: seq<Segment>, contents: seq<Bytes>, maxBytes: nat, appended: Bytes)
    requires Dense(segments, contents, maxBytes, true, appended) && segments != []
    requires Full(segments[|segments| - 1], maxBytes)
    ensures Dense(Closed(segments), contents, maxBytes, false, appended)
  {
  }

  lemma {:induction false} DenseLast(segments: seq<Segment>, contents: seq<Bytes>, maxBytes: nat, open: bool, appended: Bytes)
    requires Dense(segments, contents, maxBytes, open, appended) && |contents| == |segments|
    ensures var kept := LastSegments(segments, maxBytes);
            Dense(kept, contents[|segments| - |kept|..], maxBytes, open, appended)
  {
    hide Dense;
    assert contents[0..] == contents;
    if |segments| > RetainedSegmentLimit(maxBytes) {
      DenseDrop(segments, contents, maxBytes, open, appended);
      DenseLast(segments[1..], contents[1..], maxBytes, open, appended);
      var kept := LastSegments(segments, maxBytes);
      assert LastSegments(segments[1..], maxBytes) == kept;
      assert contents[1..][|segments| - 1 - |kept|..] == contents[|segments| - |kept|..];
    }
  }

  lemma {:induction false} KeepsOpened(start: Bytes, segments: seq<Segment>, contents: seq<Bytes>, maxBytes: nat,
                    text: Bytes, older: nat, added: Segment, piece: Bytes)
    requires Keeps(start, segments, contents, maxBytes, false, text, older)
    ensures Keeps(start, segments + [added], contents + [piece], maxBytes, true, text + piece, older)
  {
    hide Dense, Joined;
    JoinedPush(contents, piece);
    SuffixOfExtended(Joined(contents), start + text, piece);
    assert start + text + piece == start + (text + piece);
    DenseOpen(segments[older..], contents[older..], maxBytes, text, added, piece);
    assert (segments + [added])[older..] == segments[older..] + [added];
    assert (contents + [piece])[older..] == contents[older..] + [piece];
  }

  lemma {:induction false} KeepsGrown(start: Bytes, segments: seq<Segment>, contents: seq<Bytes>, maxBytes: nat,
                   text: Bytes, older: nat, s: Segment, piece: Bytes)
    requires Keeps(start, segments, contents, maxBytes, true, text, older)
    ensures |contents| == |segments| > 0
    ensures var last := |segments| - 1;
            Keeps(start, segments[last := s], contents[last := contents[last] + piece], maxBytes, true, text + piece, older)
  {
    hide Dense, Joined;
    var last := |segments| - 1;
    JoinedGrow(contents, piece);
    SuffixOfExtended(Joined(contents), start + text, piece);
    assert start + text + piece == start + (text + piece);
    DenseGrow(segments[older..], contents[older..], maxBytes, text, s, piece);
    assert segments[last := s][older..] == segments[older..][last - older := s];
    assert contents[last := contents[last] + piece][older..] == contents[older..][last - older := contents[last] + piece];
  }

  lemma {:induction false} KeepsClosed(start: Bytes, segments: seq<Segment>, contents: seq<Bytes>, maxBytes: nat,
        text: Bytes, older: nat)
    requires Keeps(start, segments, contents, maxBytes, true, text, older) && segments != []
    requires Full(segments[|segments| - 1], maxBytes)
    ensures Keeps(start, Closed(segments), contents, maxBytes, false, text, older)
  {
    hide Dense, Joined;
    DenseClose(segments[older..], contents[older..], maxBytes, text);
    assert Closed(segments)[older..] == Closed(segments[older..]);
  }

  /** What finalization may rely on. */
  lemma {:induction false} KeepsAnyOpen(start: Bytes, segments: seq<Segment>, contents: seq<Bytes>, maxBytes: nat, open: bool,
                     text: Bytes, older: nat)
    requires Keeps(start, segments, contents, maxBytes, open, text, older)
    ensures IsSuffix(Joined(contents), start + text) && older <= |segments|
    ensures !open ==> forall i | older <= i < |segments| :: segments[i].finalized
    ensures segments != [] ==> forall i | older <= i < |segments| :: Closed(segments)[i].finalized
  {
    assert forall i | older <= i < |segments| :: segments[i] == segments[older..][i - older];
  }

  function StillOlder(older: nat, dropped: nat): nat {
    if older > dropped then older - dropped else 0
  }

  /** When nothing listed is older. */
  lemma {:induction false} AllNewer(start: Bytes, segments: seq<Segment>, contents: seq<Bytes>, maxBytes: nat,
        open: bool, text: Bytes)
    requires |contents| == |segments| && IsSuffix(Joined(contents), start + text) && (open ==> segments != [])
    requires Dense(segments, contents, maxBytes, open, text)
    ensures Keeps(start, segments, contents, maxBytes, open, text, 0)
  {
    assert segments[0..] == segments && contents[0..] == contents;
  }

  lemma {:induction false} NoneNewer(segments: seq<Segment>, contents: seq<Bytes>, maxBytes: nat)
    requires |contents| == |segments|
    ensures Keeps(Joined(contents), segments, contents, maxBytes, false, [], |segments|)
  {
    hide Joined;
    DenseNothing(maxBytes);
    WholeIsSuffix(Joined(contents));
    assert segments[|segments|..] == [] && contents[|segments|..] == [];
  }

  lemma {:induction false} KeepsPruned(start: Bytes, segments: seq<Segment>, contents: seq<Bytes>, maxBytes: nat, open: bool,
                    text: Bytes, older: nat)
    requires Keeps(start, segments, contents, maxBytes, open, text, older)
    ensures var kept := LastSegments(segments, maxBytes); var dropped := |segments| - |kept|;
            |contents| == |segments|
            && Keeps(start, kept, contents[dropped..], maxBytes, open, text, StillOlder(older, dropped))
  {
    hide Dense, Joined;
    var kept := LastSegments(segments, maxBytes);
    var dropped := |segments| - |kept|;
    KeepsDropped(contents, dropped, start, text);
    if dropped <= older {
      assert kept[older - dropped..] == segments[older..] && contents[dropped..][older - dropped..] == contents[older..];
    } else {
      DenseLast(segments[older..], contents[older..], maxBytes, open, text);
      assert LastSegments(segments[older..], maxBytes) == kept;
      assert contents[older..][|segments| - older - |kept|..] == contents[dropped..];
      assert kept[0..] == kept && contents[dropped..][0..] == contents[dropped..];
    }
  }

  lemma {:induction false} KeepsDropped(contents: seq<Bytes>, count: nat, start: Bytes, text: Bytes)
    requires IsSuffix(Joined(contents), start + text) && count <= |contents|
    ensures IsSuffix(Joined(contents[count..]), start + text)
  {
    if count == 0 {
      assert contents[0..] == contents;
    } else {
      JoinedDrop(contents);
      SuffixOfSuffix(Joined(contents[1..]), Joined(contents), start + text);
      KeepsDropped(contents[1..], count - 1, start, text);
      assert contents[1..][count - 1..] == contents[count..];
    }
  }

  lemma {:induction false} TextGrows(text: Bytes, bytes: Bytes, offset: nat, size: nat)
    requires offset + size <= |bytes|
    ensures text + bytes[..offset] + bytes[offset..][..size] == text + bytes[..offset + size]
  {
  }

  lemma {:induction false} HoldsLength(d: Directory, segments: seq<Segment>, contents: seq<Bytes>)
    requires Holds(d, segments, contents)
    ensures |contents| == |segments|
  {
  }

  lemma {:induction false} RealIsRaw(d: Directory, n: nat)
    ensures Real(d, n) ==> RawSegment(n) in d && AtEnd(d, n)
  {
  }

  lemma {:induction false} MarkerNotCut(d: Directory, segments: seq<Segment>, n: nat, maxBytes: nat)
    requires Tidy(d, segments) && WellFormed(d, maxBytes) && Real(d, n)
    ensures InspectMarker(d, FinalizedMarker(n), FINALIZED_MARKER) != InvalidMarker
    ensures !(FinalizedMarker(n) in d && d[FinalizedMarker(n)] < FINALIZED_MARKER)
  {
    assert FinalizedMarker(n) in d ==> !IsLitter(d, FinalizedMarker(n));
  }

  lemma {:induction false} CompletionNotCut(d: Directory, segments: seq<Segment>, maxBytes: nat)
    requires Tidy(d, segments) && WellFormed(d, maxBytes)
    ensures InspectMarker(d, Completion, COMPLETION_MARKER) != InvalidMarker
    ensures !(Completion in d && d[Completion] < COMPLETION_MARKER)
  {
    assert Completion in d ==> !IsLitter(d, Completion);
  }

  lemma {:induction false} HoldsForSequences(d: Directory, segments: seq<Segment>, changed: seq<Segment>, contents: seq<Bytes>)
    requires Holds(d, segments, contents)
    requires |changed| == |segments| && forall i | 0 <= i < |segments| :: changed[i].sequence == segments[i].sequence
    ensures Holds(d, changed, contents)
  {
  }

  lemma {:induction false} AtEndAfterCreation(d: Directory, n: nat)
    requires RawSegment(n) !in d && AtEnd(d, n)
    ensures AtEnd(d[RawSegment(n) := []], n)
  {
    var e := d[RawSegment(n) := []];
    assert forall k: nat :: Real(e, k) <==> Real(d, k);
    forall k: nat | Real(e, k)
      ensures k < n && forall c: nat | k <= c < n :: Real(e, c)
    {
      assert Real(d, k);
    }
  }

  lemma {:induction false} SequencesBelow(d: Directory, segments: seq<Segment>, n: nat)
    requires Tidy(d, segments) && Follows(segments, n)
    ensures forall i | 0 <= i < |segments| :: segments[i].sequence < n && Real(d, segments[i].sequence)
  {
    forall i | 0 <= i < |segments|
      ensures segments[i].sequence < n && Real(d, segments[i].sequence)
    {
      assert Describes(d, segments[i]);
    }
  }
}
