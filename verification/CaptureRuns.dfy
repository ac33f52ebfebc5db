/** Whole runs of a capture writer: what any directory retains after an interruption
    anywhere in a sequence of operations. */
module CaptureRuns {
  import opened CaptureDisk
  import opened CaptureText
  import opened CaptureScan
  import opened CaptureSegments
  import opened CaptureWriter

  datatype Operation = AppendBytes(bytes: Bytes) | FinalizeCapture

  /** Everything the appends of a run were given. */
  function BytesOf(operations: seq<Operation>): Bytes {
    if operations == [] then []
    else
      var last := operations[|operations| - 1];
      BytesOf(operations[..|operations| - 1]) + if last.AppendBytes? then last.bytes else []
  }

  /** No append of the run skips bytes. */
  predicate NothingSkipped(operations: seq<Operation>, maxBytes: nat) {
    forall i | 0 <= i < |operations| && operations[i].AppendBytes? :: |operations[i].bytes| <= maxBytes || maxBytes == 1
  }

  /** Every directory from `from` on retains the end of what `d` did and some of the bytes. */
  ghost predicate RunSurvives(history: seq<Directory>, from: nat, d: Directory, maxBytes: nat, given: Bytes) {
    forall base: Bytes | RetainedTextIs(d, maxBytes, base) :: AllSurvive(history, from, maxBytes, base, given)
  }

  lemma {:induction false} EmptyRun(history: seq<Directory>, d: Directory, maxBytes: nat)
    ensures RunSurvives(history, |history|, d, maxBytes, []) && Appended(d, d, maxBytes, [])
  {
    NothingAppended(d, d, maxBytes);
  }

  lemma {:induction false} RunGivenMore(history: seq<Directory>, from: nat, d: Directory, maxBytes: nat, given: Bytes,
        more: Bytes)
    requires RunSurvives(history, from, d, maxBytes, given)
    ensures RunSurvives(history, from, d, maxBytes, given + more)
  {
    hide RetainedTextIs, AllSurvive;
    forall base: Bytes | RetainedTextIs(d, maxBytes, base)
      ensures AllSurvive(history, from, maxBytes, base, given + more)
    {
      AllSurviveMore(history, from, maxBytes, base, given, more);
    }
  }

  /** What survives an append to the end of `whole` and `given` survives both. */
  lemma {:induction false} SurvivesBefore(d: Directory, maxBytes: nat, text: Bytes, bytes: Bytes, base: Bytes, given: Bytes)
    requires Survives(d, maxBytes, text, bytes) && IsSuffix(text, base + given)
    ensures Survives(d, maxBytes, base, given + bytes)
  {
    hide RetainedTextIs, IsSuffix;
    var kept: Bytes, k: nat :| k <= |bytes| && RetainedTextIs(d, maxBytes, kept) && IsSuffix(kept, text + bytes[..k]);
    SuffixOfExtended(text, base + given, bytes[..k]);
    SuffixOfSuffix(kept, text + bytes[..k], base + given + bytes[..k]);
    assert base + given + bytes[..k] == base + (given + bytes)[..|given| + k];
  }

  /** One more append of a run. */
  lemma {:induction false} AppendSurvives(before: seq<Directory>, history: seq<Directory>, from: nat, d: Directory,
        e: Directory, maxBytes: nat,
                       given: Bytes, bytes: Bytes)
    requires before <= history && RunSurvives(before, from, d, maxBytes, given) && Appended(e, d, maxBytes, given)
    requires EndsWithoutGap(history, |before|, e, maxBytes, bytes) && (|bytes| <= maxBytes || maxBytes == 1)
    ensures RunSurvives(history, from, d, maxBytes, given + bytes)
  {
    hide RetainedTextIs, EndsIn, AllSurvive;
    RunGivenMore(before, from, d, maxBytes, given, bytes);
    forall base: Bytes | RetainedTextIs(d, maxBytes, base)
      ensures AllSurvive(history, from, maxBytes, base, given + bytes)
    {
      AllSurviveAfter(history, |before|, e, maxBytes, base, given, bytes);
      SurviveTwice(before, history, from, maxBytes, base, given + bytes);
    }
  }

  lemma {:induction false} AllSurviveAfter(history: seq<Directory>, from: nat, e: Directory, maxBytes: nat, base: Bytes,
        given: Bytes, bytes: Bytes)
    requires EndsIn(e, maxBytes, base + given) && EndsWithoutGap(history, from, e, maxBytes, bytes)
    requires |bytes| <= maxBytes || maxBytes == 1
    ensures from <= |history| ==> AllSurvive(history, from, maxBytes, base, given + bytes)
  {
    hide RetainedTextIs, IsSuffix, Survives;
    var text: Bytes :| RetainedTextIs(e, maxBytes, text) && IsSuffix(text, base + given);
    assert NoGap(text, maxBytes, |bytes|);
    forall i | from <= i < |history|
      ensures Survives(history[i], maxBytes, base, given + bytes)
    {
      SurvivesBefore(history[i], maxBytes, text, bytes, base, given);
    }
  }

  lemma {:induction false} EndsInTwice(f: Directory, e: Directory, maxBytes: nat, whole: Bytes, bytes: Bytes)
    requires EndsIn(e, maxBytes, whole) && Appended(f, e, maxBytes, bytes)
    ensures EndsIn(f, maxBytes, whole + bytes)
  {
    hide RetainedTextIs, IsSuffix;
    var text: Bytes :| RetainedTextIs(e, maxBytes, text) && IsSuffix(text, whole);
    assert EndsIn(f, maxBytes, text + bytes);
    var kept: Bytes :| RetainedTextIs(f, maxBytes, kept) && IsSuffix(kept, text + bytes);
    SuffixOfExtended(text, whole, bytes);
    SuffixOfSuffix(kept, text + bytes, whole + bytes);
  }

  lemma {:induction false} AppendedTwice(f: Directory, e: Directory, d: Directory, maxBytes: nat, given: Bytes, bytes: Bytes)
    requires Appended(e, d, maxBytes, given) && Appended(f, e, maxBytes, bytes)
    ensures Appended(f, d, maxBytes, given + bytes)
  {
    hide RetainedTextIs, IsSuffix, EndsIn;
    forall base: Bytes | RetainedTextIs(d, maxBytes, base)
      ensures EndsIn(f, maxBytes, base + (given + bytes))
    {
      EndsInTwice(f, e, maxBytes, base + given, bytes);
      assert base + given + bytes == base + (given + bytes);
    }
  }

  lemma {:induction false} OneStepSurvives(before: seq<Directory>, history: seq<Directory>, from: nat, d: Directory,
        e: Directory, maxBytes: nat,
                        given: Bytes, bytes: Bytes, live: bool)
    requires before <= history && RunSurvives(before, from, d, maxBytes, given) && (!live ==> history == before)
    requires live ==> Appended(e, d, maxBytes, given) && EndsWithoutGap(history, |before|, e, maxBytes, bytes)
    requires |bytes| <= maxBytes || maxBytes == 1
    ensures RunSurvives(history, from, d, maxBytes, given + bytes)
  {
    hide Appended, EndsWithoutGap, RunSurvives;
    if live {
      AppendSurvives(before, history, from, d, e, maxBytes, given, bytes);
    } else {
      RunGivenMore(before, from, d, maxBytes, given, bytes);
    }
  }

  lemma {:induction false} KeptIsNothing(past: seq<Directory>, history: seq<Directory>, e: Directory, maxBytes: nat)
    requires past != [] && past <= history && past[|past| - 1] == e && AllKeepText(history, |past|, e, maxBytes)
    ensures EndsWithoutGap(history, |past|, e, maxBytes, []) && Appended(history[|history| - 1], e, maxBytes, [])
  {
    hide SameRetained, AllKeepText;
    KeptEndsWithoutGap(history, |past|, e, maxBytes, []);
    CurrentText(history, past, e, maxBytes);
    NothingAppended(history[|history| - 1], e, maxBytes);
  }

  lemma {:induction false} OneMore(operations: seq<Operation>, i: nat)
    requires i < |operations|
    ensures BytesOf(operations[..i + 1]) == BytesOf(operations[..i]) + if operations[i].AppendBytes? then operations[i].bytes else []
  {
    assert operations[..i + 1][..i] == operations[..i];
  }

  lemma {:induction false} DiskIsValid(writer: Writer)
    requires writer.Valid()
    ensures writer.disk.Valid()
  {
  }

  /** Runs the operations one after the other. When none of them skips bytes, a scan
      after an interruption at any point finds the end of what was retained before the
      run and of what the run was given up to some byte; when all were accepted, up to
      the last one. */
  method Run(writer: Writer, operations: seq<Operation>) returns (accepted: seq<bool>)
    requires writer.Valid()
    modifies writer, writer.disk
    ensures writer.Valid() && |accepted| == |operations| && old(writer.disk.history) <= writer.disk.history
    ensures NothingSkipped(operations, writer.maxBytes) ==>
      RunSurvives(writer.disk.history, |old(writer.disk.history)|, old(writer.disk.files), writer.maxBytes, BytesOf(operations))
    ensures false !in accepted ==>
      Appended(writer.disk.files, old(writer.disk.files), writer.maxBytes, BytesOf(operations))
  {
    hide Appended, EndsWithoutGap, GapsRecorded, RunSurvives, AllKeepText, Openable, WellFormed, IsSuffix, Joined, RetainedTextIs,
         SegmentsSized, Writer.Valid, Writer.HoldsLast;
    accepted := [];
    ghost var d, past := writer.disk.files, writer.disk.history;
    ghost var allAccepted := true;
    EmptyRun(past, d, writer.maxBytes);
    assert BytesOf(operations[..0]) == [];
    for i := 0 to |operations|
      invariant writer.Valid() && |accepted| == i && past <= writer.disk.history
      invariant allAccepted <==> false !in accepted
      invariant !writer.poisoned && !writer.finalized ==> allAccepted
      invariant allAccepted ==> Appended(writer.disk.files, d, writer.maxBytes, BytesOf(operations[..i]))
      invariant NothingSkipped(operations, writer.maxBytes) ==>
        RunSurvives(writer.disk.history, |past|, d, writer.maxBytes, BytesOf(operations[..i]))
    {
      ghost var e, before, given := writer.disk.files, writer.disk.history, BytesOf(operations[..i]);
      DiskIsValid(writer);
      ghost var live := !writer.poisoned && !writer.finalized;
      var ok;
      match operations[i] {
        case AppendBytes(bytes) =>
          ok := writer.Append(bytes);
        case FinalizeCapture =>
          ok := writer.Finalize();
          KeptIsNothing(before, writer.disk.history, e, writer.maxBytes);
      }
      DiskIsValid(writer);
      ghost var bytes := if operations[i].AppendBytes? then operations[i].bytes else [];
      OneMore(operations, i);
      if NothingSkipped(operations, writer.maxBytes) {
        OneStepSurvives(before, writer.disk.history, |past|, d, e, writer.maxBytes, given, bytes, live);
      }
      if allAccepted && ok {
        AppendedTwice(writer.disk.files, e, d, writer.maxBytes, given, bytes);
      }
      accepted := accepted + [ok];
      allAccepted := allAccepted && ok;
    }
    assert operations[..|operations|] == operations;
  }
}
