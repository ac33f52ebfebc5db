/** The text a capture directory retains, and what an append may leave of it at any
    moment. */
module CaptureText {
  import opened CaptureDisk

  // ---- Texts -----------------------------------------------------------------------

  function Joined(contents: seq<Bytes>): Bytes {
    if contents == [] then [] else Joined(contents[..|contents| - 1]) + contents[|contents| - 1]
  }

  predicate IsSuffix(part: Bytes, whole: Bytes) {
    |part| <= |whole| && whole[|whole| - |part|..] == part
  }

  lemma {:induction false} JoinedTail(contents: seq<Bytes>)
    requires contents != []
    ensures Joined(contents) == contents[0] + Joined(contents[1..])
  {
    if |contents| > 1 {
      var front := contents[..|contents| - 1];
      JoinedTail(front);
      assert contents[1..][..|contents[1..]| - 1] == front[1..];
      assert contents[0] + (Joined(front[1..]) + contents[|contents| - 1]) == contents[0] + Joined(front[1..]) + contents[|contents| - 1];
    } else {
      assert contents[..0] == [] && contents[1..] == [];
    }
  }

  lemma {:induction false} JoinedPush(contents: seq<Bytes>, bytes: Bytes)
    ensures Joined(contents + [bytes]) == Joined(contents) + bytes
  {
    assert (contents + [bytes])[..|contents|] == contents;
  }

  lemma {:induction false} JoinedDrop(contents: seq<Bytes>)
    requires contents != []
    ensures IsSuffix(Joined(contents[1..]), Joined(contents))
  {
    JoinedTail(contents);
  }

  lemma {:induction false} SuffixOfExtended(part: Bytes, whole: Bytes, more: Bytes)
    requires IsSuffix(part, whole)
    ensures IsSuffix(part + more, whole + more)
  {
    var w := whole + more;
    assert w[|w| - |part + more|..] == whole[|whole| - |part|..] + more;
  }

  lemma {:induction false} SuffixOfSuffix(part: Bytes, middle: Bytes, whole: Bytes)
    requires IsSuffix(part, middle) && IsSuffix(middle, whole)
    ensures IsSuffix(part, whole)
  {
    assert whole[|whole| - |part|..] == middle[|middle| - |part|..];
  }

  lemma {:induction false} JoinedSuffix(contents: seq<Bytes>, count: nat)
    requires count <= |contents|
    ensures IsSuffix(Joined(contents[count..]), Joined(contents))
  {
    if count == 0 {
      assert contents[0..] == contents;
    } else {
      JoinedDrop(contents);
      JoinedSuffix(contents[1..], count - 1);
      assert contents[1..][count - 1..] == contents[count..];
      SuffixOfSuffix(Joined(contents[count..]), Joined(contents[1..]), Joined(contents));
    }
  }

  lemma {:induction false} JoinedLength(contents: seq<Bytes>)
    ensures contents == [] ==> |Joined(contents)| == 0
    ensures |contents| == 1 ==> |Joined(contents)| == |contents[0]|
    ensures |contents| == 2 ==> |Joined(contents)| == |contents[0]| + |contents[1]|
  {
    if |contents| == 2 {
      assert contents[..1][..0] == [];
      assert Joined(contents[..1]) == Joined([]) + contents[0];
    }
  }

  // ---- The text of a directory ----------------------------------------------------------

  predicate HasBytes(d: Directory, n: nat, bytes: Bytes) {
    RawSegment(n) in d && d[RawSegment(n)] == bytes
  }

  /** The retained segments of a directory are those from `first` on, with these contents. */
  ghost predicate Retains(d: Directory, maxBytes: nat, first: nat, contents: seq<Bytes>) {
    && (forall n: nat :: Retained(d, maxBytes, n) <==> first <= n < first + |contents|)
    && forall i | 0 <= i < |contents| :: HasBytes(d, first + i, contents[i])
  }

  /** The retained segments of a directory hold `text`, in order. */
  ghost predicate RetainedTextIs(d: Directory, maxBytes: nat, text: Bytes) {
    exists first: nat, contents: seq<Bytes> :: Retains(d, maxBytes, first, contents) && text == Joined(contents)
  }

  /** A directory retains one text. */
  lemma {:induction false} RetainedTextIsUnique(d: Directory, maxBytes: nat, a: Bytes, b: Bytes)
    requires RetainedTextIs(d, maxBytes, a) && RetainedTextIs(d, maxBytes, b)
    ensures a == b
  {
    var m: nat, c: seq<Bytes> :| Retains(d, maxBytes, m, c) && a == Joined(c);
    var n: nat, e: seq<Bytes> :| Retains(d, maxBytes, n, e) && b == Joined(e);
    SameRange(d, maxBytes, m, |c|, n, |e|);
    forall i | 0 <= i < |c|
      ensures c[i] == e[i]
    {
      assert HasBytes(d, m + i, c[i]) && HasBytes(d, n + i, e[i]);
    }
    assert c == e;
  }

  lemma {:induction false} SameRange(d: Directory, maxBytes: nat, m: nat, a: nat, n: nat, b: nat)
    requires forall k: nat :: Retained(d, maxBytes, k) <==> m <= k < m + a
    requires forall k: nat :: Retained(d, maxBytes, k) <==> n <= k < n + b
    ensures a == b && (a > 0 ==> m == n)
  {
    if a > 0 {
      assert Retained(d, maxBytes, m) && Retained(d, maxBytes, m + a - 1) && !Retained(d, maxBytes, m + a);
    }
    if b > 0 {
      assert Retained(d, maxBytes, n) && Retained(d, maxBytes, n + b - 1) && !Retained(d, maxBytes, n + b);
    }
  }

  /** The same segments are retained, with the same contents. */
  ghost predicate SameRetained(e: Directory, d: Directory, maxBytes: nat) {
    forall n: nat ::
      && (Retained(e, maxBytes, n) <==> Retained(d, maxBytes, n))
      && (Retained(d, maxBytes, n) ==> e[RawSegment(n)] == d[RawSegment(n)])
  }

  lemma {:induction false} SameBothWays(e: Directory, d: Directory, maxBytes: nat)
    ensures SameRetained(e, d, maxBytes) ==> SameRetained(d, e, maxBytes)
  {
  }

  lemma {:induction false} SameRetainedTwice(f: Directory, e: Directory, d: Directory, maxBytes: nat)
    ensures SameRetained(f, e, maxBytes) && SameRetained(e, d, maxBytes) ==> SameRetained(f, d, maxBytes)
  {
  }

  lemma {:induction false} SameRetainedText(e: Directory, d: Directory, maxBytes: nat, text: Bytes)
    requires SameRetained(e, d, maxBytes) && RetainedTextIs(d, maxBytes, text)
    ensures RetainedTextIs(e, maxBytes, text)
  {
    var first: nat, contents: seq<Bytes> :| Retains(d, maxBytes, first, contents) && text == Joined(contents);
    forall i | 0 <= i < |contents|
      ensures HasBytes(e, first + i, contents[i])
    {
      assert HasBytes(d, first + i, contents[i]);
      assert Retained(d, maxBytes, first + i) && Retained(e, maxBytes, first + i);
    }
    assert Retains(e, maxBytes, first, contents);
  }

  /** Markers and empty segments do not matter to the text. */
  lemma {:induction false} SameBytesSameRetained(e: Directory, d: Directory, maxBytes: nat)
    requires forall n: nat :: (Real(e, n) <==> Real(d, n)) && (Real(d, n) ==> e[RawSegment(n)] == d[RawSegment(n)])
    ensures SameRetained(e, d, maxBytes)
  {
  }

  /** Neither does a segment that is not retained and older than all others. */
  lemma {:induction false} OldestGoneSameRetained(d: Directory, maxBytes: nat, n: nat)
    requires !Retained(d, maxBytes, n) && forall k: nat | Real(d, k) :: n <= k
    ensures SameRetained(d - {RawSegment(n)}, d, maxBytes)
  {
    var e := d - {RawSegment(n)};
    assert forall k: nat | k != n :: Real(e, k) <==> Real(d, k);
    forall k: nat
      ensures Retained(e, maxBytes, k) <==> Retained(d, maxBytes, k)
      ensures Retained(d, maxBytes, k) ==> e[RawSegment(k)] == d[RawSegment(k)]
    {
      if Real(d, k) {
        assert n <= k;
      }
    }
  }

  /** From `from` on, every recorded directory retains what `d` does. */
  ghost predicate AllKeepText(history: seq<Directory>, from: nat, d: Directory, maxBytes: nat) {
    from <= |history| && forall i | from <= i < |history| :: SameRetained(history[i], d, maxBytes)
  }

  lemma {:induction false} KeepTextTwice(before: seq<Directory>, history: seq<Directory>, from: nat, d: Directory,
        e: Directory, maxBytes: nat)
    requires before <= history && AllKeepText(before, from, d, maxBytes) && AllKeepText(history, |before|, e, maxBytes)
    requires SameRetained(e, d, maxBytes)
    ensures AllKeepText(history, from, d, maxBytes)
  {
    hide Retained;
    forall i | from <= i < |history|
      ensures SameRetained(history[i], d, maxBytes)
    {
      if i < |before| {
        assert history[i] == before[i];
      } else {
        assert SameRetained(history[i], e, maxBytes);
      }
    }
  }

  // ---- What an append may leave -----------------------------------------------------------

  /** The retained text is a suffix of what there was and some of the bytes, in order. */
  ghost predicate Survives(d: Directory, maxBytes: nat, base: Bytes, bytes: Bytes) {
    exists text: Bytes, k: nat :: k <= |bytes| && RetainedTextIs(d, maxBytes, text) && IsSuffix(text, base + bytes[..k])
  }

  ghost predicate AllSurvive(history: seq<Directory>, from: nat, maxBytes: nat, base: Bytes, bytes: Bytes) {
    from <= |history| && forall i | from <= i < |history| :: Survives(history[i], maxBytes, base, bytes)
  }

  lemma {:induction false} KeptTextSurvives(history: seq<Directory>, from: nat, d: Directory, maxBytes: nat, base: Bytes,
        bytes: Bytes)
    requires AllKeepText(history, from, d, maxBytes) && Survives(d, maxBytes, base, bytes)
    ensures AllSurvive(history, from, maxBytes, base, bytes)
  {
    var text: Bytes, k: nat :| k <= |bytes| && RetainedTextIs(d, maxBytes, text) && IsSuffix(text, base + bytes[..k]);
    forall i | from <= i < |history|
      ensures Survives(history[i], maxBytes, base, bytes)
    {
      SameRetainedText(history[i], d, maxBytes, text);
    }
  }

  lemma {:induction false} SurviveTwice(before: seq<Directory>, history: seq<Directory>, from: nat, maxBytes: nat,
        base: Bytes, bytes: Bytes)
    requires before <= history && AllSurvive(before, from, maxBytes, base, bytes) && AllSurvive(history, |before|, maxBytes, base, bytes)
    ensures AllSurvive(history, from, maxBytes, base, bytes)
  {
    hide Survives;
    forall i | from <= i < |history|
      ensures Survives(history[i], maxBytes, base, bytes)
    {
      if i < |before| {
        assert history[i] == before[i];
      }
    }
  }

  /** Bytes `offset ..` of an append, after those before them. */
  lemma {:induction false} SurvivesLater(d: Directory, maxBytes: nat, base: Bytes, bytes: Bytes, offset: nat)
    requires offset <= |bytes| && Survives(d, maxBytes, base + bytes[..offset], bytes[offset..])
    ensures Survives(d, maxBytes, base, bytes)
  {
    var text: Bytes, k: nat :| k <= |bytes[offset..]| && RetainedTextIs(d, maxBytes, text)
      && IsSuffix(text, base + bytes[..offset] + bytes[offset..][..k]);
    assert base + bytes[..offset] + bytes[offset..][..k] == base + bytes[..offset + k];
    assert IsSuffix(text, base + bytes[..offset + k]);
  }

  lemma {:induction false} AllSurviveLater(history: seq<Directory>, from: nat, maxBytes: nat, base: Bytes, bytes: Bytes,
        offset: nat)
    requires offset <= |bytes| && AllSurvive(history, from, maxBytes, base + bytes[..offset], bytes[offset..])
    ensures AllSurvive(history, from, maxBytes, base, bytes)
  {
    hide Survives;
    forall i | from <= i < |history|
      ensures Survives(history[i], maxBytes, base, bytes)
    {
      SurvivesLater(history[i], maxBytes, base, bytes, offset);
    }
  }

  /** What survives some of the bytes survives more of them. */
  lemma {:induction false} SurvivesMore(d: Directory, maxBytes: nat, base: Bytes, bytes: Bytes, more: Bytes)
    requires Survives(d, maxBytes, base, bytes)
    ensures Survives(d, maxBytes, base, bytes + more)
  {
    var text: Bytes, k: nat :| k <= |bytes| && RetainedTextIs(d, maxBytes, text) && IsSuffix(text, base + bytes[..k]);
    assert (bytes + more)[..k] == bytes[..k];
  }

  lemma {:induction false} AllSurviveMore(history: seq<Directory>, from: nat, maxBytes: nat, base: Bytes, bytes: Bytes,
        more: Bytes)
    requires AllSurvive(history, from, maxBytes, base, bytes)
    ensures AllSurvive(history, from, maxBytes, base, bytes + more)
  {
    hide Survives;
    forall i | from <= i < |history|
      ensures Survives(history[i], maxBytes, base, bytes + more)
    {
      SurvivesMore(history[i], maxBytes, base, bytes, more);
    }
  }

  lemma {:induction false} NothingNewSurvives(history: seq<Directory>, maxBytes: nat, base: Bytes, bytes: Bytes)
    ensures AllSurvive(history, |history|, maxBytes, base, bytes)
  {
  }

  /** Steps that keep the text of the last recorded directory. */
  lemma {:induction false} SurvivesThenKept(before: seq<Directory>, history: seq<Directory>, from: nat, e: Directory,
        maxBytes: nat,
                         base: Bytes, bytes: Bytes)
    requires before <= history && from < |before| && before[|before| - 1] == e
    requires AllSurvive(before, from, maxBytes, base, bytes) && AllKeepText(history, |before|, e, maxBytes)
    ensures AllSurvive(history, from, maxBytes, base, bytes)
  {
    hide Survives;
    assert Survives(before[|before| - 1], maxBytes, base, bytes);
    KeptTextSurvives(history, |before|, e, maxBytes, base, bytes);
    SurviveTwice(before, history, from, maxBytes, base, bytes);
  }

  /** The next bytes of an append, after those before them. */
  lemma {:induction false} PieceSurvives(before: seq<Directory>, history: seq<Directory>, from: nat, maxBytes: nat,
        base: Bytes, bytes: Bytes, offset: nat)
    requires before <= history && AllSurvive(before, from, maxBytes, base, bytes) && offset <= |bytes|
    requires AllSurvive(history, |before|, maxBytes, base + bytes[..offset], bytes[offset..])
    ensures AllSurvive(history, from, maxBytes, base, bytes)
  {
    hide Survives;
    AllSurviveLater(history, |before|, maxBytes, base, bytes, offset);
    SurviveTwice(before, history, from, maxBytes, base, bytes);
  }

  /** `d` with some bytes added to segment `n`. */
  function WithBytes(d: Directory, n: nat, bytes: Bytes): Directory {
    d[RawSegment(n) := (if RawSegment(n) in d then d[RawSegment(n)] else []) + bytes]
  }

  /** `e` is `d` with some of the bytes added to segment `n`. */
  ghost predicate Written(e: Directory, d: Directory, n: nat, bytes: Bytes) {
    exists k: nat :: k <= |bytes| && e == WithBytes(d, n, bytes[..k])
  }

  /** From `from` on, every recorded directory has some of the bytes added to segment `n`. */
  ghost predicate AllWritten(history: seq<Directory>, from: nat, d: Directory, n: nat, bytes: Bytes) {
    from <= |history| && forall i | from <= i < |history| :: Written(history[i], d, n, bytes)
  }

  ghost predicate Recorded(history: seq<Directory>, from: nat, d: Directory) {
    exists i :: from <= i < |history| && history[i] == d
  }

  /** Every directory along the way was recorded. */
  ghost predicate EachWritten(history: seq<Directory>, from: nat, d: Directory, n: nat, bytes: Bytes) {
    forall k: nat | 1 <= k <= |bytes| :: Recorded(history, from, WithBytes(d, n, bytes[..k]))
  }

  lemma {:induction false} NothingWritten(history: seq<Directory>, d: Directory, n: nat, bytes: Bytes)
    ensures AllWritten(history, |history|, d, n, bytes)
  {
  }

  lemma {:induction false} EachIsNew(history: seq<Directory>, from: nat, d: Directory, n: nat, bytes: Bytes)
    requires EachWritten(history, from, d, n, bytes) && bytes != []
    ensures from < |history|
  {
    assert Recorded(history, from, WithBytes(d, n, bytes[..1]));
  }

  // ---- Replacing everything retained ---------------------------------------------------------

  /** The contents of the segments that stay retained. */
  function LastContents(contents: seq<Bytes>, maxBytes: nat): (r: seq<Bytes>)
    ensures |r| <= |contents| && r == contents[|contents| - |r|..]
  {
    if |contents| > RetainedSegmentLimit(maxBytes) then contents[|contents| - RetainedSegmentLimit(maxBytes)..] else contents
  }

  /** A text that a directory may retain while segments holding `contents` are replaced
      by `suffix`, from segment `n` on. */
  ghost predicate ReplaceLeaves(contents: seq<Bytes>, maxBytes: nat, n: nat, suffix: Bytes, text: Bytes) {
    || text == Joined(contents)
    || (exists j: nat :: 1 <= j <= |suffix| && j <= SegmentCapacity(maxBytes, n)
          && text == Joined(LastContents(contents + [suffix[..j]], maxBytes)))
    || (exists j: nat :: SegmentCapacity(maxBytes, n) < j <= |suffix| && text == suffix[..j])
  }

  /** Some of the bytes, after what there was, end with the text. */
  ghost predicate EndsSome(text: Bytes, base: Bytes, bytes: Bytes) {
    exists k: nat :: k <= |bytes| && IsSuffix(text, base + bytes[..k])
  }

  /** The last `maxBytes` of an append. */
  function Tail(bytes: Bytes, maxBytes: nat): Bytes
    requires maxBytes <= |bytes|
  {
    bytes[|bytes| - maxBytes..]
  }

  /** No bytes are skipped, or none retained could come before them. */
  predicate NoGap(retained: Bytes, maxBytes: nat, length: nat) {
    length <= maxBytes || maxBytes == 1 || retained == []
  }

  /** A part of the suffix by itself ends the bytes up to it. */
  lemma {:induction false} PartEnds(base: Bytes, bytes: Bytes, maxBytes: nat, j: nat)
    requires maxBytes <= |bytes| && j <= maxBytes
    ensures EndsSome(Tail(bytes, maxBytes)[..j], base, bytes)
  {
    var k := |bytes| - maxBytes + j;
    var whole := base + bytes[..k];
    assert whole[|whole| - j..] == Tail(bytes, maxBytes)[..j];
    assert IsSuffix(Tail(bytes, maxBytes)[..j], base + bytes[..k]);
  }

  /** What is retained once the first new segment holds `piece`. */
  lemma {:induction false} LastWithPiece(contents: seq<Bytes>, maxBytes: nat, piece: Bytes)
    requires |contents| <= RetainedSegmentLimit(maxBytes)
    ensures Joined(LastContents(contents + [piece], maxBytes)) ==
      if maxBytes == 1 || contents == [] then piece else contents[|contents| - 1] + piece
  {
    var kept := LastContents(contents + [piece], maxBytes);
    JoinedLength(kept);
    if |kept| == 1 {
      JoinedPush([], piece);
      assert kept == [] + [piece];
    } else {
      var last := contents[|contents| - 1];
      assert kept == [last] + [piece];
      JoinedPush([last], piece);
      JoinedPush([], last);
      assert [] + [last] == [last];
    }
  }

  lemma {:induction false} SomethingJoined(contents: seq<Bytes>)
    requires forall i | 0 <= i < |contents| :: contents[i] != []
    ensures Joined(contents) == [] <==> contents == []
  {
  }

  lemma {:induction false} FirstSegmentEndsSome(contents: seq<Bytes>, base: Bytes, maxBytes: nat, bytes: Bytes, j: nat)
    requires |contents| <= RetainedSegmentLimit(maxBytes) && IsSuffix(Joined(contents), base)
    requires maxBytes <= |bytes| && NoGap(Joined(contents), maxBytes, |bytes|) && j <= maxBytes
    requires forall i | 0 <= i < |contents| :: contents[i] != []
    ensures EndsSome(Joined(LastContents(contents + [Tail(bytes, maxBytes)[..j]], maxBytes)), base, bytes)
  {
    hide LastContents, Joined, IsSuffix;
    LastWithPiece(contents, maxBytes, Tail(bytes, maxBytes)[..j]);
    SomethingJoined(contents);
    if maxBytes == 1 || contents == [] {
      PartEnds(base, bytes, maxBytes, j);
    } else {
      LastEnds(contents, base);
      assert Tail(bytes, maxBytes) == bytes;
      SuffixOfExtended(contents[|contents| - 1], base, bytes[..j]);
    }
  }

  lemma {:induction false} NoGapEndsSome(contents: seq<Bytes>, base: Bytes, maxBytes: nat, n: nat, bytes: Bytes, text: Bytes)
    requires |contents| <= RetainedSegmentLimit(maxBytes) && IsSuffix(Joined(contents), base)
    requires maxBytes <= |bytes| && NoGap(Joined(contents), maxBytes, |bytes|)
    requires forall i | 0 <= i < |contents| :: contents[i] != []
    requires ReplaceLeaves(contents, maxBytes, n, Tail(bytes, maxBytes), text)
    ensures EndsSome(text, base, bytes)
  {
    hide SegmentCapacity, LastContents, Joined, IsSuffix, EndsSome, NoGap, RetainedSegmentLimit;
    var suffix := Tail(bytes, maxBytes);
    if text == Joined(contents) {
      NothingEndsSome(text, base, bytes);
    } else if j: nat :| SegmentCapacity(maxBytes, n) < j <= |suffix| && text == suffix[..j] {
      PartEnds(base, bytes, maxBytes, j);
    } else {
      var j: nat :| 1 <= j <= |suffix| && j <= SegmentCapacity(maxBytes, n)
        && text == Joined(LastContents(contents + [suffix[..j]], maxBytes));
      FirstSegmentEndsSome(contents, base, maxBytes, bytes, j);
    }
  }

  lemma {:induction false} NothingEndsSome(text: Bytes, base: Bytes, bytes: Bytes)
    requires IsSuffix(text, base)
    ensures EndsSome(text, base, bytes)
  {
    assert base + bytes[..0] == base;
  }

  lemma {:induction false} LastEnds(contents: seq<Bytes>, base: Bytes)
    requires contents != [] && IsSuffix(Joined(contents), base)
    ensures IsSuffix(contents[|contents| - 1], base)
  {
    var last := contents[|contents| - 1];
    assert IsSuffix(last, Joined(contents));
    SuffixOfSuffix(last, Joined(contents), base);
  }

  lemma {:induction false} LastTwo(part: Bytes, whole: Bytes)
    requires |part| >= 2
    ensures IsSuffix(part, whole) ==>
      |whole| >= 2 && whole[|whole| - 1] == part[|part| - 1] && whole[|whole| - 2] == part[|part| - 2]
  {
    if IsSuffix(part, whole) {
      assert whole[|whole| - |part|..][|part| - 1] == part[|part| - 1] && whole[|whole| - |part|..][|part| - 2] == part[|part| - 2];
    }
  }

  /** Bytes of a length for which a text across the gap ends nothing that was appended. */
  lemma {:induction false} GapEndsNothing(last: Bytes, base: Bytes, maxBytes: nat, length: nat) returns (bytes: Bytes)
    requires last != [] && IsSuffix(last, base) && 1 <= maxBytes < length
    ensures |bytes| == length && !EndsSome(last + Tail(bytes, maxBytes)[..1], base, bytes)
  {
    var b := last[|last| - 1];
    var x := if b == 'x' then 'z' else 'x';
    var y := if b == 'y' then 'z' else 'y';
    var skip := length - maxBytes;
    bytes := seq(length, i => if i < skip then y else x);
    var text := last + Tail(bytes, maxBytes)[..1];
    forall k: nat | k <= length
      ensures !IsSuffix(text, base + bytes[..k])
    {
      var whole := base + bytes[..k];
      LastTwo(text, whole);
      assert base[|base| - |last|..] == last && base[|base| - 1] == b;
      assert |whole| >= 2 ==> whole[|whole| - 1] != x || whole[|whole| - 2] != b;
    }
  }

  /** Replacing what is retained leaves, at every moment and for all bytes of a length, a
      text that ends what was appended so far, if and only if there is no gap: no bytes
      are skipped, or nothing retained can come before them. */
  lemma {:induction false} ReplaceLeavesExact(contents: seq<Bytes>, base: Bytes, maxBytes: nat, n: nat, length: nat)
    requires |contents| <= RetainedSegmentLimit(maxBytes) && IsSuffix(Joined(contents), base)
    requires (forall i | 0 <= i < |contents| :: contents[i] != []) && 0 < maxBytes <= length
    ensures (forall bytes: Bytes, text: Bytes | |bytes| == length && ReplaceLeaves(contents, maxBytes, n, Tail(bytes, maxBytes), text) ::
               EndsSome(text, base, bytes))
            <==> NoGap(Joined(contents), maxBytes, length)
  {
    hide ReplaceLeaves, EndsSome;
    SomethingJoined(contents);
    if NoGap(Joined(contents), maxBytes, length) {
      forall bytes: Bytes, text: Bytes | |bytes| == length && ReplaceLeaves(contents, maxBytes, n, Tail(bytes, maxBytes), text)
        ensures EndsSome(text, base, bytes)
      {
        NoGapEndsSome(contents, base, maxBytes, n, bytes, text);
      }
    } else {
      var last := contents[|contents| - 1];
      LastEnds(contents, base);
      var bytes := GapEndsNothing(last, base, maxBytes, length);
      var text := last + Tail(bytes, maxBytes)[..1];
      FirstPieceLeaves(contents, maxBytes, n, Tail(bytes, maxBytes));
      assert |bytes| == length && ReplaceLeaves(contents, maxBytes, n, Tail(bytes, maxBytes), text);
    }
  }

  /** A first new segment cut short after one byte. */
  lemma {:induction false} FirstPieceLeaves(contents: seq<Bytes>, maxBytes: nat, n: nat, suffix: Bytes)
    requires 1 < maxBytes && contents != [] && |contents| <= RetainedSegmentLimit(maxBytes) && suffix != []
    ensures ReplaceLeaves(contents, maxBytes, n, suffix, contents[|contents| - 1] + suffix[..1])
  {
    LastWithPiece(contents, maxBytes, suffix[..1]);
    assert 1 <= SegmentCapacity(maxBytes, n);
  }

  /** Two one-byte segments of "ab", and the first byte of the suffix "de" of "cde":
      the directory retains "bd". */
  lemma {:induction false} GapDirectory() returns (d: Directory)
    ensures WellFormed(d, 2) && RetainedTextIs(d, 2, "bd") && !EndsSome("bd", "ab", "cde")
  {
    d := map[RawSegment(1) := "a", FinalizedMarker(1) := FINALIZED_MARKER, RawSegment(2) := "b", RawSegment(3) := "d"];
    assert forall n: nat :: Real(d, n) <==> 1 <= n <= 3;
    assert forall n: nat :: Finalized(d, n) <==> n == 1;
    GapText(d);
    GapEnds();
  }

  lemma {:induction false} GapText(d: Directory)
    requires forall n: nat :: Real(d, n) <==> 1 <= n <= 3
    requires RawSegment(2) in d && RawSegment(3) in d && d[RawSegment(2)] == "b" && d[RawSegment(3)] == "d"
    ensures RetainedTextIs(d, 2, "bd")
  {
    hide Joined, Real;
    assert forall n: nat :: Retained(d, 2, n) <==> 2 <= n < 4;
    assert Retains(d, 2, 2, ["b", "d"]);
    JoinedPair("b", "d");
  }

  lemma {:induction false} JoinedPair(a: Bytes, b: Bytes)
    ensures Joined([a, b]) == a + b
  {
    JoinedPush([a], b);
    JoinedPush([], a);
    assert [a] + [b] == [a, b] && [] + [a] == [a];
  }

  lemma {:induction false} GapEnds()
    ensures !EndsSome("bd", "ab", "cde")
  {
    hide IsSuffix;
    forall k: nat | k <= 3
      ensures !IsSuffix("bd", "ab" + "cde"[..k])
    {
      LastTwo("bd", "ab" + "cde"[..k]);
    }
  }

  // ---- What the directories of an append are known to retain ---------------------------------

  ghost predicate Replaced(d: Directory, contents: seq<Bytes>, maxBytes: nat, n: nat, suffix: Bytes) {
    exists text: Bytes :: RetainedTextIs(d, maxBytes, text) && ReplaceLeaves(contents, maxBytes, n, suffix, text)
  }

  ghost predicate AllReplaced(history: seq<Directory>, from: nat, contents: seq<Bytes>, maxBytes: nat, n: nat, suffix: Bytes) {
    from <= |history| && forall i | from <= i < |history| :: Replaced(history[i], contents, maxBytes, n, suffix)
  }

  ghost predicate RecordedText(history: seq<Directory>, from: nat, maxBytes: nat, text: Bytes) {
    exists i :: from <= i < |history| && RetainedTextIs(history[i], maxBytes, text)
  }

  /** The first new segment was there with each number of bytes. */
  ghost predicate EachPieceRecorded(history: seq<Directory>, from: nat, contents: seq<Bytes>, maxBytes: nat, n: nat,
        suffix: Bytes) {
    forall j: nat | 1 <= j <= |suffix| && j <= SegmentCapacity(maxBytes, n) ::
      RecordedText(history, from, maxBytes, Joined(LastContents(contents + [suffix[..j]], maxBytes)))
  }

  /** What is recorded of a replacement that has written `offset` bytes. */
  ghost predicate ReplacedSoFar(history: seq<Directory>, from: nat, contents: seq<Bytes>, maxBytes: nat, n: nat,
        suffix: Bytes, offset: nat) {
    && from <= |history| && AllReplaced(history, from, contents, maxBytes, n, suffix)
    && (offset > 0 ==> from < |history| && EachPieceRecorded(history, from, contents, maxBytes, n, suffix))
  }

  lemma {:induction false} NothingReplaced(history: seq<Directory>, contents: seq<Bytes>, maxBytes: nat, n: nat, suffix: Bytes)
    ensures ReplacedSoFar(history, |history|, contents, maxBytes, n, suffix, 0)
  {
  }

  lemma {:induction false} ReplacedTwice(before: seq<Directory>, history: seq<Directory>, from: nat,
        contents: seq<Bytes>, maxBytes: nat, n: nat, suffix: Bytes)
    requires before <= history && AllReplaced(before, from, contents, maxBytes, n, suffix)
    requires AllReplaced(history, |before|, contents, maxBytes, n, suffix)
    ensures AllReplaced(history, from, contents, maxBytes, n, suffix)
  {
    hide Replaced;
    forall i | from <= i < |history|
      ensures Replaced(history[i], contents, maxBytes, n, suffix)
    {
      if i < |before| {
        assert history[i] == before[i];
      }
    }
  }

  lemma {:induction false} StillRecorded(before: seq<Directory>, history: seq<Directory>, from: nat,
        contents: seq<Bytes>, maxBytes: nat, n: nat, suffix: Bytes)
    requires before <= history && EachPieceRecorded(before, from, contents, maxBytes, n, suffix)
    ensures EachPieceRecorded(history, from, contents, maxBytes, n, suffix)
  {
    hide RetainedTextIs, SegmentCapacity, LastContents, Joined;
    forall j: nat | 1 <= j <= |suffix| && j <= SegmentCapacity(maxBytes, n)
      ensures RecordedText(history, from, maxBytes, Joined(LastContents(contents + [suffix[..j]], maxBytes)))
    {
      var text := Joined(LastContents(contents + [suffix[..j]], maxBytes));
      var i :| from <= i < |before| && RetainedTextIs(before[i], maxBytes, text);
      assert history[i] == before[i];
    }
  }

  /** Steps that keep the text of the last recorded directory. */
  lemma {:induction false} ReplacedThenKept(before: seq<Directory>, history: seq<Directory>, from: nat,
        contents: seq<Bytes>, maxBytes: nat, n: nat,
                         suffix: Bytes, offset: nat)
    requires before <= history && offset > 0 && ReplacedSoFar(before, from, contents, maxBytes, n, suffix, offset)
    requires AllKeepText(history, |before|, before[|before| - 1], maxBytes)
    ensures AllReplaced(history, from, contents, maxBytes, n, suffix)
    ensures EachPieceRecorded(history, from, contents, maxBytes, n, suffix)
    ensures ReplacedSoFar(history, from, contents, maxBytes, n, suffix, offset)
  {
    hide RetainedTextIs, ReplaceLeaves, SameRetained, EachPieceRecorded;
    assert Replaced(before[|before| - 1], contents, maxBytes, n, suffix);
    var text: Bytes :| RetainedTextIs(before[|before| - 1], maxBytes, text) && ReplaceLeaves(contents, maxBytes, n, suffix, text);
    forall i | |before| <= i < |history|
      ensures Replaced(history[i], contents, maxBytes, n, suffix)
    {
      SameRetainedText(history[i], before[|before| - 1], maxBytes, text);
    }
    ReplacedTwice(before, history, from, contents, maxBytes, n, suffix);
    StillRecorded(before, history, from, contents, maxBytes, n, suffix);
  }

  /** Whenever there is no gap, every directory from `from` on retains the end of what
      `d` retained and some of the bytes. */
  ghost predicate EndsWithoutGap(history: seq<Directory>, from: nat, d: Directory, maxBytes: nat, bytes: Bytes) {
    forall base: Bytes | RetainedTextIs(d, maxBytes, base) && NoGap(base, maxBytes, |bytes|) ::
      AllSurvive(history, from, maxBytes, base, bytes)
  }

  /** A recorded directory retains the end of `base` and, next to it, the first byte that is not skipped. */
  ghost predicate Torn(history: seq<Directory>, from: nat, maxBytes: nat, base: Bytes, bytes: Bytes)
    requires 0 < maxBytes <= |bytes|
  {
    exists last: Bytes ::
      last != [] && IsSuffix(last, base) && RecordedText(history, from, maxBytes, last + Tail(bytes, maxBytes)[..1])
  }

  /** Whenever there is a gap, some directory from `from` on is torn at it. */
  ghost predicate GapsRecorded(history: seq<Directory>, from: nat, d: Directory, maxBytes: nat, bytes: Bytes) {
    0 < maxBytes <= |bytes| ==>
      forall base: Bytes | RetainedTextIs(d, maxBytes, base) && !NoGap(base, maxBytes, |bytes|) ::
        Torn(history, from, maxBytes, base, bytes)
  }

  lemma {:induction false} NoGapNothingToRecord(history: seq<Directory>, from: nat, d: Directory, maxBytes: nat, bytes: Bytes)
    requires |bytes| <= maxBytes
    ensures GapsRecorded(history, from, d, maxBytes, bytes)
  {
  }

  /** The retained text ends `whole`. */
  ghost predicate EndsIn(d: Directory, maxBytes: nat, whole: Bytes) {
    exists text: Bytes :: RetainedTextIs(d, maxBytes, text) && IsSuffix(text, whole)
  }

  /** `e` retains the end of what `d` does and all the bytes. */
  ghost predicate Appended(e: Directory, d: Directory, maxBytes: nat, bytes: Bytes) {
    forall base: Bytes | RetainedTextIs(d, maxBytes, base) :: EndsIn(e, maxBytes, base + bytes)
  }

  lemma {:induction false} NothingAppended(e: Directory, d: Directory, maxBytes: nat)
    requires SameRetained(e, d, maxBytes)
    ensures Appended(e, d, maxBytes, [])
  {
    hide RetainedTextIs;
    forall base: Bytes | RetainedTextIs(d, maxBytes, base)
      ensures EndsIn(e, maxBytes, base + [])
    {
      SameRetainedText(e, d, maxBytes, base);
      assert IsSuffix(base, base + []);
    }
  }

  lemma {:induction false} TextAppended(e: Directory, d: Directory, maxBytes: nat, whole: Bytes, bytes: Bytes, text: Bytes)
    requires RetainedTextIs(d, maxBytes, whole) && RetainedTextIs(e, maxBytes, text) && IsSuffix(text, whole + bytes)
    ensures Appended(e, d, maxBytes, bytes)
  {
    hide RetainedTextIs, IsSuffix;
    forall base: Bytes | RetainedTextIs(d, maxBytes, base)
      ensures EndsIn(e, maxBytes, base + bytes)
    {
      RetainedTextIsUnique(d, maxBytes, base, whole);
    }
  }

  /** What a directory retains decides whether the append survives in it. */
  lemma {:induction false} SurvivesIfItEndsSome(d: Directory, maxBytes: nat, base: Bytes, bytes: Bytes, text: Bytes)
    requires RetainedTextIs(d, maxBytes, text)
    ensures Survives(d, maxBytes, base, bytes) <==> EndsSome(text, base, bytes)
  {
    hide RetainedTextIs, IsSuffix;
    if Survives(d, maxBytes, base, bytes) {
      var other: Bytes, k: nat :| k <= |bytes| && RetainedTextIs(d, maxBytes, other) && IsSuffix(other, base + bytes[..k]);
      RetainedTextIsUnique(d, maxBytes, text, other);
    }
    if EndsSome(text, base, bytes) {
      var k: nat :| k <= |bytes| && IsSuffix(text, base + bytes[..k]);
      assert RetainedTextIs(d, maxBytes, text) && IsSuffix(text, base + bytes[..k]);
    }
  }

  lemma {:induction false} AppendedEndsWithoutGap(before: seq<Directory>, history: seq<Directory>, from: nat,
        d: Directory, whole: Bytes,
                               maxBytes: nat, bytes: Bytes)
    requires before <= history && AllKeepText(before, from, d, maxBytes) && RetainedTextIs(d, maxBytes, whole)
    requires NoGap(whole, maxBytes, |bytes|) ==> AllSurvive(history, |before|, maxBytes, whole, bytes)
    ensures EndsWithoutGap(history, from, d, maxBytes, bytes)
  {
    hide RetainedTextIs, AllKeepText, AllSurvive, NoGap;
    forall base: Bytes | RetainedTextIs(d, maxBytes, base) && NoGap(base, maxBytes, |bytes|)
      ensures AllSurvive(history, from, maxBytes, base, bytes)
    {
      RetainedTextIsUnique(d, maxBytes, base, whole);
      DirectorySurvives(d, maxBytes, base, bytes);
      KeptTextSurvives(before, from, d, maxBytes, base, bytes);
      SurviveTwice(before, history, from, maxBytes, base, bytes);
    }
  }

  lemma {:induction false} DirectorySurvives(d: Directory, maxBytes: nat, base: Bytes, bytes: Bytes)
    requires RetainedTextIs(d, maxBytes, base)
    ensures Survives(d, maxBytes, base, bytes)
  {
    assert base + bytes[..0] == base && IsSuffix(base, base + bytes[..0]);
  }

  lemma {:induction false} KeptEndsWithoutGap(history: seq<Directory>, from: nat, d: Directory, maxBytes: nat, bytes: Bytes)
    requires AllKeepText(history, from, d, maxBytes)
    ensures EndsWithoutGap(history, from, d, maxBytes, bytes)
  {
    hide RetainedTextIs, AllKeepText, AllSurvive, NoGap;
    forall base: Bytes | RetainedTextIs(d, maxBytes, base) && NoGap(base, maxBytes, |bytes|)
      ensures AllSurvive(history, from, maxBytes, base, bytes)
    {
      DirectorySurvives(d, maxBytes, base, bytes);
      KeptTextSurvives(history, from, d, maxBytes, base, bytes);
    }
  }

  lemma {:induction false} ReplacedEndsWithoutGap(before: seq<Directory>, history: seq<Directory>, from: nat,
        d: Directory, contents: seq<Bytes>,
                               maxBytes: nat, n: nat, bytes: Bytes)
    requires before <= history && AllKeepText(before, from, d, maxBytes) && RetainedTextIs(d, maxBytes, Joined(contents))
    requires maxBytes <= |bytes| && |contents| <= RetainedSegmentLimit(maxBytes)
    requires forall i | 0 <= i < |contents| :: contents[i] != []
    requires AllReplaced(history, |before|, contents, maxBytes, n, Tail(bytes, maxBytes))
    ensures EndsWithoutGap(history, from, d, maxBytes, bytes)
  {
    hide RetainedTextIs, ReplaceLeaves, AllKeepText, NoGap, EndsWithoutGap, Survives, EndsSome, Joined,
          RetainedSegmentLimit, Tail;
    var whole := Joined(contents);
    if NoGap(whole, maxBytes, |bytes|) {
      forall i | |before| <= i < |history|
        ensures Survives(history[i], maxBytes, whole, bytes)
      {
        assert Replaced(history[i], contents, maxBytes, n, Tail(bytes, maxBytes));
        var text: Bytes :| RetainedTextIs(history[i], maxBytes, text) && ReplaceLeaves(contents, maxBytes, n, Tail(bytes, maxBytes), text);
        NoGapEndsSome(contents, whole, maxBytes, n, bytes, text);
        SurvivesIfItEndsSome(history[i], maxBytes, whole, bytes, text);
      }
    }
    AppendedEndsWithoutGap(before, history, from, d, whole, maxBytes, bytes);
  }

  lemma {:induction false} GapsAreRecorded(before: seq<Directory>, history: seq<Directory>, from: nat, d: Directory,
        contents: seq<Bytes>,
                        maxBytes: nat, n: nat, bytes: Bytes)
    requires from <= |before| && RetainedTextIs(d, maxBytes, Joined(contents)) && |contents| <= RetainedSegmentLimit(maxBytes)
    requires 0 < maxBytes <= |bytes| && EachPieceRecorded(history, |before|, contents, maxBytes, n, Tail(bytes, maxBytes))
    requires forall i | 0 <= i < |contents| :: contents[i] != []
    ensures GapsRecorded(history, from, d, maxBytes, bytes)
  {
    hide RetainedTextIs, LastContents, Joined, IsSuffix, RetainedSegmentLimit;
    var suffix := Tail(bytes, maxBytes);
    SomethingJoined(contents);
    forall base: Bytes | RetainedTextIs(d, maxBytes, base) && !NoGap(base, maxBytes, |bytes|)
      ensures Torn(history, from, maxBytes, base, bytes)
    {
      RetainedTextIsUnique(d, maxBytes, base, Joined(contents));
      var last := contents[|contents| - 1];
      LastWithPiece(contents, maxBytes, suffix[..1]);
      WholeEnds(base);
      LastEnds(contents, base);
      assert RecordedText(history, |before|, maxBytes, last + suffix[..1]);
      assert RecordedText(history, from, maxBytes, last + suffix[..1]);
    }
  }

  lemma {:induction false} WholeEnds(text: Bytes)
    ensures IsSuffix(text, text)
  {
  }
}
