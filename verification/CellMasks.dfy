/** Cell-state masks, for selection and search matches, and the rectangles that
    paint them (src/qsg_terminal_renderer.cpp). */
module CellMasks {
  import opened RasterIndex

  datatype Span = Span(row: int, first: int, count: int, state: nat)

  datatype Glyph = Glyph(continuation: bool, row: int, column: int, displayWidth: int)

  datatype Rect = Rect(row: int, first: int, count: int, state: nat)

  function Max(a: nat, b: nat): (r: nat)
    ensures r >= a && r >= b && (r == a || r == b)
  {
    if a < b then b else a
  }

  // ---- What a mask holds ----------------------------------------------------------------

  predicate SpanFits(span: Span, rows: int, columns: int) {
    0 <= span.row < rows && 0 <= span.first && 0 <= span.count && span.first + span.count <= columns
  }

  predicate Covers(span: Span, row: int, column: int) {
    span.row == row && span.first <= column < span.first + span.count
  }

  /** The largest state of the spans on a cell. */
  function SpanState(spans: seq<Span>, row: int, column: int): nat {
    if spans == [] then 0
    else
      var last := spans[|spans| - 1];
      Max(SpanState(spans[..|spans| - 1], row, column), if Covers(last, row, column) then last.state else 0)
  }

  /** A glyph of more than one column that lies in the grid. */
  predicate IsWide(g: Glyph, rows: int, columns: int) {
    !g.continuation && g.displayWidth > 1 && 0 <= g.row < rows && 0 <= g.column && g.displayWidth <= columns - g.column
  }

  predicate InGlyph(g: Glyph, row: int, column: int) {
    g.row == row && g.column <= column < g.column + g.displayWidth
  }

  predicate InGrid(rows: int, columns: int, row: int, column: int) {
    0 <= row < rows && 0 <= column < columns
  }

  /** A span fits when all its cells are cells of the grid. */
  lemma {:induction false} FittingSpans(span: Span, rows: int, columns: int)
    requires span.count > 0
    ensures SpanFits(span, rows, columns) <==>
      forall row, column | Covers(span, row, column) :: InGrid(rows, columns, row, column)
  {
    assert Covers(span, span.row, span.first) && Covers(span, span.row, span.first + span.count - 1);
    if forall row, column | Covers(span, row, column) :: InGrid(rows, columns, row, column) {
      assert InGrid(rows, columns, span.row, span.first) && InGrid(rows, columns, span.row, span.first + span.count - 1);
    }
  }

  /** A glyph is wide when it begins at least two cells and all of them are cells of the grid. */
  lemma {:induction false} WideGlyphs(g: Glyph, rows: int, columns: int)
    ensures IsWide(g, rows, columns) <==>
      && !g.continuation && 2 <= g.displayWidth
      && forall row, column | InGlyph(g, row, column) :: InGrid(rows, columns, row, column)
  {
    if 2 <= g.displayWidth {
      assert InGlyph(g, g.row, g.column) && InGlyph(g, g.row, g.column + g.displayWidth - 1);
      if forall row, column | InGlyph(g, row, column) :: InGrid(rows, columns, row, column) {
        assert InGrid(rows, columns, g.row, g.column) && InGrid(rows, columns, g.row, g.column + g.displayWidth - 1);
      }
    }
  }

  /** The state of a cell once each wide glyph took the largest of its columns' states. */
  function State(spans: seq<Span>, glyphs: seq<Glyph>, rows: int, columns: int, row: int, column: int): nat
    decreases |glyphs|, 0
  {
    if glyphs == [] then SpanState(spans, row, column)
    else
      var front, last := glyphs[..|glyphs| - 1], glyphs[|glyphs| - 1];
      if IsWide(last, rows, columns) && InGlyph(last, row, column)
      then MaxState(spans, front, rows, columns, row, last.column, last.displayWidth)
      else State(spans, front, rows, columns, row, column)
  }

  /** The largest state of `count` columns. */
  function MaxState(spans: seq<Span>, glyphs: seq<Glyph>, rows: int, columns: int, row: int, first: int, count: nat): nat
    decreases |glyphs|, count + 1
  {
    if count == 0 then 0
    else Max(MaxState(spans, glyphs, rows, columns, row, first, count - 1),
             State(spans, glyphs, rows, columns, row, first + count - 1))
  }

  predicate Overlap(a: Glyph, b: Glyph) {
    a.row == b.row && a.column < b.column + b.displayWidth && b.column < a.column + a.displayWidth
  }

  /** A wide glyph no later wide glyph overlaps has one state, the largest there was. */
  lemma {:induction false} WideGlyphIsUniform(spans: seq<Span>, glyphs: seq<Glyph>, rows: int, columns: int, k: nat, column: int)
    requires k < |glyphs| && IsWide(glyphs[k], rows, columns) && InGlyph(glyphs[k], glyphs[k].row, column)
    requires forall j | k < j < |glyphs| && IsWide(glyphs[j], rows, columns) :: !Overlap(glyphs[k], glyphs[j])
    ensures State(spans, glyphs, rows, columns, glyphs[k].row, column)
         == MaxState(spans, glyphs[..k], rows, columns, glyphs[k].row, glyphs[k].column, glyphs[k].displayWidth)
  {
    var last := |glyphs| - 1;
    if k < last {
      WideGlyphIsUniform(spans, glyphs[..last], rows, columns, k, column);
      assert glyphs[..last][..k] == glyphs[..k];
    }
  }

  /** A cell outside every wide glyph has the largest state of its spans. */
  lemma {:induction false} NarrowCellIsUnchanged(spans: seq<Span>, glyphs: seq<Glyph>, rows: int, columns: int, row: int,
        column: int)
    requires forall k | 0 <= k < |glyphs| && IsWide(glyphs[k], rows, columns) :: !InGlyph(glyphs[k], row, column)
    ensures State(spans, glyphs, rows, columns, row, column) == SpanState(spans, row, column)
  {
    if glyphs != [] {
      NarrowCellIsUnchanged(spans, glyphs[..|glyphs| - 1], rows, columns, row, column);
    }
  }

  // ---- Building a mask --------------------------------------------------------------------

  /** `states`, row after row, holds `f` of each cell. */
  ghost predicate Holds(states: seq<nat>, rows: nat, columns: nat, spans: seq<Span>, glyphs: seq<Glyph>) {
    && |states| == columns * rows
    && forall column: int, row: int | 0 <= column < columns && 0 <= row < rows ::
         At(states, columns, column, row) == State(spans, glyphs, rows, columns, row, column)
  }

  /** What changing a run of one row does to the mask. */
  lemma {:induction false} ChangedRun(before: seq<nat>, after: seq<nat>, columns: nat, rows: nat, first: nat, row: nat,
        count: nat, state: nat, merge: bool)
    requires |before| == |after| == columns * rows && first + count <= columns && row < rows
    requires forall i | 0 <= i < |after| ::
      after[i] == if row * columns + first <= i < row * columns + first + count
                  then (if merge then Max(before[i], state) else state) else before[i]
    ensures forall column: int, r: int | 0 <= column < columns && 0 <= r < rows ::
      At(after, columns, column, r) ==
        if r == row && first <= column < first + count
        then (if merge then Max(At(before, columns, column, r), state) else state) else At(before, columns, column, r)
  {
    forall column: int, r: int | 0 <= column < columns && 0 <= r < rows
      ensures At(after, columns, column, r) ==
        if r == row && first <= column < first + count
        then (if merge then Max(At(before, columns, column, r), state) else state) else At(before, columns, column, r)
    {
      RunIsInOneRow(columns, first, row, count, column, r);
      InsideBuffer(columns, rows, column, r, 1);
    }
  }

  method MergeRun(states: seq<nat>, begin: nat, count: nat, state: nat) returns (merged: seq<nat>)
    requires begin + count <= |states|
    ensures |merged| == |states|
    ensures forall i | 0 <= i < |merged| ::
      merged[i] == if begin <= i < begin + count then Max(states[i], state) else states[i]
  {
    merged := states;
    var i := begin;
    while i < begin + count
      invariant begin <= i <= begin + count && |merged| == |states|
      invariant forall j | 0 <= j < |merged| :: merged[j] == if begin <= j < i then Max(states[j], state) else states[j]
    {
      merged := merged[i := Max(merged[i], state)];
      i := i + 1;
    }
  }

  method MaxElement(states: seq<nat>, begin: nat, count: nat) returns (largest: nat)
    requires 0 < count && begin + count <= |states|
    ensures largest == MaxOf(states[begin..begin + count])
  {
    largest := states[begin];
    var i := 1;
    assert states[begin..begin + 1] == [states[begin]];
    while i < count
      invariant 1 <= i <= count && largest == MaxOf(states[begin..begin + i])
    {
      assert states[begin..begin + i + 1] == states[begin..begin + i] + [states[begin + i]];
      largest := Max(largest, states[begin + i]);
      i := i + 1;
    }
  }

  function MaxOf(s: seq<nat>): nat {
    if s == [] then 0 else Max(MaxOf(s[..|s| - 1]), s[|s| - 1])
  }

  lemma {:induction false} MaxOfRun(states: seq<nat>, spans: seq<Span>, glyphs: seq<Glyph>, rows: nat, columns: nat,
        row: nat, first: nat, count: nat)
    requires Holds(states, rows, columns, spans, glyphs) && row < rows && first + count <= columns
    requires 0 <= row * columns + first && row * columns + first + count <= |states|
    ensures MaxOf(states[row * columns + first..row * columns + first + count])
         == MaxState(spans, glyphs, rows, columns, row, first, count)
  {
    if count > 0 {
      MaxOfRun(states, spans, glyphs, rows, columns, row, first, count - 1);
      var run := states[row * columns + first..row * columns + first + count];
      assert run[..count - 1] == states[row * columns + first..row * columns + first + count - 1];
      assert run[count - 1] == states[row * columns + (first + count - 1)];
      assert At(states, columns, first + count - 1, row) == states[row * columns + (first + count - 1)];
    }
  }

  method BuildCellStateMask(rows: int, columns: int, spans: seq<Span>, glyphs: seq<Glyph>) returns (states: seq<nat>)
    requires forall k | 0 <= k < |spans| :: SpanFits(spans[k], rows, columns)
    ensures rows <= 0 || columns <= 0 || spans == [] ==> states == []
    ensures rows > 0 && columns > 0 && spans != [] ==> Holds(states, rows, columns, spans, glyphs)
  {
    if rows <= 0 || columns <= 0 || spans == [] {
      return [];
    }
    states := seq(columns * rows, _ => 0);
    NoSpans(states, rows, columns);
    var k := 0;
    while k < |spans|
      invariant 0 <= k <= |spans| && Holds(states, rows, columns, spans[..k], [])
    {
      states := MergeSpan(states, rows, columns, spans[..k], spans[k]);
      assert spans[..k + 1] == spans[..k] + [spans[k]];
      k := k + 1;
    }
    assert spans[..k] == spans;
    k := 0;
    while k < |glyphs|
      invariant 0 <= k <= |glyphs| && Holds(states, rows, columns, spans, glyphs[..k])
    {
      states := WidenGlyph(states, rows, columns, spans, glyphs[..k], glyphs[k]);
      assert glyphs[..k + 1] == glyphs[..k] + [glyphs[k]];
      k := k + 1;
    }
    assert glyphs[..k] == glyphs;
  }

  lemma {:induction false} NoSpans(states: seq<nat>, rows: nat, columns: nat)
    requires |states| == columns * rows && forall i | 0 <= i < |states| :: states[i] == 0
    ensures Holds(states, rows, columns, [], [])
  {
  }

  method MergeSpan(states: seq<nat>, rows: nat, columns: nat, ghost spans: seq<Span>, span: Span) returns (merged: seq<nat>)
    requires Holds(states, rows, columns, spans, []) && SpanFits(span, rows, columns)
    ensures Holds(merged, rows, columns, spans + [span], [])
  {
    InsideBuffer(columns, rows, span.first, span.row, span.count);
    merged := MergeRun(states, span.row * columns + span.first, span.count, span.state);
    ChangedRun(states, merged, columns, rows, span.first, span.row, span.count, span.state, true);
    SpanStep(states, merged, rows, columns, spans, span);
  }

  lemma {:induction false} SpanStep(states: seq<nat>, merged: seq<nat>, rows: nat, columns: nat, spans: seq<Span>, span: Span)
    requires Holds(states, rows, columns, spans, []) && |merged| == |states|
    requires forall column: int, row: int | 0 <= column < columns && 0 <= row < rows ::
      At(merged, columns, column, row) ==
        if row == span.row && span.first <= column < span.first + span.count
        then Max(At(states, columns, column, row), span.state) else At(states, columns, column, row)
    ensures Holds(merged, rows, columns, spans + [span], [])
  {
    hide At;
    assert (spans + [span])[..|spans|] == spans;
    forall column: int, row: int | 0 <= column < columns && 0 <= row < rows
      ensures At(merged, columns, column, row) == State(spans + [span], [], rows, columns, row, column)
    {
      assert At(states, columns, column, row) == State(spans, [], rows, columns, row, column);
    }
  }

  method WidenGlyph(states: seq<nat>, rows: nat, columns: nat, ghost spans: seq<Span>, ghost glyphs: seq<Glyph>, g: Glyph)
    returns (widened: seq<nat>)
    requires Holds(states, rows, columns, spans, glyphs)
    ensures Holds(widened, rows, columns, spans, glyphs + [g])
  {
    widened := states;
    if IsWide(g, rows, columns) {
      InsideBuffer(columns, rows, g.column, g.row, g.displayWidth);
      var begin := g.row * columns + g.column;
      var glyphState := MaxElement(states, begin, g.displayWidth);
      MaxOfRun(states, spans, glyphs, rows, columns, g.row, g.column, g.displayWidth);
      if glyphState != 0 {
        widened := states[..begin] + seq(g.displayWidth, _ => glyphState) + states[begin + g.displayWidth..];
      } else {
        ZeroRun(states[begin..begin + g.displayWidth]);
      }
      ChangedRun(states, widened, columns, rows, g.column, g.row, g.displayWidth, glyphState, false) by {
        forall i | begin <= i < begin + g.displayWidth
          ensures widened[i] == glyphState
        {
          assert widened[i] == (if glyphState != 0 then glyphState else states[begin..begin + g.displayWidth][i - begin]);
        }
      }
    }
    GlyphStep(states, widened, rows, columns, spans, glyphs, g);
  }

  lemma {:induction false} ZeroRun(s: seq<nat>)
    requires MaxOf(s) == 0
    ensures forall i | 0 <= i < |s| :: s[i] == 0
  {
    if s != [] {
      ZeroRun(s[..|s| - 1]);
    }
  }

  lemma {:induction false} GlyphStep(states: seq<nat>, widened: seq<nat>, rows: nat, columns: nat, spans: seq<Span>,
        glyphs: seq<Glyph>, g: Glyph)
    requires Holds(states, rows, columns, spans, glyphs) && |widened| == |states|
    requires !IsWide(g, rows, columns) ==> widened == states
    requires IsWide(g, rows, columns) ==> forall column: int, row: int | 0 <= column < columns && 0 <= row < rows ::
      At(widened, columns, column, row) ==
        if row == g.row && g.column <= column < g.column + g.displayWidth
        then MaxState(spans, glyphs, rows, columns, row, g.column, g.displayWidth) else At(states, columns, column, row)
    ensures Holds(widened, rows, columns, spans, glyphs + [g])
  {
    hide At;
    assert (glyphs + [g])[..|glyphs|] == glyphs;
    forall column: int, row: int | 0 <= column < columns && 0 <= row < rows
      ensures At(widened, columns, column, row) == State(spans, glyphs + [g], rows, columns, row, column)
    {
      assert At(states, columns, column, row) == State(spans, glyphs, rows, columns, row, column);
    }
  }

  // ---- Rectangles -----------------------------------------------------------------------

  predicate InRect(r: Rect, row: int, column: int) {
    r.row == row && r.first <= column < r.first + r.count
  }

  /** A rectangle is a longest run of one state. */
  ghost predicate IsRun(states: seq<nat>, rows: nat, columns: nat, r: Rect) {
    && 0 <= r.row < rows && 0 <= r.first && 0 < r.count && r.first + r.count <= columns && r.state != 0
    && (forall column: int | r.first <= column < r.first + r.count :: At(states, columns, column, r.row) == r.state)
    && (r.first > 0 ==> At(states, columns, r.first - 1, r.row) != r.state)
    && (r.first + r.count < columns ==> At(states, columns, r.first + r.count, r.row) != r.state)
  }

  predicate Before(a: Rect, b: Rect) {
    a.row < b.row || (a.row == b.row && a.first + a.count <= b.first)
  }

  /** Whether a rectangle paints a cell. */
  predicate Painted(rects: seq<Rect>, row: int, column: int) {
    exists k :: 0 <= k < |rects| && InRect(rects[k], row, column)
  }

  /** The rectangles, in order and apart, are the runs of the cells before a position. */
  ghost predicate PaintsUpTo(states: seq<nat>, rows: nat, columns: nat, rects: seq<Rect>, row: int, column: int) {
    && (forall k | 0 <= k < |rects| :: IsRun(states, rows, columns, rects[k]))
    && (forall k | 0 <= k < |rects| :: rects[k].row < row || (rects[k].row == row && rects[k].first + rects[k].count <= column))
    && (forall j, k | 0 <= j < k < |rects| :: Before(rects[j], rects[k]))
    && (forall r: int, c: int | 0 <= r < rows && 0 <= c < columns && (r < row || (r == row && c < column)) ::
          Painted(rects, r, c) <==> At(states, columns, c, r) != 0)
  }

  /** Painting the rectangles gives back the mask: each cell with a state is in
      exactly one of them, which has that state. */
  lemma {:induction false} RectsGiveBackMask(states: seq<nat>, rows: nat, columns: nat, rects: seq<Rect>, row: int, column: int)
    requires PaintsUpTo(states, rows, columns, rects, rows, 0) && 0 <= row < rows && 0 <= column < columns
    ensures At(states, columns, column, row) != 0 ==>
      exists k :: 0 <= k < |rects| && InRect(rects[k], row, column) && rects[k].state == At(states, columns, column, row)
        && forall j :: 0 <= j < |rects| && InRect(rects[j], row, column) ==> j == k
    ensures At(states, columns, column, row) == 0 ==> !Painted(rects, row, column)
  {
    assert Painted(rects, row, column) <==> At(states, columns, column, row) != 0;
    if Painted(rects, row, column) {
      var k :| 0 <= k < |rects| && InRect(rects[k], row, column);
      assert IsRun(states, rows, columns, rects[k]);
      forall j | 0 <= j < |rects| && InRect(rects[j], row, column)
        ensures j == k
      {
        assert j < k ==> Before(rects[j], rects[k]);
        assert k < j ==> Before(rects[k], rects[j]);
      }
    }
  }

  method AppendCellStateRects(states: seq<nat>, rows: nat, columns: nat) returns (rects: seq<Rect>)
    requires |states| == columns * rows || states == []
    ensures states == [] ==> rects == []
    ensures states != [] ==> PaintsUpTo(states, rows, columns, rects, rows, 0)
  {
    rects := [];
    if states == [] {
      return;
    }
    var row := 0;
    while row < rows
      invariant 0 <= row <= rows && PaintsUpTo(states, rows, columns, rects, row, 0)
    {
      var column := 0;
      while column < columns
        invariant 0 <= column <= columns && PaintsUpTo(states, rows, columns, rects, row, column)
        invariant column < columns ==> StartsHere(states, columns, row, column)
      {
        InsideBuffer(columns, rows, column, row, 1);
        var state := states[row * columns + column];
        assert state == At(states, columns, column, row);
        if state == 0 {
          SkipCell(states, rows, columns, rects, row, column);
          column := column + 1;
        } else {
          var first := column;
          column := RunEnd(states, rows, columns, row, first, state);
          AddRun(states, rows, columns, rects, row, first, column, state);
          rects := rects + [Rect(row, first, column - first, state)];
        }
      }
      NextRow(states, rows, columns, rects, row);
      row := row + 1;
    }
  }

  /** Where the run that begins at `first` ends. */
  method RunEnd(states: seq<nat>, rows: nat, columns: nat, row: nat, first: nat, state: nat) returns (end: nat)
    requires |states| == columns * rows && row < rows && first < columns && At(states, columns, first, row) == state
    ensures first < end <= columns
    ensures forall c: int | first <= c < end :: At(states, columns, c, row) == state
    ensures end < columns ==> At(states, columns, end, row) != state
  {
    end := first;
    while end < columns
      invariant first <= end <= columns && (forall c: int | first <= c < end :: At(states, columns, c, row) == state)
      invariant end == first ==> At(states, columns, end, row) == state
    {
      InsideBuffer(columns, rows, end, row, 1);
      if states[row * columns + end] != state {
        return;
      }
      end := end + 1;
    }
  }

  /** No run reaches from the left of a position to it. */
  ghost predicate StartsHere(states: seq<nat>, columns: nat, row: nat, column: nat) {
    column > 0 && At(states, columns, column, row) != 0 ==>
      At(states, columns, column - 1, row) != At(states, columns, column, row)
  }

  lemma {:induction false} SkipCell(states: seq<nat>, rows: nat, columns: nat, rects: seq<Rect>, row: nat, column: nat)
    requires PaintsUpTo(states, rows, columns, rects, row, column) && row < rows && column < columns
    requires At(states, columns, column, row) == 0
    ensures PaintsUpTo(states, rows, columns, rects, row, column + 1)
    ensures column + 1 < columns ==> StartsHere(states, columns, row, column + 1)
  {
    hide At;
    assert !Painted(rects, row, column);
  }

  lemma {:induction false} AddRun(states: seq<nat>, rows: nat, columns: nat, rects: seq<Rect>, row: nat, first: nat,
        end: nat, state: nat)
    requires PaintsUpTo(states, rows, columns, rects, row, first) && row < rows && first < end <= columns && state != 0
    requires StartsHere(states, columns, row, first)
    requires forall c: int | first <= c < end :: At(states, columns, c, row) == state
    requires end < columns ==> At(states, columns, end, row) != state
    ensures PaintsUpTo(states, rows, columns, rects + [Rect(row, first, end - first, state)], row, end)
    ensures end < columns ==> StartsHere(states, columns, row, end)
  {
    hide At, Before;
    var r := Rect(row, first, end - first, state);
    var more := rects + [r];
    assert At(states, columns, first, row) == state && At(states, columns, end - 1, row) == state;
    assert IsRun(states, rows, columns, r);
    InOrder(states, rows, columns, rects, row, first, r);
    AddRunPaints(states, rows, columns, rects, r, row, first, end, state);
  }

  lemma {:induction false} AddRunPaints(states: seq<nat>, rows: nat, columns: nat, rects: seq<Rect>, r: Rect, row: nat, first: nat,
        end: nat, state: nat)
    requires PaintsUpTo(states, rows, columns, rects, row, first) && row < rows && first < end <= columns && state != 0
    requires r == Rect(row, first, end - first, state)
    requires forall c: int | first <= c < end :: At(states, columns, c, row) == state
    ensures forall y: int, c: int | 0 <= y < rows && 0 <= c < columns && (y < row || (y == row && c < end)) ::
      Painted(rects + [r], y, c) <==> At(states, columns, c, y) != 0
  {
    hide At, Before, IsRun;
    forall y: int, c: int | 0 <= y < rows && 0 <= c < columns && (y < row || (y == row && c < end))
      ensures Painted(rects + [r], y, c) <==> At(states, columns, c, y) != 0
    {
      PaintedStep(rects, r, y, c);
      if y == row && c >= first {
        assert InRect(r, y, c);
      } else {
        assert !InRect(r, y, c);
      }
    }
  }

  lemma {:induction false} InOrder(states: seq<nat>, rows: nat, columns: nat, rects: seq<Rect>, row: nat, first: nat, r: Rect)
    requires PaintsUpTo(states, rows, columns, rects, row, first) && r.row == row && r.first == first && IsRun(states, rows, columns, r)
    ensures var more := rects + [r];
            && (forall k | 0 <= k < |more| :: IsRun(states, rows, columns, more[k]))
            && (forall k | 0 <= k < |more| :: more[k].row < row || (more[k].row == row && more[k].first + more[k].count <= first + r.count))
            && (forall j, k | 0 <= j < k < |more| :: Before(more[j], more[k]))
  {
    hide IsRun, At;
    assert r.count > 0 by {
      RunIsLong(states, rows, columns, r);
    }
  }

  lemma {:induction false} RunIsLong(states: seq<nat>, rows: nat, columns: nat, r: Rect)
    requires IsRun(states, rows, columns, r)
    ensures r.count > 0
  {
  }

  lemma {:induction false} PaintedStep(rects: seq<Rect>, r: Rect, row: int, column: int)
    ensures Painted(rects + [r], row, column) <==> Painted(rects, row, column) || InRect(r, row, column)
  {
    var more := rects + [r];
    assert more[|rects|] == r;
    assert forall k | 0 <= k < |rects| :: more[k] == rects[k];
  }

  lemma {:induction false} NextRow(states: seq<nat>, rows: nat, columns: nat, rects: seq<Rect>, row: nat)
    requires PaintsUpTo(states, rows, columns, rects, row, columns) && row < rows
    ensures PaintsUpTo(states, rows, columns, rects, row + 1, 0)
  {
  }
}
