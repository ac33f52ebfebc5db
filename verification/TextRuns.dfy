/** Coalescing of ASCII text runs and full-block rectangles while a frame is built
    (src/qsg_terminal_renderer.cpp). Geometry is in whole columns. */
module TextRuns {
  datatype Option<T> = None | Some(value: T)

  const MAX_RUN_LENGTH := 384
  const NO_HYPERLINK := 0

  /** A colour: what it paints, and what else it carries. */
  datatype Color = Color(rgba: nat, alpha: nat, detail: nat)

  /** What a cell's text is as a terminal graphic. */
  datatype Graphic = NotGraphic | FullBlock | Primitive(shapes: seq<nat>, rendered: bool)

  /** A cell with what the pass looked up for it. */
  datatype Cell = Cell(
    skipped: bool,
    row: int, column: int, displayWidth: int,
    text: string,
    printableCategory: bool,
    graphic: Graphic,
    foreground: Color, background: Color,
    styleId: nat, hyperlinkId: nat, underline: bool, strike: bool,
    logicalRow: int, retainedLineId: nat, contentGeneration: nat,
    blockCursor: bool, imePreedit: bool)
  {
    predicate Protected() { blockCursor || imePreedit }

    /** The cell is drawn with rectangles, when the attempt to do so succeeds. */
    predicate TriesGraphic() {
      !skipped && text != [] && !Protected() && !graphic.NotGraphic?
    }

    predicate DrawnAsGraphic() {
      TriesGraphic() && (graphic.FullBlock? || graphic.rendered)
    }

    predicate EmitsText() {
      !skipped && text != [] && !DrawnAsGraphic()
    }

    function PrintableUnit(): Option<char> {
      if |text| == 1 && ' ' <= text[0] <= '~' then Some(text[0]) else None
    }

    predicate Coalescable() {
      && displayWidth == 1 && printableCategory && PrintableUnit().Some?
      && !underline && !strike && hyperlinkId == NO_HYPERLINK && !Protected()
    }
  }

  /** `columns` is how wide the run's rectangle is. */
  datatype Run = Run(
    row: int, logicalRow: int, retainedLineId: nat, contentGeneration: nat,
    column: int, columns: int, text: string,
    foreground: Color, background: Color,
    styleId: nat, hyperlinkId: nat, underline: bool, strike: bool)

  datatype Shape = Block(row: int, column: int, columns: int, color: Color) | Other(shape: nat)

  // ---- Emission cell by cell ---------------------------------------------------------

  function CellRun(c: Cell): Run {
    Run(c.row, c.logicalRow, c.retainedLineId, c.contentGeneration, c.column, c.displayWidth, c.text,
        c.foreground, c.background, c.styleId, c.hyperlinkId, c.underline, c.strike)
  }

  function TextOf(c: Cell): seq<Cell> {
    if c.EmitsText() then [c] else []
  }

  function ShapesFrom(shapes: seq<nat>): (r: seq<Shape>)
    ensures |r| == |shapes|
  {
    seq(|shapes|, k requires 0 <= k < |shapes| => Other(shapes[k]))
  }

  /** The rectangles of one cell, in cells wide enough to show. */
  function ShapesOf(c: Cell, visible: bool): seq<Shape> {
    if !c.TriesGraphic() then []
    else match c.graphic
      case FullBlock =>
        if visible && c.displayWidth > 0 && c.foreground.alpha > 0
        then [Block(c.row, c.column, c.displayWidth, c.foreground)] else []
      case Primitive(shapes, _) => ShapesFrom(shapes)
      case NotGraphic => []
  }

  function TextCells(cells: seq<Cell>): seq<Cell> {
    if cells == [] then [] else TextCells(cells[..|cells| - 1]) + TextOf(cells[|cells| - 1])
  }

  function CellShapes(cells: seq<Cell>, visible: bool): seq<Shape> {
    if cells == [] then [] else CellShapes(cells[..|cells| - 1], visible) + ShapesOf(cells[|cells| - 1], visible)
  }

  function CellRuns(cells: seq<Cell>): (r: seq<Run>)
    ensures |r| == |cells|
  {
    seq(|cells|, k requires 0 <= k < |cells| => CellRun(cells[k]))
  }

  // ---- Taking a run apart ------------------------------------------------------------------

  function Paint(c: Color): Color {
    Color(c.rgba, 0, 0)
  }

  /** The run as it is painted: colours count by what they paint. */
  function Painted(run: Run): Run {
    run.(foreground := Paint(run.foreground), background := Paint(run.background))
  }

  function PaintedRuns(runs: seq<Run>): (r: seq<Run>)
    ensures |r| == |runs|
  {
    seq(|runs|, k requires 0 <= k < |runs| => Painted(runs[k]))
  }

  function PaintedShape(s: Shape): Shape {
    if s.Block? then s.(color := Paint(s.color)) else s
  }

  function PaintedShapes(shapes: seq<Shape>): (r: seq<Shape>)
    ensures |r| == |shapes|
  {
    seq(|shapes|, k requires 0 <= k < |shapes| => PaintedShape(shapes[k]))
  }

  /** A run of `count` cells, one column and one character each. */
  function Pieces(run: Run, count: nat): (r: seq<Run>)
    ensures count == 1 ==> r == [run]
  {
    if count == 1 || |run.text| != count then [run]
    else seq(count, k requires 0 <= k < count => run.(column := run.column + k, columns := 1, text := [run.text[k]]))
  }

  /** A rectangle cut after each of the given widths. */
  function Cut(s: Shape, widths: seq<int>): seq<Shape>
    decreases |widths|
  {
    if !s.Block? || |widths| <= 1 then [s]
    else
      var last := widths[|widths| - 1];
      Cut(s.(columns := s.columns - last), widths[..|widths| - 1]) + [s.(column := s.column + s.columns - last, columns := last)]
  }

  function Flatten<T>(parts: seq<seq<T>>): seq<T> {
    if parts == [] then [] else Flatten(parts[..|parts| - 1]) + parts[|parts| - 1]
  }

  /** Every emitted run, taken apart into its cells' pieces. */
  function AllPieces(runs: seq<Run>, origins: seq<seq<Cell>>): seq<Run>
    requires |runs| == |origins|
  {
    if runs == [] then []
    else AllPieces(runs[..|runs| - 1], origins[..|runs| - 1]) + Pieces(runs[|runs| - 1], |origins[|runs| - 1]|)
  }

  function Widths(shapes: seq<Shape>): (r: seq<int>)
    ensures |r| == |shapes|
  {
    seq(|shapes|, k requires 0 <= k < |shapes| => if shapes[k].Block? then shapes[k].columns else 0)
  }

  function AllCuts(rects: seq<Shape>, origins: seq<seq<Shape>>): seq<Shape>
    requires |rects| == |origins|
  {
    if rects == [] then []
    else AllCuts(rects[..|rects| - 1], origins[..|rects| - 1]) + Cut(rects[|rects| - 1], Widths(origins[|rects| - 1]))
  }

  // ---- What coalescing keeps -----------------------------------------------------------------

  /** A run stands for the cells it was made from. */
  predicate RunOk(run: Run, origin: seq<Cell>) {
    && 1 <= |origin| <= MAX_RUN_LENGTH
    && PaintedRuns(Pieces(run, |origin|)) == PaintedRuns(CellRuns(origin))
    && run.foreground == origin[0].foreground && run.background == origin[0].background
    && (|origin| == 1 ==> run == CellRun(origin[0]))
    && (|origin| > 1 ==> |run.text| == |origin| == run.columns && forall k | 0 <= k < |origin| :: origin[k].Coalescable())
  }

  predicate RunsOk(runs: seq<Run>, origins: seq<seq<Cell>>) {
    |runs| == |origins| && forall k | 0 <= k < |runs| :: RunOk(runs[k], origins[k])
  }

  predicate RectOk(rect: Shape, origin: seq<Shape>) {
    && 1 <= |origin| && PaintedShapes(Cut(rect, Widths(origin))) == PaintedShapes(origin)
    && (|origin| == 1 ==> rect == origin[0])
    && (|origin| > 1 ==> rect.Block? && origin[0].Block? && rect.color == origin[0].color)
    && (|origin| > 1 ==> forall k | 0 <= k < |origin| :: origin[k].Block?)
  }

  predicate RectsOk(rects: seq<Shape>, origins: seq<seq<Shape>>) {
    |rects| == |origins| && forall k | 0 <= k < |rects| :: RectOk(rects[k], origins[k])
  }

  lemma {:induction false} CellRunsJoin(a: seq<Cell>, b: seq<Cell>)
    ensures CellRuns(a + b) == CellRuns(a) + CellRuns(b)
  {
  }

  lemma {:induction false} RunsPush(runs: seq<Run>, origins: seq<seq<Cell>>, run: Run, origin: seq<Cell>)
    requires RunsOk(runs, origins) && RunOk(run, origin)
    ensures RunsOk(runs + [run], origins + [origin])
  {
  }

  lemma {:induction false} RunsGrow(runs: seq<Run>, origins: seq<seq<Cell>>, run: Run, origin: seq<Cell>)
    requires RunsOk(runs, origins) && RunOk(run, origin) && runs != []
    ensures RunsOk(runs[|runs| - 1 := run], origins[|runs| - 1 := origin])
  {
  }

  lemma {:induction false} RectsPush(rects: seq<Shape>, origins: seq<seq<Shape>>, rect: Shape, origin: seq<Shape>)
    requires RectsOk(rects, origins) && RectOk(rect, origin)
    ensures RectsOk(rects + [rect], origins + [origin])
  {
  }

  lemma {:induction false} RectsGrow(rects: seq<Shape>, origins: seq<seq<Shape>>, rect: Shape, origin: seq<Shape>)
    requires RectsOk(rects, origins) && RectOk(rect, origin) && rects != []
    ensures RectsOk(rects[|rects| - 1 := rect], origins[|rects| - 1 := origin])
  {
  }

  lemma {:induction false} PaintedJoin(a: seq<Run>, b: seq<Run>)
    ensures PaintedRuns(a + b) == PaintedRuns(a) + PaintedRuns(b)
  {
  }

  lemma {:induction false} PaintedShapesJoin(a: seq<Shape>, b: seq<Shape>)
    ensures PaintedShapes(a + b) == PaintedShapes(a) + PaintedShapes(b)
  {
  }

  /** The emitted runs taken apart paint what emission cell by cell would. */
  lemma {:induction false} RunsPaintTheCells(runs: seq<Run>, origins: seq<seq<Cell>>)
    requires RunsOk(runs, origins)
    ensures PaintedRuns(AllPieces(runs, origins)) == PaintedRuns(CellRuns(Flatten(origins)))
  {
    hide Pieces, PaintedRuns, CellRuns;
    if runs != [] {
      var last := |runs| - 1;
      RunsPaintTheCells(runs[..last], origins[..last]);
      assert RunOk(runs[last], origins[last]);
      PaintedJoin(AllPieces(runs[..last], origins[..last]), Pieces(runs[last], |origins[last]|));
      CellRunsJoin(Flatten(origins[..last]), origins[last]);
      PaintedJoin(CellRuns(Flatten(origins[..last])), CellRuns(origins[last]));
    }
  }

  lemma {:induction false} RectsPaintTheCells(rects: seq<Shape>, origins: seq<seq<Shape>>)
    requires RectsOk(rects, origins)
    ensures PaintedShapes(AllCuts(rects, origins)) == PaintedShapes(Flatten(origins))
  {
    if rects != [] {
      var last := |rects| - 1;
      RectsPaintTheCells(rects[..last], origins[..last]);
      assert RectOk(rects[last], origins[last]);
      PaintedShapesJoin(AllCuts(rects[..last], origins[..last]), Cut(rects[last], Widths(origins[last])));
      PaintedShapesJoin(Flatten(origins[..last]), origins[last]);
    }
  }

  // ---- One more cell ----------------------------------------------------------------------------

  /** The run grown by one cell. */
  function GrownRun(run: Run, c: Cell): Run {
    run.(text := run.text + c.text, columns := c.column + c.displayWidth - run.column)
  }

  /** A cell that may join the run. */
  predicate Joins(run: Run, c: Cell) {
    && c.Coalescable()
    && run.row == c.row && run.logicalRow == c.logicalRow && run.retainedLineId == c.retainedLineId
    && run.contentGeneration == c.contentGeneration && run.column + run.columns == c.column
    && run.foreground.rgba == c.foreground.rgba && run.background.rgba == c.background.rgba
    && run.styleId == c.styleId
    && !run.underline && !run.strike && run.hyperlinkId == NO_HYPERLINK
  }

  lemma {:induction false} JoinKeepsRun(run: Run, origin: seq<Cell>, c: Cell)
    requires RunOk(run, origin) && Joins(run, c) && |origin| < MAX_RUN_LENGTH
    requires forall k | 0 <= k < |origin| :: origin[k].Coalescable()
    ensures RunOk(GrownRun(run, c), origin + [c])
  {
    var grown, more := GrownRun(run, c), origin + [c];
    assert |origin| == 1 ==> run == CellRun(origin[0]) && run.columns == 1 && |run.text| == 1;
    var before, after := Pieces(run, |origin|), Pieces(grown, |more|);
    assert |run.text| == |origin| == run.columns;
    assert forall k | 0 <= k < |origin| :: PaintedRuns(before)[k] == PaintedRuns(CellRuns(origin))[k];
    forall k | 0 <= k < |more|
      ensures Painted(after[k]) == Painted(CellRuns(more)[k])
    {
      if k < |origin| {
        assert Painted(before[k]) == PaintedRuns(CellRuns(origin))[k] == Painted(CellRun(origin[k]));
        assert |origin| == 1 ==> [run.text[0]] == run.text;
        assert after[k] == before[k];
      } else {
        assert [grown.text[k]] == c.text;
      }
    }
  }

  /** Every cell of a run is painted by it with its own line, style, decorations and colours,
      and its text stands at its column. */
  lemma {:induction false} RunShowsItsCells(run: Run, origin: seq<Cell>, k: nat)
    requires RunOk(run, origin) && k < |origin|
    ensures var c := origin[k];
            && run.row == c.row && run.logicalRow == c.logicalRow && run.retainedLineId == c.retainedLineId
            && run.contentGeneration == c.contentGeneration && run.styleId == c.styleId && run.hyperlinkId == c.hyperlinkId
            && run.underline == c.underline && run.strike == c.strike
            && run.foreground.rgba == c.foreground.rgba && run.background.rgba == c.background.rgba
    ensures |origin| == 1 ==> run.text == origin[0].text && run.column == origin[0].column && run.columns == origin[0].displayWidth
    ensures |origin| > 1 ==>
      |run.text| == run.columns == |origin| && run.column + k == origin[k].column && [run.text[k]] == origin[k].text
  {
    var pieces := Pieces(run, |origin|);
    assert Painted(pieces[k]) == PaintedRuns(pieces)[k] == PaintedRuns(CellRuns(origin))[k] == Painted(CellRun(origin[k]));
  }

  /** A cell emits text unless it is skipped, empty, or drawn with rectangles, as no cell under
      the cursor or the preedit text is; a full block shows unless it has no extent or is transparent. */
  lemma {:induction false} EmittedCells(c: Cell, visible: bool)
    ensures var shows, graphic := !c.skipped && c.text != [], !c.blockCursor && !c.imePreedit && !c.graphic.NotGraphic?;
            && TextOf(c) == (if shows && !(graphic && (c.graphic.FullBlock? || c.graphic.rendered)) then [c] else [])
            && (c.graphic.FullBlock? ==>
                  ShapesOf(c, visible) == if shows && graphic && visible && 0 < c.displayWidth && 0 < c.foreground.alpha
                                          then [Block(c.row, c.column, c.displayWidth, c.foreground)] else [])
            && (c.graphic.Primitive? ==> |ShapesOf(c, visible)| == if shows && graphic then |c.graphic.shapes| else 0)
  {
  }

  /** Just cells of one column with one printable ASCII character, and nothing to them that a
      run would have to show for one cell alone, may share a run. */
  lemma {:induction false} PlainCells(c: Cell)
    ensures c.Coalescable() <==>
      && |c.text| == 1 && 32 <= c.text[0] as int <= 126 && c.displayWidth == 1 && c.printableCategory
      && !c.underline && !c.strike && c.hyperlinkId == 0 && !c.blockCursor && !c.imePreedit
  {
  }

  /** Cells under the cursor or the preedit text are never joined with others. */
  lemma {:induction false} ProtectedCellsStayAlone(runs: seq<Run>, origins: seq<seq<Cell>>, k: nat, i: nat)
    requires RunsOk(runs, origins) && k < |origins| && i < |origins[k]| && origins[k][i].Protected()
    ensures origins[k] == [origins[k][i]] && runs[k] == CellRun(origins[k][i])
  {
    assert RunOk(runs[k], origins[k]);
  }

  /** All cells have the colours of the first. */
  predicate SameColours(origin: seq<Cell>) {
    forall k | 0 <= k < |origin| :: origin[k].foreground == origin[0].foreground && origin[k].background == origin[0].background
  }

  /** All blocks have the colour of the first. */
  predicate SameColour(origin: seq<Shape>) {
    forall k | 0 <= k < |origin| && origin[k].Block? && origin[0].Block? :: origin[k].color == origin[0].color
  }

  /** Taken apart, a run gives back the cells' very colours if and only if they all had
      those of the first: joining compares what colours paint, not their details. */
  lemma {:induction false} ColoursAreExact(run: Run, origin: seq<Cell>)
    requires RunOk(run, origin)
    ensures |Pieces(run, |origin|)| == |origin|
    ensures Pieces(run, |origin|) == CellRuns(origin) <==> SameColours(origin)
  {
    var pieces := Pieces(run, |origin|);
    forall k | 0 <= k < |origin|
      ensures pieces[k].foreground == run.foreground && pieces[k].background == run.background
      ensures Painted(pieces[k]) == Painted(CellRun(origin[k]))
    {
      assert PaintedRuns(pieces)[k] == PaintedRuns(CellRuns(origin))[k];
    }
    if pieces == CellRuns(origin) {
      forall k | 0 <= k < |origin|
        ensures origin[k].foreground == origin[0].foreground && origin[k].background == origin[0].background
      {
        assert pieces[k] == CellRun(origin[k]);
      }
    } else {
      var k :| 0 <= k < |origin| && pieces[k] != CellRun(origin[k]);
      assert pieces[k].foreground != origin[k].foreground || pieces[k].background != origin[k].background;
    }
  }

  lemma {:induction false} AloneRunOk(c: Cell)
    ensures RunOk(CellRun(c), [c])
  {
    assert CellRuns([c]) == [CellRun(c)];
  }

  /** Two joined cells whose colours paint alike and differ in a detail: the second
      loses its own. */
  lemma {:induction false} ColourDetailIsLost(a: Cell, b: Cell)
    requires a.Coalescable() && Joins(CellRun(a), b)
    requires b.foreground != a.foreground || b.background != a.background
    ensures RunOk(GrownRun(CellRun(a), b), [a, b]) && Pieces(GrownRun(CellRun(a), b), 2) != CellRuns([a, b])
  {
    hide RunOk, Pieces, PaintedRuns, CellRuns;
    AloneRunOk(a);
    JoinKeepsRun(CellRun(a), [a], b);
    var both := [a] + [b];
    assert both == [a, b] && both[1] == b && both[0] == a;
    ColoursAreExact(GrownRun(CellRun(a), b), both);
  }

  lemma {:induction false} CellsThatPaintAlike() returns (a: Cell, b: Cell)
    ensures a.Coalescable() && Joins(CellRun(a), b) && b.foreground != a.foreground
  {
    a := Cell(false, 0, 0, 1, "a", true, NotGraphic, Color(7, 255, 0), Color(0, 255, 0), 1, NO_HYPERLINK, false, false, 0, 0, 0, false, false);
    b := a.(column := 1, foreground := Color(7, 255, 1));
  }

  predicate RectJoins(rect: Shape, c: Cell) {
    rect.Block? && rect.row == c.row && rect.column + rect.columns == c.column && rect.color.rgba == c.foreground.rgba
  }

  function GrownRect(rect: Shape, c: Cell): Shape
    requires rect.Block?
  {
    rect.(columns := c.column + c.displayWidth - rect.column)
  }

  lemma {:induction false} JoinKeepsRect(rect: Shape, origin: seq<Shape>, c: Cell)
    requires RectOk(rect, origin) && RectJoins(rect, c)
    ensures RectOk(GrownRect(rect, c), origin + [Block(c.row, c.column, c.displayWidth, c.foreground)])
  {
    var piece := Block(c.row, c.column, c.displayWidth, c.foreground);
    var grown, more := GrownRect(rect, c), origin + [piece];
    assert Widths(more)[..|origin|] == Widths(origin);
    assert grown.(columns := grown.columns - c.displayWidth) == rect;
    assert Cut(grown, Widths(more)) == Cut(rect, Widths(origin)) + [grown.(column := c.column, columns := c.displayWidth)];
    PaintedShapesJoin(Cut(rect, Widths(origin)), [grown.(column := c.column, columns := c.displayWidth)]);
    PaintedShapesJoin(origin, [piece]);
    assert PaintedShapes([grown.(column := c.column, columns := c.displayWidth)]) == PaintedShapes([piece]);
  }

  // ---- What is joined ---------------------------------------------------------------------------

  /** Two cells that belong in one run: the second stands right of the first in the same
      line, both plain, painted and styled alike. */
  predicate Follows(a: Cell, b: Cell) {
    && a.Coalescable() && b.Coalescable()
    && a.row == b.row && a.column + 1 == b.column
    && a.logicalRow == b.logicalRow && a.retainedLineId == b.retainedLineId && a.contentGeneration == b.contentGeneration
    && a.foreground.rgba == b.foreground.rgba && a.background.rgba == b.background.rgba && a.styleId == b.styleId
  }

  /** How many cells the last run has, when the next cell may join it; 0 when none may.
      A cell drawn with rectangles ends the run, one that emits nothing does not. */
  function OpenLength(cells: seq<Cell>): nat
    decreases cells, 0
  {
    if cells == [] then 0
    else
      var front, c := cells[..|cells| - 1], cells[|cells| - 1];
      if c.DrawnAsGraphic() then 0
      else if !c.EmitsText() then OpenLength(front)
      else if !c.Coalescable() then 0
      else if Continues(front, c) then OpenLength(front) + 1
      else 1
  }

  /** The cell joins the run that the cells before it left open. */
  predicate Continues(cells: seq<Cell>, c: Cell)
    decreases cells, 1
  {
    0 < OpenLength(cells) < MAX_RUN_LENGTH && TextCells(cells) != [] && Follows(TextCells(cells)[|TextCells(cells)| - 1], c)
  }

  /** The fewest runs: a cell starts its own only when it may not join. */
  function RunCount(cells: seq<Cell>): nat {
    if cells == [] then 0
    else
      var front, c := cells[..|cells| - 1], cells[|cells| - 1];
      RunCount(front) + if c.EmitsText() && !Continues(front, c) then 1 else 0
  }

  /** The visible full block that the next cell may widen. */
  function OpenCell(cells: seq<Cell>, visible: bool): Option<Cell> {
    if cells == [] then None
    else
      var front, c := cells[..|cells| - 1], cells[|cells| - 1];
      if c.skipped then OpenCell(front, visible)
      else if c.TriesGraphic() && c.graphic.FullBlock? && ShapesOf(c, visible) != [] then Some(c)
      else None
  }

  predicate Widens(a: Cell, b: Cell) {
    a.row == b.row && a.column + a.displayWidth == b.column && a.foreground.rgba == b.foreground.rgba
  }

  /** The fewest rectangles: a full block right of one painted alike widens it. */
  function RectCount(cells: seq<Cell>, visible: bool): nat {
    if cells == [] then 0
    else
      var front, c := cells[..|cells| - 1], cells[|cells| - 1];
      RectCount(front, visible) +
      if c.TriesGraphic() && c.graphic.FullBlock? && OpenCell(front, visible).Some? && Widens(OpenCell(front, visible).value, c)
      then 0 else |ShapesOf(c, visible)|
  }

  // ---- When nothing is lost at all ------------------------------------------------------------

  lemma {:induction false} CutColours(s: Shape, widths: seq<int>)
    requires s.Block? && |widths| >= 1
    ensures |Cut(s, widths)| == |widths|
    ensures forall k | 0 <= k < |widths| :: Cut(s, widths)[k].Block? && Cut(s, widths)[k].color == s.color
    decreases |widths|
  {
    if |widths| > 1 {
      var last := widths[|widths| - 1];
      CutColours(s.(columns := s.columns - last), widths[..|widths| - 1]);
    }
  }

  /** Cut apart, a rectangle gives back the blocks it was made from if and only if they
      all had the colour of the first. */
  lemma {:induction false} RectColoursAreExact(rect: Shape, origin: seq<Shape>)
    requires RectOk(rect, origin)
    ensures |Cut(rect, Widths(origin))| == |origin|
    ensures Cut(rect, Widths(origin)) == origin <==> SameColour(origin)
  {
    if |origin| > 1 {
      var cut := Cut(rect, Widths(origin));
      CutColours(rect, Widths(origin));
      forall k | 0 <= k < |origin|
        ensures PaintedShape(cut[k]) == PaintedShape(origin[k])
      {
        assert PaintedShapes(cut)[k] == PaintedShapes(origin)[k];
      }
    }
  }

  lemma {:induction false} JoinedEqual<T>(a: seq<T>, b: seq<T>, c: seq<T>, d: seq<T>)
    requires |a| == |c|
    ensures a + b == c + d <==> a == c && b == d
  {
    assert (a + b)[..|a|] == a && (a + b)[|a|..] == b;
    assert (c + d)[..|a|] == c && (c + d)[|a|..] == d;
  }

  /** The emitted runs taken apart are what emission cell by cell gives, if and only if
      the cells of every run had the same colours. */
  lemma {:induction false} AllPiecesExact(runs: seq<Run>, origins: seq<seq<Cell>>)
    requires RunsOk(runs, origins)
    ensures |AllPieces(runs, origins)| == |Flatten(origins)|
    ensures AllPieces(runs, origins) == CellRuns(Flatten(origins)) <==> forall k | 0 <= k < |origins| :: SameColours(origins[k])
  {
    hide Pieces, CellRuns, RunOk, SameColours;
    if runs != [] {
      var last := |runs| - 1;
      AllPiecesExact(runs[..last], origins[..last]);
      ColoursAreExact(runs[last], origins[last]);
      CellRunsJoin(Flatten(origins[..last]), origins[last]);
      JoinedEqual(AllPieces(runs[..last], origins[..last]), Pieces(runs[last], |origins[last]|),
                  CellRuns(Flatten(origins[..last])), CellRuns(origins[last]));
      assert forall k | 0 <= k < last :: origins[..last][k] == origins[k];
    }
  }

  lemma {:induction false} AllCutsExact(rects: seq<Shape>, origins: seq<seq<Shape>>)
    requires RectsOk(rects, origins)
    ensures |AllCuts(rects, origins)| == |Flatten(origins)|
    ensures AllCuts(rects, origins) == Flatten(origins) <==> forall k | 0 <= k < |origins| :: SameColour(origins[k])
  {
    hide Cut, RectOk, SameColour, Widths;
    if rects != [] {
      var last := |rects| - 1;
      AllCutsExact(rects[..last], origins[..last]);
      RectColoursAreExact(rects[last], origins[last]);
      JoinedEqual(AllCuts(rects[..last], origins[..last]), Cut(rects[last], Widths(origins[last])),
                  Flatten(origins[..last]), origins[last]);
      assert forall k | 0 <= k < last :: origins[..last][k] == origins[k];
    }
  }

  /** Among the cells, colours that paint alike are equal. */
  predicate PaintDecides(cells: seq<Cell>) {
    forall a, b | a in cells && b in cells ::
      && (a.foreground.rgba == b.foreground.rgba ==> a.foreground == b.foreground)
      && (a.background.rgba == b.background.rgba ==> a.background == b.background)
  }

  lemma {:induction false} PartOfFlatten<T>(parts: seq<seq<T>>, k: nat, i: nat)
    requires k < |parts| && i < |parts[k]|
    ensures parts[k][i] in Flatten(parts)
  {
    if k < |parts| - 1 {
      PartOfFlatten(parts[..|parts| - 1], k, i);
    }
  }

  lemma {:induction false} TextCellIsCell(cells: seq<Cell>, c: Cell)
    requires c in TextCells(cells)
    ensures c in cells
  {
    var last := |cells| - 1;
    if c in TextCells(cells[..last]) {
      TextCellIsCell(cells[..last], c);
    }
  }

  lemma {:induction false} BlockOfCell(cells: seq<Cell>, visible: bool, s: Shape) returns (c: Cell)
    requires s in CellShapes(cells, visible) && s.Block?
    ensures c in cells && s.color == c.foreground
  {
    var last := |cells| - 1;
    if s in CellShapes(cells[..last], visible) {
      c := BlockOfCell(cells[..last], visible, s);
    } else {
      c := cells[last];
    }
  }

  lemma {:induction false} RunPaintsAlike(run: Run, origin: seq<Cell>, k: nat)
    requires RunOk(run, origin) && k < |origin|
    ensures origin[k].foreground.rgba == origin[0].foreground.rgba && origin[k].background.rgba == origin[0].background.rgba
  {
    var pieces := Pieces(run, |origin|);
    assert PaintedRuns(pieces)[k] == PaintedRuns(CellRuns(origin))[k];
    assert Painted(pieces[k]) == Painted(CellRun(origin[k]));
  }

  lemma {:induction false} RectPaintsAlike(rect: Shape, origin: seq<Shape>, k: nat)
    requires RectOk(rect, origin) && k < |origin| && origin[k].Block?
    ensures origin[0].Block? && origin[k].color.rgba == origin[0].color.rgba
  {
    if |origin| > 1 {
      CutColours(rect, Widths(origin));
      assert PaintedShapes(Cut(rect, Widths(origin)))[k] == PaintedShapes(origin)[k];
    }
  }

  /** When colours that paint alike are equal, a run loses none. */
  lemma {:induction false} PaintDecidesRun(cells: seq<Cell>, runs: seq<Run>, origins: seq<seq<Cell>>, k: nat)
    requires PaintDecides(cells) && RunsOk(runs, origins) && Flatten(origins) == TextCells(cells) && k < |origins|
    ensures SameColours(origins[k])
  {
    hide RunOk, Flatten, TextCells;
    forall i | 0 <= i < |origins[k]|
      ensures origins[k][i].foreground == origins[k][0].foreground && origins[k][i].background == origins[k][0].background
    {
      RunPaintsAlike(runs[k], origins[k], i);
      PartOfFlatten(origins, k, i);
      PartOfFlatten(origins, k, 0);
      TextCellIsCell(cells, origins[k][i]);
      TextCellIsCell(cells, origins[k][0]);
    }
  }

  lemma {:induction false} PaintDecidesRect(cells: seq<Cell>, visible: bool, rects: seq<Shape>, origins: seq<seq<Shape>>, k: nat)
    requires PaintDecides(cells) && RectsOk(rects, origins) && Flatten(origins) == CellShapes(cells, visible) && k < |origins|
    ensures SameColour(origins[k])
  {
    hide RectOk, Flatten, CellShapes;
    forall i | 0 <= i < |origins[k]| && origins[k][i].Block? && origins[k][0].Block?
      ensures origins[k][i].color == origins[k][0].color
    {
      RectPaintsAlike(rects[k], origins[k], i);
      PartOfFlatten(origins, k, i);
      PartOfFlatten(origins, k, 0);
      var a := BlockOfCell(cells, visible, origins[k][i]);
      var b := BlockOfCell(cells, visible, origins[k][0]);
    }
  }

  /** When colours that paint alike are equal, the whole frame loses nothing: taken
      apart, it is what emission cell by cell gives. */
  lemma {:induction false} PaintDecidesFrame(cells: seq<Cell>, visible: bool, runs: seq<Run>, runOrigins: seq<seq<Cell>>,
                                             rects: seq<Shape>, rectOrigins: seq<seq<Shape>>)
    requires PaintDecides(cells) && RunsOk(runs, runOrigins) && RectsOk(rects, rectOrigins)
    requires Flatten(runOrigins) == TextCells(cells) && Flatten(rectOrigins) == CellShapes(cells, visible)
    ensures AllPieces(runs, runOrigins) == CellRuns(TextCells(cells))
    ensures AllCuts(rects, rectOrigins) == CellShapes(cells, visible)
  {
    hide PaintDecides, Flatten, TextCells, CellShapes, SameColours, SameColour, AllPieces, AllCuts, CellRuns, RunsOk, RectsOk;
    AllPiecesExact(runs, runOrigins);
    AllCutsExact(rects, rectOrigins);
    forall k | 0 <= k < |runOrigins|
      ensures SameColours(runOrigins[k])
    {
      PaintDecidesRun(cells, runs, runOrigins, k);
    }
    forall k | 0 <= k < |rectOrigins|
      ensures SameColour(rectOrigins[k])
    {
      PaintDecidesRect(cells, visible, rects, rectOrigins, k);
    }
  }
}
