/** The cell pass of a frame: it grows the last text run and the last full-block
    rectangle while cells continue them. */
module FrameBuilder {
  import opened TextRuns

  /** The run being grown, as the pass remembers it. */
  datatype OpenRun = OpenRun(index: nat, row: int, logicalRow: int, retainedLineId: nat, contentGeneration: nat,
                             endColumn: int, foregroundRgba: nat, backgroundRgba: nat, styleId: nat, length: nat)

  datatype OpenBlock = OpenBlock(index: nat, row: int, endColumn: int, foregroundRgba: nat)

  predicate OpenRunOk(o: OpenRun, runs: seq<Run>, origins: seq<seq<Cell>>) {
    && 0 < |runs| == |origins| && o.index == |runs| - 1
    && var run, origin := runs[o.index], origins[o.index];
      && o.row == run.row && o.logicalRow == run.logicalRow && o.retainedLineId == run.retainedLineId
      && o.contentGeneration == run.contentGeneration && o.endColumn == run.column + run.columns
      && o.foregroundRgba == run.foreground.rgba && o.backgroundRgba == run.background.rgba && o.styleId == run.styleId
      && o.length == |origin| && !run.underline && !run.strike && run.hyperlinkId == NO_HYPERLINK
      && forall k | 0 <= k < |origin| :: origin[k].Coalescable()
  }

  predicate OpenBlockOk(o: OpenBlock, rects: seq<Shape>) {
    && o.index < |rects| && o.index == |rects| - 1 && rects[o.index].Block?
    && o.row == rects[o.index].row && o.endColumn == rects[o.index].column + rects[o.index].columns
    && o.foregroundRgba == rects[o.index].color.rgba
  }

  /** The open run ends with this cell. */
  predicate EndsWith(o: OpenRun, c: Cell) {
    && o.row == c.row && o.endColumn == c.column + 1 && c.Coalescable()
    && o.logicalRow == c.logicalRow && o.retainedLineId == c.retainedLineId && o.contentGeneration == c.contentGeneration
    && o.foregroundRgba == c.foreground.rgba && o.backgroundRgba == c.background.rgba && o.styleId == c.styleId
  }

  predicate BlockEndsWith(o: OpenBlock, c: Cell) {
    o.row == c.row && o.endColumn == c.column + c.displayWidth && o.foregroundRgba == c.foreground.rgba
  }

  predicate CanJoin(open: Option<OpenRun>, c: Cell) {
    && open.Some? && open.value.length < MAX_RUN_LENGTH && c.Coalescable()
    && EndsWith(open.value, c.(column := open.value.endColumn - 1)) && open.value.endColumn == c.column
  }

  predicate CanWiden(open: Option<OpenBlock>, c: Cell) {
    open.Some? && open.value.row == c.row && open.value.endColumn == c.column && open.value.foregroundRgba == c.foreground.rgba
  }

  /** The runs are as few as they can be, and the open one is that the next cell may join. */
  ghost predicate FewestRuns(runs: seq<Run>, open: Option<OpenRun>, cells: seq<Cell>) {
    && |runs| == RunCount(cells) && (open.Some? <==> OpenLength(cells) > 0)
    && (open.Some? ==>
          && open.value.length == OpenLength(cells) && TextCells(cells) != []
          && EndsWith(open.value, TextCells(cells)[|TextCells(cells)| - 1]))
  }

  ghost predicate FewestRects(rects: seq<Shape>, open: Option<OpenBlock>, cells: seq<Cell>, visible: bool) {
    && |rects| == RectCount(cells, visible) && (open.Some? <==> OpenCell(cells, visible).Some?)
    && (open.Some? ==> BlockEndsWith(open.value, OpenCell(cells, visible).value))
  }

  class Builder {
    /** Whether a cell's rectangle has an area. */
    const visible: bool
    var textRuns: seq<Run>
    var graphicRects: seq<Shape>
    var openRun: Option<OpenRun>
    var openBlock: Option<OpenBlock>

    /** The cells processed, and those each run and each rectangle was made from. */
    ghost var cells: seq<Cell>
    ghost var runOrigins: seq<seq<Cell>>
    ghost var rectOrigins: seq<seq<Shape>>

    ghost predicate TextIs(cells: seq<Cell>)
      reads this`textRuns, this`runOrigins, this`openRun
    {
      && RunsOk(textRuns, runOrigins) && Flatten(runOrigins) == cells
      && (openRun.Some? ==> OpenRunOk(openRun.value, textRuns, runOrigins))
    }

    ghost predicate RectsAre(shapes: seq<Shape>)
      reads this`graphicRects, this`rectOrigins, this`openBlock
    {
      && RectsOk(graphicRects, rectOrigins) && Flatten(rectOrigins) == shapes
      && (openBlock.Some? ==> OpenBlockOk(openBlock.value, graphicRects))
    }

    /** The frame so far stands for the cells so far, each with what it would emit alone. */
    ghost predicate Valid()
      reads this
    {
      && TextIs(TextCells(cells)) && RectsAre(CellShapes(cells, visible))
      && FewestRuns(textRuns, openRun, cells) && FewestRects(graphicRects, openBlock, cells, visible)
    }

    constructor (visible: bool)
      ensures Valid() && cells == [] && textRuns == [] && graphicRects == [] && this.visible == visible
    {
      this.visible := visible;
      textRuns, graphicRects, openRun, openBlock := [], [], None, None;
      cells, runOrigins, rectOrigins := [], [], [];
    }

    /** One cell of the pass. */
    method ProcessCell(c: Cell)
      requires Valid()
      modifies this
      ensures Valid() && cells == old(cells) + [c]
    {
      hide TextCells, CellShapes, ShapesOf, Flatten, RunsOk, RectsOk, OpenRunOk, OpenBlockOk, Cell.TriesGraphic, FewestRuns, FewestRects,
           CanJoin, CanWiden;
      ghost var text, shapes, before := TextCells(cells), CellShapes(cells, visible), cells;
      ghost var runs, rects, open, block := textRuns, graphicRects, openRun, openBlock;
      OneMoreCell(cells, c, visible);
      OneMoreFewest(runs, open, rects, block, before, c, visible);
      cells := cells + [c];
      if c.skipped {
        return;
      }
      var renderAsGraphic := false;
      if c.TriesGraphic() {
        if c.graphic.FullBlock? {
          AppendFullBlock(c, shapes);
          renderAsGraphic := true;
        } else {
          renderAsGraphic := AppendPrimitive(c, shapes);
        }
      }
      if renderAsGraphic {
        openRun := None;
        return;
      }
      openBlock := None;
      if c.text != [] {
        EmitText(c, text);
      }
    }

    method AppendFullBlock(c: Cell, ghost shapes: seq<Shape>)
      requires RectsAre(shapes) && c.TriesGraphic() && c.graphic.FullBlock?
      modifies this`graphicRects, this`rectOrigins, this`openBlock
      ensures RectsAre(shapes + ShapesOf(c, visible))
      ensures |graphicRects| == |old(graphicRects)| + (if CanWiden(old(openBlock), c) then 0 else |ShapesOf(c, visible)|)
      ensures openBlock.Some? <==> ShapesOf(c, visible) != []
      ensures openBlock.Some? ==> BlockEndsWith(openBlock.value, c)
    {
      hide RectOk, RectsOk, Flatten, ShapesOf;
      BlockShapes(c, visible);
      RectsSize(graphicRects, rectOrigins);
      if !visible || c.displayWidth <= 0 || c.foreground.alpha <= 0 {
        openBlock := None;
        assert shapes + [] == shapes;
        return;
      }
      ghost var piece := Block(c.row, c.column, c.displayWidth, c.foreground);
      if openBlock.Some? && openBlock.value.row == c.row && openBlock.value.endColumn == c.column
         && openBlock.value.foregroundRgba == c.foreground.rgba
      {
        var last := openBlock.value.index;
        LastRectOk(graphicRects, rectOrigins);
        JoinKeepsRect(graphicRects[last], rectOrigins[last], c);
        RectsGrow(graphicRects, rectOrigins, GrownRect(graphicRects[last], c), rectOrigins[last] + [piece]);
        FlattenGrow(rectOrigins, piece);
        rectOrigins := rectOrigins[last := rectOrigins[last] + [piece]];
        graphicRects := graphicRects[last := GrownRect(graphicRects[last], c)];
        openBlock := Some(openBlock.value.(endColumn := openBlock.value.endColumn + c.displayWidth));
      } else {
        AloneRectOk(piece);
        RectsPush(graphicRects, rectOrigins, piece, [piece]);
        FlattenPush(rectOrigins, [piece]);
        rectOrigins := rectOrigins + [[piece]];
        graphicRects := graphicRects + [Block(c.row, c.column, c.displayWidth, c.foreground)];
        openBlock := Some(OpenBlock(|graphicRects| - 1, c.row, c.column + c.displayWidth, c.foreground.rgba));
      }
    }

    /** Shapes other than full blocks are never joined. */
    method AppendPrimitive(c: Cell, ghost shapes: seq<Shape>) returns (rendered: bool)
      requires RectsAre(shapes) && c.TriesGraphic() && c.graphic.Primitive?
      modifies this`graphicRects, this`rectOrigins, this`openBlock
      ensures RectsAre(shapes + ShapesOf(c, visible)) && rendered == c.graphic.rendered
      ensures openBlock.None? && |graphicRects| == |old(graphicRects)| + |ShapesOf(c, visible)|
    {
      hide RectOk;
      ghost var added := ShapesFrom(c.graphic.shapes);
      openBlock := None;
      var k := 0;
      assert shapes + added[..0] == shapes;
      while k < |c.graphic.shapes|
        invariant 0 <= k <= |c.graphic.shapes| && openBlock.None?
        invariant RectsAre(shapes + added[..k]) && |graphicRects| == |old(graphicRects)| + k
      {
        AloneRectOk(added[k]);
        FlattenPush(rectOrigins, [added[k]]);
        assert added[..k + 1] == added[..k] + [added[k]];
        rectOrigins := rectOrigins + [[added[k]]];
        graphicRects := graphicRects + [Other(c.graphic.shapes[k])];
        k := k + 1;
      }
      assert added[..k] == added;
      rendered := c.graphic.rendered;
    }

    method EmitText(c: Cell, ghost text: seq<Cell>)
      requires TextIs(text) && !c.skipped && c.text != []
      modifies this`textRuns, this`runOrigins, this`openRun
      ensures TextIs(text + [c])
      ensures |textRuns| == |old(textRuns)| + (if CanJoin(old(openRun), c) then 0 else 1)
      ensures openRun.Some? <==> c.Coalescable()
      ensures openRun.Some? ==>
        && openRun.value.length == (if CanJoin(old(openRun), c) then old(openRun).value.length + 1 else 1)
        && EndsWith(openRun.value, c)
    {
      hide RunOk, RunsOk, Flatten;
      var unit := c.PrintableUnit();
      if c.Coalescable() && openRun.Some?
         && openRun.value.row == c.row && openRun.value.logicalRow == c.logicalRow
         && openRun.value.retainedLineId == c.retainedLineId && openRun.value.contentGeneration == c.contentGeneration
         && openRun.value.endColumn == c.column
         && openRun.value.foregroundRgba == c.foreground.rgba && openRun.value.backgroundRgba == c.background.rgba
         && openRun.value.styleId == c.styleId && openRun.value.length < MAX_RUN_LENGTH
      {
        var last := openRun.value.index;
        LastRunOk(textRuns, runOrigins);
        JoinKeepsRun(textRuns[last], runOrigins[last], c);
        RunsGrow(textRuns, runOrigins, GrownRun(textRuns[last], c), runOrigins[last] + [c]);
        FlattenGrow(runOrigins, c);
        assert c.text == [unit.value];
        runOrigins := runOrigins[last := runOrigins[last] + [c]];
        textRuns := textRuns[last := textRuns[last].(text := textRuns[last].text + [unit.value],
                                                     columns := c.column + c.displayWidth - textRuns[last].column)];
        openRun := Some(openRun.value.(endColumn := openRun.value.endColumn + 1, length := openRun.value.length + 1));
      } else {
        AloneRunOk(c);
        RunsPush(textRuns, runOrigins, CellRun(c), [c]);
        RunsSize(textRuns, runOrigins);
        FlattenPush(runOrigins, [c]);
        runOrigins := runOrigins + [[c]];
        textRuns := textRuns + [CellRun(c)];
        if c.Coalescable() {
          openRun := Some(OpenRun(|textRuns| - 1, c.row, c.logicalRow, c.retainedLineId, c.contentGeneration,
                                  c.column + 1, c.foreground.rgba, c.background.rgba, c.styleId, 1));
        } else {
          openRun := None;
        }
      }
    }
  }

  /** The whole pass: taken apart, the frame paints what its cells would paint alone, and
      is what they would emit alone if and only if no run and no rectangle joined different
      colours. That is so when, among the cells, colours that paint alike are equal. */
  method BuildFrame(cells: seq<Cell>, visible: bool) returns (frame: Builder)
    ensures fresh(frame) && frame.Valid() && frame.cells == cells && frame.visible == visible
    ensures RunsOk(frame.textRuns, frame.runOrigins) && RectsOk(frame.graphicRects, frame.rectOrigins)
    ensures |frame.textRuns| == RunCount(cells) && |frame.graphicRects| == RectCount(cells, visible)
    ensures PaintedRuns(AllPieces(frame.textRuns, frame.runOrigins)) == PaintedRuns(CellRuns(TextCells(cells)))
    ensures PaintedShapes(AllCuts(frame.graphicRects, frame.rectOrigins)) == PaintedShapes(CellShapes(cells, visible))
    ensures AllPieces(frame.textRuns, frame.runOrigins) == CellRuns(TextCells(cells)) <==>
      forall k | 0 <= k < |frame.runOrigins| :: SameColours(frame.runOrigins[k])
    ensures AllCuts(frame.graphicRects, frame.rectOrigins) == CellShapes(cells, visible) <==>
      forall k | 0 <= k < |frame.rectOrigins| :: SameColour(frame.rectOrigins[k])
    ensures PaintDecides(cells) ==>
      && AllPieces(frame.textRuns, frame.runOrigins) == CellRuns(TextCells(cells))
      && AllCuts(frame.graphicRects, frame.rectOrigins) == CellShapes(cells, visible)
  {
    hide AllPieces, AllCuts, SameColours, SameColour, PaintDecides, RunsOk, RectsOk, OpenRunOk, OpenBlockOk, TextCells,
          CellShapes, Flatten, PaintedRuns, PaintedShapes, CellRuns;
    frame := new Builder(visible);
    var k := 0;
    while k < |cells|
      invariant 0 <= k <= |cells| && fresh(frame) && frame.Valid() && frame.cells == cells[..k] && frame.visible == visible
    {
      assert cells[..k + 1] == cells[..k] + [cells[k]];
      frame.ProcessCell(cells[k]);
      k := k + 1;
    }
    assert cells[..k] == cells;
    RunsPaintTheCells(frame.textRuns, frame.runOrigins);
    RectsPaintTheCells(frame.graphicRects, frame.rectOrigins);
    AllPiecesExact(frame.textRuns, frame.runOrigins);
    AllCutsExact(frame.graphicRects, frame.rectOrigins);
    if PaintDecides(cells) {
      PaintDecidesFrame(cells, visible, frame.textRuns, frame.runOrigins, frame.graphicRects, frame.rectOrigins);
    }
  }

  /** What one more cell makes of the counts. */
  lemma {:induction false} OneMoreFewest(runs: seq<Run>, open: Option<OpenRun>, rects: seq<Shape>, block: Option<OpenBlock>,
                                         cells: seq<Cell>, c: Cell, visible: bool)
    requires FewestRuns(runs, open, cells) && FewestRects(rects, block, cells, visible)
    ensures !c.EmitsText() && !c.DrawnAsGraphic() ==> FewestRuns(runs, open, cells + [c])
    ensures c.DrawnAsGraphic() ==> FewestRuns(runs, None, cells + [c])
    ensures c.EmitsText() ==> forall more: seq<Run>, next: Option<OpenRun> |
      && |more| == |runs| + (if CanJoin(open, c) then 0 else 1) && (next.Some? <==> c.Coalescable())
      && (next.Some? ==> next.value.length == (if CanJoin(open, c) then open.value.length + 1 else 1) && EndsWith(next.value, c)) ::
      FewestRuns(more, next, cells + [c])
    ensures c.skipped ==> FewestRects(rects, block, cells + [c], visible)
    ensures !c.skipped && !c.TriesGraphic() ==> FewestRects(rects, None, cells + [c], visible)
    ensures c.TriesGraphic() && c.graphic.FullBlock? ==> forall more: seq<Shape>, next: Option<OpenBlock> |
      && |more| == |rects| + (if CanWiden(block, c) then 0 else |ShapesOf(c, visible)|)
      && (next.Some? <==> ShapesOf(c, visible) != []) && (next.Some? ==> BlockEndsWith(next.value, c)) ::
      FewestRects(more, next, cells + [c], visible)
    ensures c.TriesGraphic() && c.graphic.Primitive? ==> forall more: seq<Shape> | |more| == |rects| + |ShapesOf(c, visible)| ::
      FewestRects(more, None, cells + [c], visible)
  {
    assert (cells + [c])[..|cells|] == cells;
    hide ShapesOf;
  }

  lemma {:induction false} BlockShapes(c: Cell, visible: bool)
    requires c.TriesGraphic() && c.graphic.FullBlock?
    ensures ShapesOf(c, visible) ==
      if visible && c.displayWidth > 0 && c.foreground.alpha > 0 then [Block(c.row, c.column, c.displayWidth, c.foreground)] else []
  {
  }

  lemma {:induction false} RectsSize(rects: seq<Shape>, origins: seq<seq<Shape>>)
    requires RectsOk(rects, origins)
    ensures |rects| == |origins|
  {
  }

  lemma {:induction false} LastRectOk(rects: seq<Shape>, origins: seq<seq<Shape>>)
    requires RectsOk(rects, origins) && rects != []
    ensures |rects| == |origins| && RectOk(rects[|rects| - 1], origins[|rects| - 1])
  {
  }

  lemma {:induction false} RunsSize(runs: seq<Run>, origins: seq<seq<Cell>>)
    requires RunsOk(runs, origins)
    ensures |runs| == |origins|
  {
  }

  lemma {:induction false} LastRunOk(runs: seq<Run>, origins: seq<seq<Cell>>)
    requires RunsOk(runs, origins) && runs != []
    ensures |runs| == |origins| && RunOk(runs[|runs| - 1], origins[|runs| - 1])
  {
  }

  lemma {:induction false} OneMoreCell(cells: seq<Cell>, c: Cell, visible: bool)
    ensures TextCells(cells + [c]) == TextCells(cells) + TextOf(c)
    ensures CellShapes(cells + [c], visible) == CellShapes(cells, visible) + ShapesOf(c, visible)
    ensures c.skipped || c.text == [] ==> TextOf(c) == []
    ensures !c.TriesGraphic() ==> ShapesOf(c, visible) == [] && (!c.skipped && c.text != [] ==> TextOf(c) == [c])
    ensures c.TriesGraphic() ==> !c.skipped && c.text != [] && !c.graphic.NotGraphic?
    ensures c.TriesGraphic() ==> TextOf(c) == if c.graphic.FullBlock? || c.graphic.rendered then [] else [c]
    ensures c.skipped ==> !c.TriesGraphic()
    ensures TextCells(cells) + [] == TextCells(cells) && CellShapes(cells, visible) + [] == CellShapes(cells, visible)
  {
    assert (cells + [c])[..|cells|] == cells;
  }

  lemma {:induction false} AloneRectOk(s: Shape)
    ensures RectOk(s, [s])
  {
  }

  lemma {:induction false} FlattenPush<T>(parts: seq<seq<T>>, part: seq<T>)
    ensures Flatten(parts + [part]) == Flatten(parts) + part
  {
    assert (parts + [part])[..|parts|] == parts;
  }

  lemma {:induction false} FlattenGrow<T>(parts: seq<seq<T>>, one: T)
    requires parts != []
    ensures var last := |parts| - 1; Flatten(parts[last := parts[last] + [one]]) == Flatten(parts) + [one]
  {
    var last := |parts| - 1;
    assert parts[last := parts[last] + [one]][..last] == parts[..last];
  }
}
