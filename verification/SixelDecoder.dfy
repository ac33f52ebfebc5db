/** The streaming sixel decoder (src/sixel_decoder.cpp): it draws into a growing
    raster addressed with a stride, defers the aspect-ratio rows of a band until
    the band closes, and keeps the raster under a byte cap. Every method is
    proved against the state functions of SixelCore and the reference painter. */
module SixelDecoder {
  import opened SixelLanguage
  import opened SixelPainter
  import opened SixelCore
  import opened SixelRefinement
  import opened RasterIndex
  import opened SixelRaster
  import opened SixelBudget

  /** A view of the finished image inside the capacity buffer it was drawn in. */
  datatype Raster = NoRaster | View(buffer: array<Color>, stride: nat, width: nat, height: nat)

  datatype SixelImage = SixelImage(width: nat, height: nat, finalCursorY: nat, aspect: nat, raster: Raster)

  datatype LimitDiagnostic = LimitDiagnostic(exceededBytes: nat, limitBytes: nat)

  class Decoder {
    const limitBytes: nat

    /** The scalar members: language, cursor, extents, band, capacity and flags. */
    var state: Core

    /** The capacity buffer, whose rows are `state.capacityWidth` long. */
    var pixels: array<Color>

    /** The picture a naive painter has made of the same bytes. */
    ghost var painter: Painter

    /** How many raster pixels draws, expansions, reservations and fills wrote. */
    ghost var pixelsWritten: nat

    function Limit(): nat { LimitPixels(limitBytes) }

    ghost predicate RasterShape()
      reads this
    {
      pixels.Length == Area(state.capacityWidth, state.capacityHeight)
    }

    /** The raster shows what the painter painted, later band rows excepted. */
    ghost predicate RasterShows()
      reads this, pixels
    {
      && RasterShape()
      && Shows(pixels[..], state.capacityWidth, state.capacityHeight, painter)
      && PaintedWithin(painter, state.capacityWidth, state.capacityHeight)
    }

    ghost predicate Valid()
      reads this, pixels
    {
      && Limit() < GEOMETRY_LIMIT
      && RasterShape()
      && (state.active ==>
            && Represents(state, painter, Limit())
            && (!state.limitExceeded ==> RasterShows()))
      && (!state.active ==> state == Release(state))
    }

    constructor (limitBytes: nat)
      requires LimitPixels(limitBytes) < GEOMETRY_LIMIT
      ensures Valid() && state == IdleState() && this.limitBytes == limitBytes && fresh(pixels) && pixelsWritten == 0
      ensures state.previousWidth == 0 && state.previousHeight == 0 && !state.previousStable
    {
      this.limitBytes := limitBytes;
      state := IdleState();
      pixels := new Color[0];
      painter := Start(FreshLanguage());
      pixelsWritten := 0;
    }

    /** Sets a run of one raster row; like every write here it is in bounds. */
    method FillRun(column: nat, row: nat, count: nat, color: Color)
      requires RasterShape() && column + count <= state.capacityWidth && row < state.capacityHeight
      modifies pixels, this`pixelsWritten
      ensures forall px: int, py: int | 0 <= px < state.capacityWidth && 0 <= py < state.capacityHeight ::
        At(pixels[..], state.capacityWidth, px, py) ==
          if py == row && column <= px < column + count then color
          else old(At(pixels[..], state.capacityWidth, px, py))
      ensures pixelsWritten == old(pixelsWritten) + count
    {
      ghost var before := pixels[..];
      var stride := state.capacityWidth;
      InsideBuffer(stride, state.capacityHeight, column, row, count);
      var first := row * stride + column;
      for i := 0 to count
        invariant forall k | 0 <= k < pixels.Length :: pixels[k] == if first <= k < first + i then color else before[k]
        invariant pixelsWritten == old(pixelsWritten) + i
      {
        pixels[first + i] := color;
        pixelsWritten := pixelsWritten + 1;
      }
      FilledRun(before, pixels[..], stride, state.capacityHeight, column, row, count, color);
    }

    /** Repeats the start of one raster row in another. */
    method CopyRun(source: nat, target: nat, count: nat)
      requires RasterShape() && count <= state.capacityWidth && source < target < state.capacityHeight
      modifies pixels, this`pixelsWritten
      ensures forall px: int, py: int | 0 <= px < state.capacityWidth && 0 <= py < state.capacityHeight ::
        At(pixels[..], state.capacityWidth, px, py) ==
          old(At(pixels[..], state.capacityWidth, px, if py == target && px < count then source else py))
      ensures pixelsWritten == old(pixelsWritten) + count
    {
      ghost var before := pixels[..];
      var stride := state.capacityWidth;
      InsideBuffer(stride, state.capacityHeight, 0, source, count);
      InsideBuffer(stride, state.capacityHeight, 0, target, count);
      RowsAreDisjoint(stride, source, target);
      var from, to := source * stride, target * stride;
      for i := 0 to count
        invariant pixels[to..to + i] == before[from..from + i]
        invariant forall k | 0 <= k < pixels.Length && !(to <= k < to + i) :: pixels[k] == before[k]
        invariant pixelsWritten == old(pixelsWritten) + i
      {
        pixels[to + i] := pixels[from + i];
        assert pixels[to..to + i + 1] == before[from..from + i] + [before[from + i]];
        pixelsWritten := pixelsWritten + 1;
      }
      CopiedRun(before, pixels[..], stride, state.capacityHeight, source, target, count);
    }

    /** Allocates a larger raster under the cap and copies the old one into it. */
    method Reserve(width: nat, height: nat)
      requires RasterShows()
      requires Area(width, height) <= Limit() && Area(state.capacityWidth, state.capacityHeight) <= Limit()
      requires PaintedWithin(painter, width, height)
      modifies this`pixels, this`state, this`pixelsWritten
      ensures state == SixelCore.Reserve(old(state), width, height, Limit())
      ensures RasterShows() && (pixels == old(pixels) || fresh(pixels))
      ensures pixelsWritten - old(pixelsWritten) == state.reservedPixels - old(state.reservedPixels)
    {
      if width == 0 || height == 0 || (width <= state.capacityWidth && height <= state.capacityHeight) {
        return;
      }
      ReservationFits(state, width, height, Limit());
      var grownWidth, grownHeight := GrownCapacity(width, height);
      assert PaintedWithin(painter, grownWidth, grownHeight);
      var grown := CopyOfRaster(grownWidth, grownHeight);
      hide ReservedCapacity, Shows, PaintedWithin, LimitPixels;
      var area := Area(grownWidth, grownHeight);
      state := state.(capacityWidth := grownWidth, capacityHeight := grownHeight,
                      reservations := state.reservations + 1, reservedPixels := state.reservedPixels + area);
      pixels := grown;
      pixelsWritten := pixelsWritten + area;
    }

    /** The raster in other dimensions; what it gains is undrawn. */
    method CopyOfRaster(newWidth: nat, newHeight: nat) returns (grown: array<Color>)
      requires RasterShows() && 0 < newWidth
      ensures fresh(grown) && grown.Length == Area(newWidth, newHeight)
      ensures Shows(grown[..], newWidth, newHeight, painter)
    {
      grown := new Color[newWidth * newHeight];
      var current, width, height := pixels[..], state.capacityWidth, state.capacityHeight;
      forall i | 0 <= i < grown.Length {
        grown[i] := CopiedPixel(current, width, height, newWidth, i);
      }
      CopyShows(current, width, height, grown[..], newWidth, newHeight, painter);
    }

    /** The dimensions of the next reservation. */
    method GrownCapacity(width: nat, height: nat) returns (grownWidth: nat, grownHeight: nat)
      requires 0 < width && 0 < height && Area(width, height) <= Limit()
      ensures (grownWidth, grownHeight) == ReservedCapacity(state, width, height, Limit())
    {
      var limit := Limit();
      grownWidth, grownHeight := GeometricGrowth(width, height);
      hide GeometricCapacity;
      if HintUsable(state) {
        var hintedWidth := Max(grownWidth, state.previousWidth);
        var hintedHeight := Max(grownHeight, state.previousHeight);
        if (hintedWidth > grownWidth || hintedHeight > grownHeight) && hintedWidth <= Quotient(limit, hintedHeight) {
          var normalPixels := grownWidth * grownHeight;
          var hintedPixels := hintedWidth * hintedHeight;
          if hintedPixels - normalPixels <= normalPixels {
            grownWidth, grownHeight := hintedWidth, hintedHeight;
          }
        }
      }
    }

    method GeometricGrowth(width: nat, height: nat) returns (grownWidth: nat, grownHeight: nat)
      requires 0 < width && 0 < height && Area(width, height) <= Limit()
      ensures (grownWidth, grownHeight) == GeometricCapacity(state, width, height, Limit())
    {
      var limit := Limit();
      grownWidth, grownHeight := state.capacityWidth, state.capacityHeight;
      if width > state.capacityWidth {
        grownWidth := Max(width, state.capacityWidth * 2);
      }
      if height > state.capacityHeight {
        grownHeight := Max(height, state.capacityHeight * 2);
      }
      if grownWidth * grownHeight > limit {
        if height <= state.capacityHeight && state.capacityHeight * width <= limit {
          grownWidth := Quotient(limit, state.capacityHeight);
        } else if width <= state.capacityWidth && state.capacityWidth * height <= limit {
          grownHeight := Quotient(limit, state.capacityWidth);
        } else {
          grownWidth := SlackWidth(width, height, limit);
          grownHeight := Quotient(limit, grownWidth);
        }
      }
    }

    /** Drops the raster and the open band. */
    method ReleaseRaster()
      modifies this`pixels, this`state
      ensures state == Release(old(state)) && fresh(pixels) && RasterShape()
    {
      state := Release(state);
      pixels := new Color[0];
    }

    method GrowExtentWithinLimit()
      requires RasterShape()
      requires !state.limitExceeded ==>
        && RasterShows()
        && Area(state.capacityWidth, state.capacityHeight) <= Limit()
        && PaintedWithin(painter, state.extentWidth, state.extentHeight)
      modifies this`pixels, this`state, this`pixelsWritten
      ensures state == SixelCore.GrowExtentWithinLimit(old(state), Limit())
      ensures RasterShape() && (!state.limitExceeded ==> RasterShows())
      ensures pixels == old(pixels) || fresh(pixels)
      ensures pixelsWritten - old(pixelsWritten) == state.reservedPixels - old(state.reservedPixels)
    {
      hide Shows, PaintedWithin, LimitPixels, SixelCore.Reserve;
      if state.limitExceeded {
        return;
      }
      var extentPixels := Area(state.extentWidth, state.extentHeight);
      if extentPixels <= Limit() {
        Reserve(state.extentWidth, state.extentHeight);
        return;
      }
      state := state.(limitExceeded := true, exceededBytes := extentPixels * BYTES_PER_PIXEL);
      ReleaseRaster();
    }

    method DrawSixel(bits: bv8, repeat: nat)
      requires Valid() && state.active && 1 <= repeat
      requires bits == 0 || 1 <= BitWidth(bits)
      modifies this`pixels, this`state, this`painter, this`pixelsWritten, pixels
      ensures Valid() && (pixels == old(pixels) || fresh(pixels))
      ensures state == SixelCore.DrawSixel(old(state), bits, repeat, Limit())
      ensures painter == Draw(old(painter), bits, repeat)
      ensures pixelsWritten - old(pixelsWritten) <=
              SixelWrites(bits, repeat) + (state.reservedPixels - old(state.reservedPixels))
      ensures !state.limitExceeded ==>
        pixelsWritten - old(pixelsWritten) == SixelWrites(bits, repeat) + (state.reservedPixels - old(state.reservedPixels))
    {
      hide Represents, SixelCore.GrowExtentWithinLimit, Shows, LimitPixels, PaintSixel, BandShape, BitWidth,
           Advanced, Partly, Area, SixelWrites, MarkBand, Widened;
      GrowthPreconditions(state, painter, bits, repeat, Limit());
      ghost var p, q, after := painter, Draw(painter, bits, repeat), SixelCore.DrawSixel(state, bits, repeat, Limit());
      DrawRepresents(state, p, bits, repeat, Limit());
      if !after.limitExceeded {
        CapacityHoldsPainting(after, q, Limit());
        assert PaintedWithin(q, after.capacityWidth, after.capacityHeight);
      }
      hide PaintedWithin;
      if bits == 0 {
        NothingDrawn(repeat);
        state := state.(lang := state.lang.(locked := true), x := Advanced(state.x, repeat));
      } else {
        GrowAndStamp(bits, repeat);
        state := state.(x := Advanced(state.x, repeat));
      }
      assert state == after;
      hide SixelCore.DrawSixel, Draw;
      if !state.limitExceeded {
        DrawnShows(pixels[..], state.capacityWidth, state.capacityHeight, p, bits, repeat);
      }
      painter := q;
    }

    /** The part of a draw that touches the picture: grow the extents, then write
        the first device row of each set bit, once per repeat. */
    method GrowAndStamp(bits: bv8, repeat: nat)
      requires Valid() && state.active && 1 <= repeat && bits != 0 && 1 <= BitWidth(bits)
      modifies this`pixels, this`state, this`pixelsWritten, pixels
      ensures RasterShape() && (pixels == old(pixels) || fresh(pixels))
      ensures state == MarkBand(SixelCore.GrowExtentWithinLimit(Widened(old(state), bits, repeat), Limit()),
                                old(state.x) + repeat, bits)
      ensures !state.limitExceeded ==>
        Shows(pixels[..], state.capacityWidth, state.capacityHeight, Partly(painter, bits, repeat, SIXEL_ROWS))
      ensures pixelsWritten - old(pixelsWritten) <=
              SixelWrites(bits, repeat) + (state.reservedPixels - old(state.reservedPixels))
      ensures !state.limitExceeded ==>
        pixelsWritten - old(pixelsWritten) == SixelWrites(bits, repeat) + (state.reservedPixels - old(state.reservedPixels))
    {
      hide Represents, SixelCore.DrawSixel, SixelCore.GrowExtentWithinLimit, Widened, Shows, PaintedWithin, LimitPixels,
           PaintSixel, BandShape, RowsBefore, BitWidth, Partly, Area, SixelWrites, Continues;
      GrowthPreconditions(state, painter, bits, repeat, Limit());
      DrawFits(state, painter, bits, repeat, Limit());
      WidenExtent(bits, repeat);
      if !state.limitExceeded {
        state := state.(bandWidth := Max(state.bandWidth, state.x + repeat),
                        bandDrawnBits := state.bandDrawnBits | bits);
        StampRows(bits, repeat);
      }
    }

    method WidenExtent(bits: bv8, repeat: nat)
      requires Valid() && state.active
      modifies this`pixels, this`state, this`pixelsWritten
      ensures state == SixelCore.GrowExtentWithinLimit(Widened(old(state), bits, repeat), Limit())
      ensures RasterShape() && (!state.limitExceeded ==> RasterShows())
      ensures pixels == old(pixels) || fresh(pixels)
      ensures pixelsWritten - old(pixelsWritten) == state.reservedPixels - old(state.reservedPixels)
    {
      hide Represents, SixelCore.GrowExtentWithinLimit, Shows, LimitPixels, BandShape, RowsBefore, BitWidth, Area;
      GrowthPreconditions(state, painter, bits, repeat, Limit());
      state := state.(lang := state.lang.(locked := true),
                      extentWidth := Max(state.extentWidth, Advanced(state.x, repeat)),
                      extentHeight := Max(state.extentHeight, Advanced(state.y, RowsBefore(BitWidth(bits), state.lang.aspect))));
      GrowExtentWithinLimit();
    }

    /** Writes the first device row of every set bit. */
    method StampRows(bits: bv8, repeat: nat)
      requires RasterShows() && painter.Valid() && state.lang == painter.lang.(locked := true)
      requires state.x == painter.x && state.y == painter.y
      requires painter.x + repeat <= state.capacityWidth
      requires painter.y + RowsBefore(BitWidth(bits), painter.lang.aspect) <= state.capacityHeight
      modifies pixels, this`pixelsWritten
      ensures Shows(pixels[..], state.capacityWidth, state.capacityHeight, Partly(painter, bits, repeat, SIXEL_ROWS))
      ensures pixelsWritten == old(pixelsWritten) + SixelWrites(bits, repeat)
    {
      var color := state.lang.registers[state.lang.selected];
      assert Partly(painter, bits, repeat, 0) == painter;
      for bit := 0 to SIXEL_ROWS
        invariant Shows(pixels[..], state.capacityWidth, state.capacityHeight, Partly(painter, bits, repeat, bit))
        invariant pixelsWritten == old(pixelsWritten) + repeat * PopBelow(bits, bit)
      {
        if BitSet(bits, bit) {
          ghost var before := pixels[..];
          SetBitFits(bits, bit, state.lang.aspect);
          FillRun(state.x, state.y + RowsBefore(bit, state.lang.aspect), repeat, color);
          FillStep(before, pixels[..], state.capacityWidth, state.capacityHeight, painter, bits, repeat, bit);
          assert repeat * (PopBelow(bits, bit) + 1) == repeat * PopBelow(bits, bit) + repeat;
        } else {
          assert Partly(painter, bits, repeat, bit + 1) == Partly(painter, bits, repeat, bit);
        }
      }
    }

    /** Copies the first device row of every drawn sixel row into its others. */
    method ExpandBand()
      requires Valid() && state.active
      modifies pixels, this`state, this`pixelsWritten
      ensures state == CloseBand(old(state))
      ensures !state.limitExceeded ==> Complete(pixels[..], state.capacityWidth, state.capacityHeight, painter)
      ensures pixelsWritten == old(pixelsWritten) + BandExpansionCost(old(state))
    {
      RepresentsLanguage(state, painter, Limit());
      ghost var rows := RowsOf(state.bandDrawnBits);
      var aspect := state.lang.aspect;
      if aspect > 1 {
        CopyBandRows();
      }
      if !state.limitExceeded {
        EndExpansion(pixels[..], state.capacityWidth, state.capacityHeight, painter, rows, state.bandWidth);
      }
      state := CloseBand(state);
    }

    method CopyBandRows()
      requires Valid() && state.active && state.lang.aspect > 1
      modifies pixels, this`pixelsWritten
      ensures !state.limitExceeded ==>
        Expanded(pixels[..], state.capacityWidth, state.capacityHeight, painter, SIXEL_ROWS, 1)
      ensures pixelsWritten == old(pixelsWritten) + BandExpansionCost(state)
    {
      hide Represents, Shows, LimitPixels, BandShape, BitSet, Area, Expanded, RowsBefore, BandExpansionCost;
      RepresentsLanguage(state, painter, Limit());
      var c := state;
      ghost var drawing := !c.limitExceeded;
      if drawing {
        BeginExpansion(pixels[..], c.capacityWidth, c.capacityHeight, painter);
      }
      for bit := 0 to SIXEL_ROWS
        invariant drawing ==> Expanded(pixels[..], c.capacityWidth, c.capacityHeight, painter, bit, 1)
        invariant pixelsWritten == old(pixelsWritten) + PopBelow(c.bandDrawnBits, bit) * (c.bandWidth * (c.lang.aspect - 1))
      {
        if BitSet(c.bandDrawnBits, bit) {
          CopyRowsOfBit(bit);
          assert (PopBelow(c.bandDrawnBits, bit) + 1) * (c.bandWidth * (c.lang.aspect - 1)) ==
                 PopBelow(c.bandDrawnBits, bit) * (c.bandWidth * (c.lang.aspect - 1)) + c.bandWidth * (c.lang.aspect - 1);
        } else if drawing {
          SkipRow(pixels[..], c, painter, bit, Limit());
        }
      }
      ExpansionCostIs(c);
    }

    /** Copies the device rows of one set bit. */
    method CopyRowsOfBit(bit: nat)
      requires RasterShape() && state.active && Limit() < GEOMETRY_LIMIT && Represents(state, painter, Limit())
      requires state.lang.aspect > 1 && bit < SIXEL_ROWS && BitSet(state.bandDrawnBits, bit)
      requires !state.limitExceeded ==>
        Expanded(pixels[..], state.capacityWidth, state.capacityHeight, painter, bit, 1)
      modifies pixels, this`pixelsWritten
      ensures !state.limitExceeded && Expanded(pixels[..], state.capacityWidth, state.capacityHeight, painter, bit + 1, 1)
      ensures pixelsWritten == old(pixelsWritten) + state.bandWidth * (state.lang.aspect - 1)
    {
      hide Represents, Shows, LimitPixels, BandShape, BitSet, Area, Expanded, RowsOf, RowsBefore;
      SetBitIsOpen(state, painter, bit, Limit());
      var aspect := state.lang.aspect;
      for i := 1 to aspect
        invariant Expanded(pixels[..], state.capacityWidth, state.capacityHeight, painter, bit, i)
        invariant pixelsWritten == old(pixelsWritten) + state.bandWidth * (i - 1)
      {
        CopyRow(bit, i);
        assert state.bandWidth * (i - 1) + state.bandWidth == state.bandWidth * i;
      }
      NextRow(pixels[..], state.capacityWidth, state.capacityHeight, painter, RowsOf(state.bandDrawnBits), state.bandWidth, bit, aspect);
    }

    /** Device row `i` of a drawn sixel row repeats its first. */
    method CopyRow(bit: nat, i: nat)
      requires RasterShape() && Limit() < GEOMETRY_LIMIT && Represents(state, painter, Limit())
      requires bit < SIXEL_ROWS && BitSet(state.bandDrawnBits, bit) && 1 <= i < state.lang.aspect
      requires Expanded(pixels[..], state.capacityWidth, state.capacityHeight, painter, bit, i)
      modifies pixels, this`pixelsWritten
      ensures Expanded(pixels[..], state.capacityWidth, state.capacityHeight, painter, bit, i + 1)
      ensures pixelsWritten == old(pixelsWritten) + state.bandWidth
    {
      hide Represents, Shows, LimitPixels, BandShape, BitSet, Area, Expanded, RowsOf, RowsBefore;
      SetBitIsOpen(state, painter, bit, Limit());
      ExpansionFits(state, painter, bit, Limit());
      FirstRowIndex(bit, state.lang.aspect);
      ghost var before := pixels[..];
      var source := state.y + RowsBefore(bit, state.lang.aspect);
      CopyRun(source, source + i, state.bandWidth);
      CopyStep(before, pixels[..], state.capacityWidth, state.capacityHeight, painter, RowsOf(state.bandDrawnBits), state.bandWidth, bit, i);
    }

    method NextLine()
      requires Valid() && state.active
      modifies pixels, this`state, this`painter, this`pixelsWritten
      ensures Valid()
      ensures state == GraphicsNewLine(old(state)) && painter == SixelPainter.NextLine(old(painter))
      ensures pixelsWritten == old(pixelsWritten) + BandExpansionCost(old(state))
    {
      hide Represents, Shows, PaintedWithin, LimitPixels, BandShape, Area, BandExpansionCost, Complete;
      ghost var c, p := state, painter;
      RepresentsLanguage(c, p, Limit());
      NewLineRepresents(c, p, Limit());
      ExpandBand();
      state := state.(lang := state.lang.(locked := true), x := 0, y := Advanced(state.y, 6 * state.lang.aspect));
      painter := SixelPainter.NextLine(painter);
      if !state.limitExceeded {
        NewLineShows(pixels[..], c, p, Limit());
      }
    }

    /** Applies raster attributes: before any sixel data they declare the raster. */
    method ApplyRasterAttributes()
      requires Valid() && state.active && state.lang.command == RasterAttributes
      modifies this`pixels, this`state, this`pixelsWritten
      ensures state == FinishPendingCommand(old(state), Limit())
      ensures RasterShape() && (!state.limitExceeded ==> RasterShows()) && (pixels == old(pixels) || fresh(pixels))
      ensures pixelsWritten - old(pixelsWritten) == state.reservedPixels - old(state.reservedPixels)
    {
      hide Represents, Shows, LimitPixels, BandShape, Area, SixelCore.GrowExtentWithinLimit, SixelCore.Reserve;
      RasterPreconditions(state, painter, Limit());
      if state.lang.locked {
        state := state.(lang := state.lang.(command := NoCommand));
        return;
      }
      state := state.(lang := DeclareRaster(state.lang).(command := NoCommand));
      if state.lang.backgroundFill {
        state := state.(extentWidth := Max(state.extentWidth, state.lang.declaredWidth),
                        extentHeight := Max(state.extentHeight, state.lang.declaredHeight));
        GrowExtentWithinLimit();
      } else if Area(state.lang.declaredWidth, state.lang.declaredHeight) <= Limit() {
        Reserve(state.lang.declaredWidth, state.lang.declaredHeight);
      }
    }

    /** Completes the pending command and returns how often the next sixel repeats. */
    method FinishCommand() returns (repeat: nat)
      requires Valid() && state.active
      modifies this`pixels, this`state, this`painter, this`pixelsWritten
      ensures Valid() && (pixels == old(pixels) || fresh(pixels))
      ensures repeat == RepeatCount(old(state.lang))
      ensures state == FinishPendingCommand(old(state), Limit()) && painter == FinishPending(old(painter))
      ensures pixelsWritten - old(pixelsWritten) == state.reservedPixels - old(state.reservedPixels)
    {
      hide Represents, Shows, PaintedWithin, LimitPixels, Area, FinishPending;
      ghost var c, p := state, painter;
      RepresentsLanguage(c, p, Limit());
      FinishPendingRepresents(c, p, Limit());
      repeat := 1;
      match state.lang.command {
        case Repeat =>
          repeat := Max(state.lang.parameters[0], 1);
          state := state.(lang := state.lang.(command := NoCommand));
        case ColorIntroducer =>
          state := state.(lang := ApplyColorIntroducer(state.lang).(command := NoCommand));
        case RasterAttributes =>
          ApplyRasterAttributes();
        case NoCommand =>
      }
      hide Language.Valid, FinishPendingCommand;
      painter := FinishPending(p);
      if !state.limitExceeded {
        FinishedShows(pixels[..], state, c, p, Limit());
      }
    }

    method DecodeByte(byte: int)
      requires Valid() && state.active
      modifies this`pixels, this`state, this`painter, this`pixelsWritten, pixels
      ensures Valid() && (pixels == old(pixels) || fresh(pixels))
      ensures state == SixelCore.DecodeByte(old(state), byte, Limit()) && painter == PaintByte(old(painter), byte)
      ensures pixelsWritten - old(pixelsWritten) <=
              ByteWork(old(state), byte) + (state.reservedPixels - old(state.reservedPixels))
      ensures !state.limitExceeded ==> Charge(old(state), byte, Limit()) <= pixelsWritten - old(pixelsWritten) + 1
    {
      ghost var c, p := state, painter;
      RepresentsLanguage(c, p, Limit());
      LanguageStaysValid(c.lang, byte);
      hide Represents, LimitPixels, Area, FinishPending, FinishPendingCommand, Language.Valid, SixelLanguage.FinishCommand,
           CollectParameterByte, SixelCore.DrawSixel, Draw, GraphicsNewLine, SixelPainter.NextLine,
           BandExpansionCost, SixelWrites, Shows, PaintedWithin;
      if state.lang.command != NoCommand && IsParameterByte(byte) {
        CollectByte(byte);
        return;
      }
      var repeat := FinishCommand();
      PerformByte(byte, repeat);
      CostAfterCommand(c, p, Limit());
    }

    method CollectByte(byte: int)
      requires Valid() && state.active && state.lang.Valid() && IsParameterByte(byte)
      modifies this`state, this`painter
      ensures Valid() && state.active
      ensures state == old(state).(lang := CollectParameterByte(old(state.lang), byte))
      ensures painter == old(painter).(lang := CollectParameterByte(old(state.lang), byte))
    {
      ghost var c, p := state, painter;
      RepresentsLanguage(c, p, Limit());
      LanguageStaysValid(c.lang, byte);
      CollectKeepsMode(c.lang, byte);
      LanguageRepresents(c, p, CollectParameterByte(c.lang, byte), Limit());
      hide Represents, LimitPixels, Area, Language.Valid, CollectParameterByte, Shows, PaintedWithin;
      state := state.(lang := CollectParameterByte(state.lang, byte));
      painter := painter.(lang := state.lang);
      if !state.limitExceeded {
        SameRasterShows(pixels[..], state, p, painter);
      }
    }

    /** The effect of a byte once no command is pending. */
    method PerformByte(byte: int, repeat: nat)
      requires Valid() && state.active && state.lang.Valid() && painter.Valid() && 1 <= repeat
      modifies this`pixels, this`state, this`painter, this`pixelsWritten, pixels
      ensures Valid() && (pixels == old(pixels) || fresh(pixels))
      ensures state == SixelCore.PerformByte(old(state), byte, repeat, Limit())
      ensures painter == Perform(old(painter), byte, repeat)
      ensures pixelsWritten - old(pixelsWritten) <=
        (if IsDataByte(byte) then SixelWrites(SixelBits(byte), repeat)
         else if byte == 0x2d then BandExpansionCost(old(state)) else 0) +
        (state.reservedPixels - old(state.reservedPixels))
      ensures !state.limitExceeded ==>
        pixelsWritten - old(pixelsWritten) ==
          (if IsDataByte(byte) then SixelWrites(SixelBits(byte), repeat)
           else if byte == 0x2d then BandExpansionCost(old(state)) else 0) +
          (state.reservedPixels - old(state.reservedPixels))
    {
      hide Represents, LimitPixels, Area, Language.Valid, SixelCore.DrawSixel, Draw, BandExpansionCost, SixelWrites,
           SixelBits, BitWidth, Shows, PaintedWithin;
      if IsDataByte(byte) {
        SomeBitSet(byte);
        DrawSixel(SixelBits(byte), repeat);
      } else if byte == 0x2d {
        NextLine();
      } else {
        ReturnOrStart(byte);
      }
    }

    /** A byte that draws nothing: a carriage return, the start of a command, or any other. */
    method ReturnOrStart(byte: int)
      requires Valid() && state.active && state.lang.Valid() && painter.Valid()
      modifies this`state, this`painter
      ensures Valid()
      ensures byte == 0x24 ==> state == old(state).(x := 0) && painter == old(painter).(x := 0)
      ensures byte != 0x24 ==> state == old(state).(lang := StartedBy(old(state).lang, byte))
      ensures byte != 0x24 ==> painter == old(painter).(lang := StartedBy(old(painter).lang, byte))
    {
      hide Represents, LimitPixels, Area, Language.Valid, Shows, PaintedWithin;
      ghost var c, p := state, painter;
      RepresentsLanguage(c, p, Limit());
      LanguageStaysValid(c.lang, byte);
      if byte == 0x24 {
        ReturnRepresents(c, p, Limit());
        state := state.(x := 0);
        painter := painter.(x := 0);
      } else {
        LanguageRepresents(c, p, StartedBy(c.lang, byte), Limit());
        state := state.(lang := StartedBy(state.lang, byte));
        painter := painter.(lang := StartedBy(painter.lang, byte));
      }
      if !state.limitExceeded {
        SameRasterShows(pixels[..], state, p, painter);
      }
    }

    /** Starts an image from the parameters of its control string's header. */
    method Begin(header: seq<int>)
      requires Valid() && !state.active
      modifies this`state, this`painter
      ensures Valid()
      ensures state == BeginImage(old(state), header) && painter == Start(BeginLanguage(header))
    {
      var collected := FreshLanguage();
      for i := 0 to |header|
        invariant collected == HeaderParameters(header[..i])
      {
        assert header[..i + 1][..i] == header[..i];
        if IsParameterByte(header[i]) {
          collected := CollectParameterByte(collected, header[i]);
        }
      }
      assert header[..|header|] == header;
      BeginRepresents(state, header, Limit());
      var aspect := AspectFromMacroParameter(collected.parameters[0]);
      var fill := collected.parameters[1] != 1;
      state := state.(
        lang := Language(DefaultRegisters(), DEFAULT_REGISTER, NoCommand, [0, 0, 0, 0, 0], 0, aspect, fill, false, 0, 0),
        x := 0, y := 0, extentWidth := 0, extentHeight := 0,
        exceededBytes := 0, limitExceeded := false, limitReported := false, active := true);
      painter := Start(state.lang);
    }

    method EmitLimitDiagnostic() returns (diagnostics: seq<LimitDiagnostic>)
      modifies this`state
      ensures state == Reported(old(state)) && diagnostics == Emitted(old(state), limitBytes)
    {
      diagnostics := [];
      if state.limitExceeded && !state.limitReported {
        state := state.(limitReported := true);
        diagnostics := [LimitDiagnostic(state.exceededBytes, limitBytes)];
      }
    }

    /** Decodes one byte, whose work and reservations are charged once it is done. */
    method ChargeByte(byte: int, budget: WorkBudget?)
      requires Valid() && state.active && (budget != null ==> budget.Valid())
      modifies this`pixels, this`state, this`painter, this`pixelsWritten, pixels, budget
      ensures Valid() && (pixels == old(pixels) || fresh(pixels))
      ensures state == SixelCore.DecodeByte(old(state), byte, Limit()) && painter == PaintByte(old(painter), byte)
      ensures pixelsWritten - old(pixelsWritten) <= Charge(old(state), byte, Limit())
      ensures !state.limitExceeded ==> Charge(old(state), byte, Limit()) <= pixelsWritten - old(pixelsWritten) + 1
      ensures budget != null ==>
        && budget.Valid() && budget.total == old(budget.total) + Charge(old(state), byte, Limit())
        && budget.refused == old(budget.refused)
    {
      hide Represents, RasterShows, SixelCore.DecodeByte, PaintByte, ByteWork, LimitPixels, Language.Valid, Charge;
      RepresentsLanguage(state, painter, Limit());
      ghost var c := state;
      var work := ByteWork(state, byte);
      var reservationsBefore, reservedBefore := state.reservations, state.reservedPixels;
      DecodeByte(byte);
      var incurred := work + (state.reservedPixels - reservedBefore);
      ChargeIs(c, byte, Limit());
      if budget != null {
        if incurred > 0 {
          budget.ChargeAfter(incurred);
        }
        budget.CountRasterAllocations(state.reservations - reservationsBefore);
      }
    }

    /** Decodes data until it ends or a byte's work spends the budget, and not past that byte. */
    method Decode(data: seq<int>, budget: WorkBudget?) returns (consumed: nat, diagnostics: seq<LimitDiagnostic>)
      requires Valid() && state.active && (budget != null ==> budget.Valid())
      modifies this`pixels, this`state, this`painter, this`pixelsWritten, pixels, budget
      ensures Valid() && state.active && (pixels == old(pixels) || fresh(pixels))
      ensures consumed <= |data|
      ensures budget == null ==> consumed == |data|
      ensures consumed < |data| ==> budget.Exhausted()
      ensures data != [] ==> consumed > 0
      ensures old(state).lang.Valid() && old(painter).Valid()
      ensures painter == PaintAll(old(painter), data[..consumed])
      ensures state == Reported(DecodeAll(old(state), data[..consumed], Limit()))
      ensures diagnostics == Emitted(DecodeAll(old(state), data[..consumed], Limit()), limitBytes)
      ensures budget != null ==>
        budget.Valid() && pixelsWritten - old(pixelsWritten) <= budget.total - old(budget.total)
      ensures budget != null && !state.limitExceeded ==>
        budget.total - old(budget.total) <= pixelsWritten - old(pixelsWritten) + consumed
      ensures budget != null && !old(budget.refused) ==>
        && (consumed < |data| ==> budget.units <= budget.total)
        && (consumed > 1 ==>
              NotYetSpent(budget.units, budget.total - LastCharge(old(state), data[..consumed], Limit())))
    {
      hide Represents, RasterShows, SixelCore.DecodeByte, PaintByte, ByteWork, LimitPixels, Language.Valid, Charge;
      RepresentsLanguage(state, painter, Limit());
      consumed := 0;
      var stopped := false;
      while consumed < |data| && !stopped
        invariant Valid() && state.active && (pixels == old(pixels) || fresh(pixels))
        invariant consumed <= |data| && (consumed == 0 ==> !stopped)
        invariant stopped ==> budget != null && budget.Exhausted()
        invariant painter == PaintAll(old(painter), data[..consumed])
        invariant state == DecodeAll(old(state), data[..consumed], Limit())
        invariant budget != null ==>
          budget.Valid() && pixelsWritten - old(pixelsWritten) <= budget.total - old(budget.total)
        invariant budget != null && !state.limitExceeded ==>
          budget.total - old(budget.total) <= pixelsWritten - old(pixelsWritten) + consumed
        invariant budget != null ==> budget.refused == old(budget.refused) && (consumed > 0 ==> (stopped <==> budget.Exhausted()))
        invariant budget != null && !old(budget.refused) && consumed > 1 ==>
          NotYetSpent(budget.units, budget.total - LastCharge(old(state), data[..consumed], Limit()))
      {
        assert data[..consumed + 1][..consumed] == data[..consumed];
        ChargeByte(data[consumed], budget);
        consumed := consumed + 1;
        assert data[..consumed][..consumed - 1] == data[..consumed - 1] && data[..consumed][consumed - 1] == data[consumed - 1];
        stopped := budget != null && budget.Exhausted();
      }
      ReportedRepresents(state, painter, Limit());
      diagnostics := EmitLimitDiagnostic();
    }

    /** Paints the undrawn pixels of one row. */
    method FillRow(row: nat, color: Paint)
      requires RasterShape() && state.extentWidth <= state.capacityWidth && row < state.capacityHeight
      modifies pixels, this`pixelsWritten
      ensures forall px: int, py: int | 0 <= px < state.capacityWidth && 0 <= py < state.capacityHeight ::
        At(pixels[..], state.capacityWidth, px, py) ==
          if py == row && px < state.extentWidth && old(At(pixels[..], state.capacityWidth, px, py)) == 0 then color
          else old(At(pixels[..], state.capacityWidth, px, py))
      ensures old(pixelsWritten) <= pixelsWritten <= old(pixelsWritten) + state.extentWidth
    {
      ghost var before := pixels[..];
      var stride := state.capacityWidth;
      InsideBuffer(stride, state.capacityHeight, 0, row, state.extentWidth);
      var first := row * stride;
      for i := 0 to state.extentWidth
        invariant forall k | 0 <= k < pixels.Length ::
          pixels[k] == if first <= k < first + i && before[k] == 0 then color else before[k]
        invariant old(pixelsWritten) <= pixelsWritten <= old(pixelsWritten) + i
      {
        if pixels[first + i] == 0 {
          pixels[first + i] := color;
          pixelsWritten := pixelsWritten + 1;
        }
      }
      ReplacedRun(before, pixels[..], stride, state.capacityHeight, row, state.extentWidth, color);
    }

    /** Paints the pixels no sixel set with register 0 as it stands at the end. */
    method FillBackground()
      requires RasterShape() && state.lang == painter.lang && painter.Valid() && state.lang.backgroundFill
      requires state.extentWidth <= state.capacityWidth && state.extentHeight <= state.capacityHeight
      requires Complete(pixels[..], state.capacityWidth, state.capacityHeight, painter)
      modifies pixels, this`pixelsWritten
      ensures forall px: int, py: int | 0 <= px < state.extentWidth && 0 <= py < state.extentHeight ::
        At(pixels[..], state.capacityWidth, px, py) == Published(painter, px, py)
      ensures pixelsWritten <= old(pixelsWritten) + Area(state.extentWidth, state.extentHeight)
    {
      var background := state.lang.registers[0];
      for row := 0 to state.extentHeight
        invariant forall px: int, py: int | 0 <= px < state.extentWidth && 0 <= py < state.extentHeight ::
          At(pixels[..], state.capacityWidth, px, py) == if py < row then Published(painter, px, py) else painter.image(px, py)
        invariant pixelsWritten <= old(pixelsWritten) + state.extentWidth * row
      {
        FillRow(row, background);
        assert state.extentWidth * row + state.extentWidth == state.extentWidth * (row + 1);
      }
    }

    /** Drops the image; the next one gets no capacity hint. */
    method Abort()
      requires Valid()
      modifies this`pixels, this`state
      ensures Valid() && !state.active && fresh(pixels)
      ensures state == AbortImage(old(state))
    {
      state := state.(previousWidth := 0, previousHeight := 0, previousStable := false);
      ReleaseRaster();
      state := state.(active := false);
    }

    /** Completes the pending command and the open band, and charges the budget
        for that and for the background fill to come. */
    method CompleteRaster(budget: WorkBudget?)
      requires Valid() && state.active && (budget != null ==> budget.Valid())
      modifies this`pixels, this`state, this`painter, this`pixelsWritten, pixels, budget
      ensures old(state).lang.Valid() && old(painter).Valid() && painter.Valid() && state.lang == painter.lang
      ensures painter == FinishPending(old(painter))
      ensures state == CloseBand(FinishPendingCommand(old(state), Limit()))
      ensures FinishPendingCommand(old(state), Limit()).lang.Valid()
      ensures SixelCore.GrowExtentWithinLimit(FinishPendingCommand(old(state), Limit()), Limit()) ==
              FinishPendingCommand(old(state), Limit())
      ensures SaturatedGeometry(state, painter)
      ensures CompletesRaster(state) <==> !painter.Exceeds(Limit()) && painter.width > 0 && painter.height > 0
      ensures CompletesRaster(state) ==>
        && state.extentWidth == painter.width <= state.capacityWidth
        && state.extentHeight == painter.height <= state.capacityHeight
      ensures RasterShape() && (pixels == old(pixels) || fresh(pixels))
      ensures !state.limitExceeded ==> Complete(pixels[..], state.capacityWidth, state.capacityHeight, painter)
      ensures budget != null ==>
        && budget.Valid()
        && pixelsWritten - old(pixelsWritten) +
           (if state.lang.backgroundFill && !state.limitExceeded then Area(state.extentWidth, state.extentHeight) else 0)
           <= budget.total - old(budget.total)
    {
      hide Represents, Shows, FinishPending, FinishPendingCommand, SixelCore.GrowExtentWithinLimit, Complete, BandExpansionCost,
           LimitPixels, Language.Valid, Area, SaturatedGeometry, Painter.Exceeds, CompletesRaster, PaintedWithin;
      FinishAndCharge(budget);
      CompletedExtents(state, painter, Limit());
      ClosedBandKeepsExtents(state, painter);
      ExpandBand();
    }

    /** Completes the pending command and charges the budget for what the end of the image will cost. */
    method FinishAndCharge(budget: WorkBudget?)
      requires Valid() && state.active && (budget != null ==> budget.Valid())
      modifies this`pixels, this`state, this`painter, this`pixelsWritten, budget
      ensures Valid() && state.active && (pixels == old(pixels) || fresh(pixels))
      ensures old(state).lang.Valid() && old(painter).Valid() && Represents(state, painter, Limit())
      ensures painter.Valid() && state.lang == painter.lang && painter == FinishPending(old(painter))
      ensures state == FinishPendingCommand(old(state), Limit()) == SixelCore.GrowExtentWithinLimit(state, Limit())
      ensures SaturatedGeometry(state, painter)
      ensures budget != null ==>
        budget.Valid() && pixelsWritten - old(pixelsWritten) + FinishCost(state) <= budget.total - old(budget.total)
    {
      hide Represents, Shows, FinishPending, FinishPendingCommand, SixelCore.GrowExtentWithinLimit, FinishCost,
           LimitPixels, Language.Valid, Area, SaturatedGeometry, PaintedWithin;
      RepresentsLanguage(state, painter, Limit());
      var reservationsBefore, reservedBefore := state.reservations, state.reservedPixels;
      var repeat := FinishCommand();
      EndPreconditions(state, painter, Limit());
      GrowExtentWithinLimit();
      if budget != null {
        budget.ChargeAfter(FinishCost(state) + (state.reservedPixels - reservedBefore));
        budget.CountRasterAllocations(state.reservations - reservationsBefore);
      }
    }

    /** Fills the background where the image has one and hands out the view. */
    method PublishRaster() returns (raster: Raster)
      requires RasterShape() && state.lang == painter.lang && painter.Valid()
      requires CompletesRaster(state) ==>
        && state.extentWidth <= state.capacityWidth && state.extentHeight <= state.capacityHeight
        && Complete(pixels[..], state.capacityWidth, state.capacityHeight, painter)
      modifies pixels, this`pixelsWritten
      ensures raster == if CompletesRaster(state) then View(pixels, state.capacityWidth, state.extentWidth, state.extentHeight)
                        else NoRaster
      ensures raster.View? ==> raster.width <= raster.stride && raster.buffer.Length >= Area(raster.stride, raster.height)
      ensures raster.View? ==>
        forall px: int, py: int | 0 <= px < state.extentWidth && 0 <= py < state.extentHeight ::
          At(pixels[..], state.capacityWidth, px, py) == Published(painter, px, py)
      ensures pixelsWritten <= old(pixelsWritten) +
        if state.lang.backgroundFill && !state.limitExceeded then Area(state.extentWidth, state.extentHeight) else 0
    {
      raster := NoRaster;
      if !state.limitExceeded && state.extentWidth > 0 && state.extentHeight > 0 {
        PublishWithoutFill(pixels[..], state, painter);
        if state.lang.backgroundFill {
          FillBackground();
        }
        raster := View(pixels, state.capacityWidth, state.extentWidth, state.extentHeight);
        RowsInside(state.capacityWidth, state.extentHeight, state.capacityHeight);
      }
    }

    /** Ends the image at its string terminator. */
    method Finish(budget: WorkBudget?) returns (image: SixelImage, diagnostics: seq<LimitDiagnostic>)
      requires Valid() && state.active && (budget != null ==> budget.Valid())
      modifies this`pixels, this`state, this`painter, this`pixelsWritten, pixels, budget
      ensures Valid() && !state.active && fresh(pixels)
      ensures old(state).lang.Valid() && old(painter).Valid() && painter.Valid()
      ensures painter == FinishPending(old(painter))
      ensures state == FinishImage(old(state), Limit())
      ensures diagnostics == Emitted(FinishPendingCommand(old(state), Limit()), limitBytes)
      ensures ImageShows(image, painter, Limit())
      ensures image.raster.View? ==> image.raster.buffer != pixels
      ensures budget != null ==>
        budget.Valid() && pixelsWritten - old(pixelsWritten) <= budget.total - old(budget.total)
    {
      hide Represents, Shows, FinishPending, FinishPendingCommand, SixelCore.GrowExtentWithinLimit, Complete,
           LimitPixels, Language.Valid, Area, Published, CloseBand, Painter.Exceeds;
      RepresentsLanguage(state, painter, Limit());
      ghost var finished := FinishPendingCommand(state, Limit());
      CompleteRaster(budget);
      ClosedBandKeeps(finished, limitBytes);
      diagnostics := EmitLimitDiagnostic();
      var raster := PublishRaster();
      image := SixelImage(state.extentWidth, state.extentHeight, state.y, state.lang.aspect, raster);
      state := WithHistory(state);
      ReleaseRaster();
      state := state.(active := false);
    }
  }

  /** What the published image must show for the picture `p`. */
  ghost predicate ImageShows(image: SixelImage, p: Painter, limit: nat)
    requires p.Valid()
    reads if image.raster.View? then {image.raster.buffer} else {}
  {
    && image.width == Min(p.width, GEOMETRY_LIMIT)
    && image.height == Min(p.height, GEOMETRY_LIMIT)
    && image.finalCursorY == Min(p.y, GEOMETRY_LIMIT)
    && image.aspect == p.lang.aspect
    && (image.raster.View? <==> !p.Exceeds(limit) && p.width > 0 && p.height > 0)
    && (image.raster.View? ==>
          && image.raster.width == p.width <= image.raster.stride && image.raster.height == p.height
          && image.raster.buffer.Length >= Area(image.raster.stride, image.raster.height)
          && forall px: int, py: int | 0 <= px < p.width && 0 <= py < p.height ::
               At(image.raster.buffer[..], image.raster.stride, px, py) == Published(p, px, py))
  }

  /** What the end of an image may rely on. */
  lemma {:induction false} EndPreconditions(c: Core, p: Painter, limit: nat)
    requires limit < GEOMETRY_LIMIT && Represents(c, p, limit)
    ensures p.Valid() && c.lang == p.lang && SaturatedGeometry(c, p)
    ensures SixelCore.GrowExtentWithinLimit(c, limit) == c
    ensures !c.limitExceeded ==> Area(c.capacityWidth, c.capacityHeight) <= limit
    ensures !c.limitExceeded ==> PaintedWithin(p, c.extentWidth, c.extentHeight)
  {
    EndNeedsNoGrowth(c, p, limit);
    if !c.limitExceeded {
      ExtentHoldsPainting(c, p, limit);
    }
  }

  lemma {:induction false} RowsInside(stride: nat, height: nat, capacityHeight: nat)
    requires height <= capacityHeight
    ensures Area(stride, height) <= Area(stride, capacityHeight)
  {
    ProductMonotone(height, capacityHeight, stride);
    assert stride * height == height * stride && stride * capacityHeight == capacityHeight * stride;
  }

  lemma {:induction false} ClosedBandKeepsExtents(c: Core, p: Painter)
    ensures SaturatedGeometry(CloseBand(c), p) <==> SaturatedGeometry(c, p)
    ensures CompletesRaster(CloseBand(c)) <==> CompletesRaster(c)
  {
  }

  lemma {:induction false} ClosedBandKeeps(c: Core, limitBytes: nat)
    ensures Emitted(CloseBand(c), limitBytes) == Emitted(c, limitBytes)
  {
  }

  /** A complete raster already publishes a transparent image. */
  lemma {:induction false} PublishWithoutFill(raster: seq<Color>, c: Core, p: Painter)
    requires p.Valid() && Complete(raster, c.capacityWidth, c.capacityHeight, p)
    requires c.extentWidth <= c.capacityWidth && c.extentHeight <= c.capacityHeight
    ensures !p.lang.backgroundFill ==>
      forall px: int, py: int | 0 <= px < c.extentWidth && 0 <= py < c.extentHeight ::
        At(raster, c.capacityWidth, px, py) == Published(p, px, py)
  {
  }

  lemma {:induction false} ReportedRepresents(c: Core, p: Painter, limit: nat)
    requires Represents(c, p, limit)
    ensures Represents(Reported(c), p, limit)
  {
  }

  lemma {:induction false} ChargeIs(c: Core, byte: int, limit: nat)
    requires c.lang.Valid()
    ensures Charge(c, byte, limit) == ByteWork(c, byte) + (SixelCore.DecodeByte(c, byte, limit).reservedPixels - c.reservedPixels)
  {
  }

  /** What the last of some bytes is charged. */
  function LastCharge(c: Core, bytes: seq<int>, limit: nat): nat
    requires c.lang.Valid() && bytes != []
  {
    Charge(DecodeAll(c, bytes[..|bytes| - 1], limit), bytes[|bytes| - 1], limit)
  }

  /** So many units spend no budget of that size; the first charge always fits. */
  predicate NotYetSpent(units: nat, charged: int) {
    charged < units || charged == 0
  }

  /** The diagnostics a call that leaves state `c` emits. */
  function Emitted(c: Core, limitBytes: nat): seq<LimitDiagnostic> {
    if c.limitExceeded && !c.limitReported then [LimitDiagnostic(c.exceededBytes, limitBytes)] else []
  }

  lemma {:induction false} SameRasterShows(raster: seq<Color>, c: Core, p: Painter, q: Painter)
    requires Shows(raster, c.capacityWidth, c.capacityHeight, p)
    requires PaintedWithin(p, c.capacityWidth, c.capacityHeight)
    requires q.image == p.image && q.y == p.y && q.lang.aspect == p.lang.aspect
    ensures Shows(raster, c.capacityWidth, c.capacityHeight, q)
    ensures PaintedWithin(q, c.capacityWidth, c.capacityHeight)
  {
    SameShows(raster, c.capacityWidth, c.capacityHeight, p, q);
  }

  /** Completing a command never makes the band dearer to expand: raster
      attributes change the aspect ratio only before anything is drawn. */
  lemma {:induction false} CostAfterCommand(c: Core, p: Painter, limit: nat)
    requires limit < GEOMETRY_LIMIT && Represents(c, p, limit)
    ensures c.lang.Valid() && FinishPendingCommand(c, limit).lang.Valid()
    ensures BandExpansionCost(FinishPendingCommand(c, limit)) <= BandExpansionCost(c)
    ensures !FinishPendingCommand(c, limit).limitExceeded ==> BandExpansionCost(FinishPendingCommand(c, limit)) == BandExpansionCost(c)
    ensures SixelWrites(0, RepeatCount(c.lang)) == 0
  {
    hide FinishPendingCommand, SixelLanguage.FinishCommand, PopCount, Represents, RepeatCount;
    RepresentsLanguage(c, p, limit);
    LanguageStaysValid(c.lang, 0);
    assert PopCount(0) == 0 by {
      NoBitsSet();
    }
    CommandKeepsBand(c, limit);
    AspectAfterCommand(c.lang);
    UnlockedBandIsEmpty(c, p, limit);
  }

  lemma {:induction false} NothingDrawn(repeat: nat)
    ensures SixelWrites(0, repeat) == 0
  {
    assert PopCount(0) == 0 by {
      NoBitsSet();
    }
  }

  lemma {:induction false} NoBitsSet()
    ensures PopCount(0) == 0
  {
  }

  lemma {:induction false} CommandKeepsBand(c: Core, limit: nat)
    requires c.lang.Valid()
    ensures var f := FinishPendingCommand(c, limit);
            && (f.bandWidth == 0 || (f.bandWidth == c.bandWidth && f.bandDrawnBits == c.bandDrawnBits))
            && (!f.limitExceeded ==> f.bandWidth == c.bandWidth)
  {
    hide Area, ReservedCapacity, SixelLanguage.FinishCommand;
  }

  lemma {:induction false} UnlockedBandIsEmpty(c: Core, p: Painter, limit: nat)
    requires Represents(c, p, limit)
    ensures !c.lang.locked ==> c.bandWidth == 0
  {
  }

  lemma {:induction false} AspectAfterCommand(l: Language)
    requires l.Valid()
    ensures l.locked ==> SixelLanguage.FinishCommand(l).aspect == l.aspect
  {
  }

  /** What applying raster attributes may rely on. */
  lemma {:induction false} RasterPreconditions(c: Core, p: Painter, limit: nat)
    requires limit < GEOMETRY_LIMIT && Represents(c, p, limit)
    ensures p.Valid() && c.lang == p.lang
    ensures !c.limitExceeded ==> Area(c.capacityWidth, c.capacityHeight) <= limit
    ensures !c.limitExceeded ==> PaintedWithin(p, c.extentWidth, c.extentHeight)
    ensures !c.lang.locked && !c.lang.backgroundFill ==> !c.limitExceeded
    ensures !c.lang.locked && !c.limitExceeded ==> forall px: int, py: int :: p.image(px, py) == 0
  {
    if !c.limitExceeded {
      ExtentHoldsPainting(c, p, limit);
    }
  }

  lemma {:induction false} NewLineShows(raster: seq<Color>, c: Core, p: Painter, limit: nat)
    requires limit < GEOMETRY_LIMIT && Represents(c, p, limit) && !c.limitExceeded
    requires Complete(raster, c.capacityWidth, c.capacityHeight, p)
    ensures Shows(raster, c.capacityWidth, c.capacityHeight, SixelPainter.NextLine(p))
    ensures PaintedWithin(SixelPainter.NextLine(p), c.capacityWidth, c.capacityHeight)
  {
    NextBandShows(raster, c.capacityWidth, c.capacityHeight, p, RowsOf(c.bandDrawnBits), c.bandWidth);
    CapacityHoldsPainting(c, p, limit);
  }

  lemma {:induction false} FinishedShows(raster: seq<Color>, r: Core, c: Core, p: Painter, limit: nat)
    requires limit < GEOMETRY_LIMIT && Represents(c, p, limit) && !c.limitExceeded
    requires Represents(r, FinishPending(p), limit) && !r.limitExceeded
    requires Shows(raster, r.capacityWidth, r.capacityHeight, p)
    ensures Shows(raster, r.capacityWidth, r.capacityHeight, FinishPending(p))
    ensures PaintedWithin(FinishPending(p), r.capacityWidth, r.capacityHeight)
  {
    var q := FinishPending(p);
    CapacityHoldsPainting(r, q, limit);
    LanguageStaysValid(p.lang, 0);
    if p.lang.locked {
      SameShows(raster, r.capacityWidth, r.capacityHeight, p, q);
    } else {
      forall px: int, py: int | 0 <= px < r.capacityWidth && 0 <= py < r.capacityHeight
        ensures At(raster, r.capacityWidth, px, py) == Deferred(q, px, py)
      {
        assert At(raster, r.capacityWidth, px, py) == Deferred(p, px, py);
        assert p.image(px, py) == 0;
      }
    }
  }

  lemma {:induction false} SetBitIsOpen(c: Core, p: Painter, bit: nat, limit: nat)
    requires Represents(c, p, limit) && bit < SIXEL_ROWS && BitSet(c.bandDrawnBits, bit)
    ensures !c.limitExceeded && p.Valid() && c.lang == p.lang && BandShape(p, RowsOf(c.bandDrawnBits), c.bandWidth)
  {
    assert c.limitExceeded ==> c.bandDrawnBits == 0;
  }

  lemma {:induction false} SkipRow(raster: seq<Color>, c: Core, p: Painter, bit: nat, limit: nat)
    requires Represents(c, p, limit) && !c.limitExceeded && bit < SIXEL_ROWS && !BitSet(c.bandDrawnBits, bit)
    requires Expanded(raster, c.capacityWidth, c.capacityHeight, p, bit, 1)
    ensures Expanded(raster, c.capacityWidth, c.capacityHeight, p, bit + 1, 1)
  {
    NextRow(raster, c.capacityWidth, c.capacityHeight, p, RowsOf(c.bandDrawnBits), c.bandWidth, bit, 1);
  }

  lemma {:induction false} ExpansionCostIs(c: Core)
    requires c.lang.Valid() && c.lang.aspect > 1
    ensures BandExpansionCost(c) == PopCount(c.bandDrawnBits) * (c.bandWidth * (c.lang.aspect - 1))
  {
  }
}
