/** The decoder's saturating state represents the reference painter's unbounded
    one, step by step and over whole strings. */
module SixelRefinement {
  import opened SixelLanguage
  import opened SixelPainter
  import opened SixelCore

  /** The decoder's geometry is the painter's, saturated. */
  ghost predicate SaturatedGeometry(c: Core, p: Painter) {
    && c.x == Min(p.x, GEOMETRY_LIMIT)
    && c.y == Min(p.y, GEOMETRY_LIMIT)
    && c.extentWidth == Min(p.width, GEOMETRY_LIMIT)
    && c.extentHeight == Min(p.height, GEOMETRY_LIMIT)
  }

  ghost predicate CapacityCovers(c: Core, limit: nat) {
    && Area(c.capacityWidth, c.capacityHeight) <= limit
    && Fits(c, c.extentWidth, c.extentHeight)
  }

  ghost predicate Represents(c: Core, p: Painter, limit: nat) {
    && p.Valid() && c.lang == p.lang
    && SaturatedGeometry(c, p)
    && (!p.lang.locked && !p.lang.backgroundFill ==> p.width == 0 && p.height == 0)
    && (c.limitExceeded <==> p.Exceeds(limit))
    && c.exceededBytes < 0x1_0000_0000_0000_0000
    && (c.limitExceeded ==> c == Release(c))
    && (!c.limitExceeded ==> CapacityCovers(c, limit) && BandShape(p, RowsOf(c.bandDrawnBits), c.bandWidth))
  }

  lemma {:induction false} ProductAboveFactor(a: nat, b: nat)
    requires 1 <= b
    ensures a <= a * b
  {
  }

  /** Saturation never hides that a picture outgrew the cap, nor invents it. */
  lemma {:induction false} SaturatedProduct(width: nat, height: nat, limit: nat)
    requires limit < GEOMETRY_LIMIT
    ensures Area(Min(width, GEOMETRY_LIMIT), Min(height, GEOMETRY_LIMIT)) > limit <==> Area(width, height) > limit
    ensures Area(Min(width, GEOMETRY_LIMIT), Min(height, GEOMETRY_LIMIT)) < 0x4000_0000_0000_0000
    ensures 1 <= width && 1 <= height && Area(width, height) <= limit ==> width <= limit && height <= limit
  {
    var w, h := Min(width, GEOMETRY_LIMIT), Min(height, GEOMETRY_LIMIT);
    ProductMonotone(w, GEOMETRY_LIMIT, h);
    ProductMonotone(h, GEOMETRY_LIMIT, GEOMETRY_LIMIT);
    assert GEOMETRY_LIMIT * h == h * GEOMETRY_LIMIT;
    if 1 <= width && 1 <= height {
      ProductAboveFactor(width, height);
      ProductAboveFactor(height, width);
      assert width * height == height * width;
      ProductAboveFactor(w, h);
      ProductAboveFactor(h, w);
      assert w * h == h * w;
    } else {
      assert width * height == 0 && w * h == 0;
    }
  }

  lemma {:induction false} ReserveCovers(c: Core, width: nat, height: nat, limit: nat)
    requires Area(width, height) <= limit && Area(c.capacityWidth, c.capacityHeight) <= limit
    ensures var r := Reserve(c, width, height, limit);
            && Area(r.capacityWidth, r.capacityHeight) <= limit
            && Fits(r, width, height)
            && r == c.(capacityWidth := r.capacityWidth, capacityHeight := r.capacityHeight,
                       reservations := r.reservations, reservedPixels := r.reservedPixels)
  {
    if !Fits(c, width, height) {
      ReservationFits(c, width, height, limit);
    }
  }

  /** Growing the extents of `c` to those of `q` keeps the representation. */
  lemma {:induction false} GrowRepresents(c: Core, p: Painter, q: Painter, limit: nat)
    requires limit < GEOMETRY_LIMIT && p.Valid() && q.Valid() && c.lang == q.lang
    requires SaturatedGeometry(c, q)
    requires p.width <= q.width && p.height <= q.height
    requires c.limitExceeded <==> p.Exceeds(limit)
    requires c.limitExceeded ==> c == Release(c)
    requires !c.limitExceeded ==> Area(c.capacityWidth, c.capacityHeight) <= limit
    requires c.exceededBytes < 0x1_0000_0000_0000_0000
    ensures var r := GrowExtentWithinLimit(c, limit);
            && r.lang == q.lang && SaturatedGeometry(r, q)
            && (r.limitExceeded <==> q.Exceeds(limit))
            && r.exceededBytes < 0x1_0000_0000_0000_0000
            && (r.limitExceeded ==> r == Release(r))
            && (!r.limitExceeded ==> CapacityCovers(r, limit))
            && (!r.limitExceeded ==> r.bandWidth == c.bandWidth && r.bandDrawnBits == c.bandDrawnBits)
  {
    SaturatedProduct(q.width, q.height, limit);
    ProductMonotone(p.width, q.width, p.height);
    ProductMonotone(p.height, q.height, q.width);
    assert q.width * p.height == p.height * q.width && q.height * q.width == q.width * q.height;
    if !c.limitExceeded && Area(c.extentWidth, c.extentHeight) <= limit {
      ReserveCovers(c, c.extentWidth, c.extentHeight, limit);
    }
  }

  lemma {:induction false} FinishPendingRepresents(c: Core, p: Painter, limit: nat)
    requires limit < GEOMETRY_LIMIT && Represents(c, p, limit)
    ensures Represents(FinishPendingCommand(c, limit), FinishPending(p), limit)
  {
    LanguageStaysValid(c.lang, 0);
    if !c.limitExceeded {
      FinishPendingKeepsBandShape(p, RowsOf(c.bandDrawnBits), c.bandWidth);
    }
    hide GrowExtentWithinLimit, Reserve, FinishCommand, BandShape, RowsOf, Language.Valid;
    if DeclaresRaster(c.lang) {
      RasterRepresents(c, p, limit);
    }
  }

  lemma {:induction false} RasterRepresents(c: Core, p: Painter, limit: nat)
    requires limit < GEOMETRY_LIMIT && Represents(c, p, limit) && DeclaresRaster(c.lang)
    requires FinishPending(p).Valid()
    requires !c.limitExceeded ==> BandShape(FinishPending(p), RowsOf(c.bandDrawnBits), c.bandWidth)
    ensures Represents(FinishPendingCommand(c, limit), FinishPending(p), limit)
  {
    LanguageStaysValid(c.lang, 0);
    hide GrowExtentWithinLimit, Reserve, FinishCommand, BandShape, RowsOf, Language.Valid;
    var q := FinishPending(p);
    var f := c.(lang := FinishCommand(c.lang));
    if f.lang.backgroundFill {
      var g := f.(extentWidth := Max(f.extentWidth, f.lang.declaredWidth),
                  extentHeight := Max(f.extentHeight, f.lang.declaredHeight));
      DeclaredFits(f.lang);
      GrowRepresents(g, p, q, limit);
    } else {
      assert q.width == 0 && q.height == 0;
      if Area(f.lang.declaredWidth, f.lang.declaredHeight) <= limit {
        ReserveCovers(f, f.lang.declaredWidth, f.lang.declaredHeight, limit);
      }
    }
  }

  lemma {:induction false} DeclaredFits(l: Language)
    requires l.Valid()
    ensures l.declaredWidth < GEOMETRY_LIMIT && l.declaredHeight < GEOMETRY_LIMIT
  {
  }

  lemma {:induction false} LockedValid(l: Language)
    requires l.Valid()
    ensures l.(locked := true).Valid()
  {
  }

  /** A point drawn inside a picture that fits the cap was never saturated. */
  lemma {:induction false} CursorInsideCap(q: Painter, x: nat, y: nat, limit: nat)
    requires limit < GEOMETRY_LIMIT && x <= q.width && y <= q.height
    ensures 1 <= q.width && 1 <= q.height && !q.Exceeds(limit) ==> x <= limit && y <= limit
  {
    SaturatedProduct(q.width, q.height, limit);
  }

  lemma {:induction false} WidenedRepresents(c: Core, p: Painter, bits: bv8, repeat: nat, limit: nat)
    requires limit < GEOMETRY_LIMIT && Represents(c, p, limit) && bits != 0
    ensures var q, r := Draw(p, bits, repeat).(x := p.x), GrowExtentWithinLimit(Widened(c, bits, repeat), limit);
            && q.Valid() && r.lang == q.lang && SaturatedGeometry(r, q)
            && (r.limitExceeded <==> q.Exceeds(limit))
            && r.exceededBytes < 0x1_0000_0000_0000_0000
            && (r.limitExceeded ==> r == Release(r))
            && (!r.limitExceeded ==> CapacityCovers(r, limit) && !c.limitExceeded)
            && (!r.limitExceeded ==> r.bandWidth == c.bandWidth && r.bandDrawnBits == c.bandDrawnBits)
  {
    LockedValid(c.lang);
    hide GrowExtentWithinLimit, BandShape, RowsOf, BitWidth, RowsBefore, Language.Valid, PaintSixel;
    GrowRepresents(Widened(c, bits, repeat), p, Draw(p, bits, repeat).(x := p.x), limit);
    if c.limitExceeded {
      StaysExceeded(p, Draw(p, bits, repeat), limit);
    }
  }

  lemma {:induction false} StaysExceeded(p: Painter, q: Painter, limit: nat)
    requires p.Exceeds(limit) && p.width <= q.width && p.height <= q.height
    ensures q.Exceeds(limit)
  {
    ProductMonotone(p.width, q.width, p.height);
    ProductMonotone(p.height, q.height, q.width);
  }

  /** Marking the band after the extents have grown. */
  lemma {:induction false} MarkedBandRepresents(r: Core, q: Painter, bits: bv8, cursor: nat, x: nat, limit: nat)
    requires q.Valid() && r.lang == q.lang && SaturatedGeometry(r, q)
    requires r.limitExceeded <==> q.Exceeds(limit)
    requires r.exceededBytes < 0x1_0000_0000_0000_0000
    requires r.limitExceeded ==> r == Release(r)
    requires !r.limitExceeded ==> CapacityCovers(r, limit)
    requires !r.limitExceeded ==> BandShape(q.(x := x), RowsOf(r.bandDrawnBits | bits), Max(r.bandWidth, cursor))
    requires q.lang.locked
    ensures Represents(MarkBand(r, cursor, bits).(x := Min(x, GEOMETRY_LIMIT)), q.(x := x), limit)
  {
    hide BandShape, RowsOf, Language.Valid, Area, Continues, Max;
  }

  lemma {:induction false} UnsaturatedCursor(c: Core, p: Painter, bits: bv8, repeat: nat, limit: nat)
    requires limit < GEOMETRY_LIMIT && Represents(c, p, limit) && 1 <= repeat
    requires bits != 0 && 1 <= BitWidth(bits)
    ensures c.lang == p.lang && p.Valid() && Advanced(c.x, repeat) == Min(p.x + repeat, GEOMETRY_LIMIT)
    ensures !Draw(p, bits, repeat).Exceeds(limit) ==> c.x == p.x && p.x + repeat <= limit
  {
    var q := Draw(p, bits, repeat);
    var rows := RowsBefore(BitWidth(bits), c.lang.aspect);
    RowsBeforeMonotone(1, BitWidth(bits), c.lang.aspect);
    assert 1 <= rows;
    hide RowsBefore, BitWidth, BandShape, RowsOf, Language.Valid, PaintSixel;
    CursorInsideCap(q, p.x + repeat, p.y + rows, limit);
  }

  lemma {:induction false} DrawnBandShape(c: Core, p: Painter, bits: bv8, repeat: nat, limit: nat)
    requires Represents(c, p, limit) && !c.limitExceeded && 1 <= repeat && bits != 0
    ensures BandShape(Draw(p, bits, repeat), RowsOf(c.bandDrawnBits | bits), Max(c.bandWidth, p.x + repeat))
  {
    DrawKeepsBandShape(p, RowsOf(c.bandDrawnBits), c.bandWidth, bits, repeat);
    RowsOfUnion(c.bandDrawnBits, bits);
  }

  lemma {:induction false} SetBitsRepresent(c: Core, p: Painter, bits: bv8, repeat: nat, limit: nat)
    requires limit < GEOMETRY_LIMIT && Represents(c, p, limit) && 1 <= repeat
    requires bits != 0 && 1 <= BitWidth(bits)
    ensures Represents(DrawSixel(c, bits, repeat, limit), Draw(p, bits, repeat), limit)
  {
    hide GrowExtentWithinLimit, Widened, MarkBand, BandShape, RowsOf, BitWidth, RowsBefore, Language.Valid,
         CapacityCovers, Represents, Painter.Exceeds, SaturatedGeometry, Advanced, Area, PaintSixel, Max, Min;
    UnsaturatedCursor(c, p, bits, repeat, limit);
    var q := Draw(p, bits, repeat);
    var r, grown := GrowExtentWithinLimit(Widened(c, bits, repeat), limit), q.(x := p.x);
    WidenedRepresents(c, p, bits, repeat, limit);
    if !r.limitExceeded {
      DrawnBandShape(c, p, bits, repeat, limit);
    }
    assert grown.(x := p.x + repeat) == q && grown.lang.locked;
    SameExtentsExceed(grown, q, limit);
    hide Draw;
    MarkedBandRepresents(r, grown, bits, c.x + repeat, p.x + repeat, limit);
  }

  lemma {:induction false} SameExtentsExceed(p: Painter, q: Painter, limit: nat)
    requires p.width == q.width && p.height == q.height
    ensures p.Exceeds(limit) <==> q.Exceeds(limit)
  {
  }

  lemma {:induction false} DrawRepresents(c: Core, p: Painter, bits: bv8, repeat: nat, limit: nat)
    requires limit < GEOMETRY_LIMIT && Represents(c, p, limit) && 1 <= repeat
    requires bits == 0 || 1 <= BitWidth(bits)
    ensures Represents(DrawSixel(c, bits, repeat, limit), Draw(p, bits, repeat), limit)
  {
    LockedValid(c.lang);
    if bits != 0 {
      SetBitsRepresent(c, p, bits, repeat, limit);
    } else if !c.limitExceeded {
      EmptySixelKeepsBandShape(p, RowsOf(c.bandDrawnBits), c.bandWidth, repeat);
    }
  }

  lemma {:induction false} NewLineRepresents(c: Core, p: Painter, limit: nat)
    requires limit < GEOMETRY_LIMIT && Represents(c, p, limit)
    ensures Represents(GraphicsNewLine(c), NextLine(p), limit)
  {
    LockedValid(c.lang);
    RowsOfUnion(0, 0);
    if !c.limitExceeded {
      NextLineKeepsBandShape(p, RowsOf(c.bandDrawnBits), c.bandWidth);
    }
  }

  lemma {:induction false} LanguageRepresents(c: Core, p: Painter, lang: Language, limit: nat)
    requires limit < GEOMETRY_LIMIT && Represents(c, p, limit) && lang.Valid()
    requires lang.aspect == p.lang.aspect && lang.locked == p.lang.locked && lang.backgroundFill == p.lang.backgroundFill
    ensures Represents(c.(lang := lang), p.(lang := lang), limit)
  {
    if !c.limitExceeded {
      ReturnKeepsBandShape(p, lang, p.x, RowsOf(c.bandDrawnBits), c.bandWidth);
    }
  }

  lemma {:induction false} ReturnRepresents(c: Core, p: Painter, limit: nat)
    requires limit < GEOMETRY_LIMIT && Represents(c, p, limit)
    ensures Represents(c.(x := 0), p.(x := 0), limit)
  {
    if !c.limitExceeded {
      ReturnKeepsBandShape(p, p.lang, 0, RowsOf(c.bandDrawnBits), c.bandWidth);
    }
  }

  lemma {:induction false} RepresentsLanguage(c: Core, p: Painter, limit: nat)
    requires Represents(c, p, limit)
    ensures c.lang == p.lang && p.Valid()
  {
  }

  /** One byte keeps the representation. */
  lemma {:induction false} ByteRepresents(c: Core, p: Painter, byte: int, limit: nat)
    requires limit < GEOMETRY_LIMIT && Represents(c, p, limit)
    ensures Represents(DecodeByte(c, byte, limit), PaintByte(p, byte), limit)
  {
    RepresentsLanguage(c, p, limit);
    LanguageStaysValid(c.lang, byte);
    LanguageStaysValid(FinishCommand(c.lang), byte);
    hide Represents, FinishPendingCommand, FinishPending, DrawSixel, Draw, GraphicsNewLine, NextLine, SixelBits,
         FinishCommand, CollectParameterByte, RepeatCount, Language.Valid, BitWidth;
    if c.lang.command != NoCommand && IsParameterByte(byte) {
      CollectKeepsMode(p.lang, byte);
      LanguageRepresents(c, p, CollectParameterByte(p.lang, byte), limit);
    } else {
      PerformRepresents(c, p, byte, limit);
    }
  }

  lemma {:induction false} CollectKeepsMode(l: Language, byte: int)
    requires l.Valid() && IsParameterByte(byte)
    ensures var r := CollectParameterByte(l, byte);
            r.aspect == l.aspect && r.locked == l.locked && r.backgroundFill == l.backgroundFill
  {
  }

  lemma {:induction false} PerformRepresents(c: Core, p: Painter, byte: int, limit: nat)
    requires limit < GEOMETRY_LIMIT && Represents(c, p, limit) && c.lang == p.lang && p.Valid()
    requires FinishPending(p).Valid() && FinishPendingCommand(c, limit).lang.Valid()
    ensures Represents(
              PerformByte(FinishPendingCommand(c, limit), byte, RepeatCount(c.lang), limit),
              Perform(FinishPending(p), byte, RepeatCount(p.lang)), limit)
  {
    FinishPendingRepresents(c, p, limit);
    hide FinishPendingCommand, FinishPending;
    var f, q := FinishPendingCommand(c, limit), FinishPending(p);
    RepresentsLanguage(f, q, limit);
    hide Represents, DrawSixel, Draw, GraphicsNewLine, NextLine, SixelBits, RepeatCount, Language.Valid, BitWidth;
    if IsDataByte(byte) {
      SomeBitSet(byte);
      DrawRepresents(f, q, SixelBits(byte), RepeatCount(p.lang), limit);
    } else if byte == 0x24 {
      ReturnRepresents(f, q, limit);
    } else if byte == 0x2d {
      NewLineRepresents(f, q, limit);
    } else {
      LanguageStaysValid(q.lang, byte);
      LanguageRepresents(f, q, StartedBy(q.lang, byte), limit);
    }
  }

  /** The whole string: whatever bytes arrive, the decoder's state represents
      the painter's. */
  lemma {:induction false} StringRepresents(c: Core, p: Painter, bytes: seq<int>, limit: nat)
    requires limit < GEOMETRY_LIMIT && Represents(c, p, limit)
    ensures Represents(DecodeAll(c, bytes, limit), PaintAll(p, bytes), limit)
    decreases |bytes|
  {
    if bytes != [] {
      var front := bytes[..|bytes| - 1];
      StringRepresents(c, p, front, limit);
      ByteRepresents(DecodeAll(c, front, limit), PaintAll(p, front), bytes[|bytes| - 1], limit);
    }
  }

  // ---- Where the decoder writes --------------------------------------------

  /** A sixel drawn under the cap lies inside the capacity, unsaturated. */
  lemma {:induction false} DrawFits(c: Core, p: Painter, bits: bv8, repeat: nat, limit: nat)
    requires limit < GEOMETRY_LIMIT && Represents(c, p, limit) && 1 <= repeat
    requires bits != 0 && 1 <= BitWidth(bits)
    ensures var grown := GrowExtentWithinLimit(Widened(c, bits, repeat), limit);
            !grown.limitExceeded ==>
              && c.x == p.x && c.y == p.y && !c.limitExceeded
              && p.x + repeat <= grown.capacityWidth
              && p.y + RowsBefore(BitWidth(bits), p.lang.aspect) <= grown.capacityHeight
  {
    var q := Draw(p, bits, repeat);
    WidenedRepresents(c, p, bits, repeat, limit);
    RowsBeforeMonotone(1, BitWidth(bits), c.lang.aspect);
    CursorInsideCap(q, p.x + repeat, p.y + RowsBefore(BitWidth(bits), p.lang.aspect), limit);
    hide GrowExtentWithinLimit, BandShape, RowsOf, Language.Valid, PaintSixel, BitWidth, RowsBefore;
    SaturatedProduct(q.width, q.height, limit);
  }

  /** The rows a band expansion writes lie inside the capacity, unsaturated. */
  lemma {:induction false} ExpansionFits(c: Core, p: Painter, row: nat, limit: nat)
    requires limit < GEOMETRY_LIMIT && Represents(c, p, limit) && !c.limitExceeded
    requires row < SIXEL_ROWS && BitSet(c.bandDrawnBits, row)
    ensures c.y == p.y && c.bandWidth <= c.capacityWidth
    ensures p.y + RowsBefore(row + 1, p.lang.aspect) <= c.capacityHeight
  {
    assert row in RowsOf(c.bandDrawnBits);
    assert 1 <= RowsBefore(row + 1, p.lang.aspect);
    hide RowsOf, Language.Valid, BitSet, RowsBefore;
    SaturatedProduct(p.width, p.height, limit);
  }

  lemma {:induction false} CapacityHoldsPainting(c: Core, p: Painter, limit: nat)
    requires limit < GEOMETRY_LIMIT && Represents(c, p, limit) && !c.limitExceeded
    ensures forall px: int, py: int | p.image(px, py) != 0 :: 0 <= px < c.capacityWidth && 0 <= py < c.capacityHeight
  {
    SaturatedProduct(p.width, p.height, limit);
  }

  lemma {:induction false} ExtentHoldsPainting(c: Core, p: Painter, limit: nat)
    requires limit < GEOMETRY_LIMIT && Represents(c, p, limit) && !c.limitExceeded
    ensures forall px: int, py: int | p.image(px, py) != 0 :: 0 <= px < c.extentWidth && 0 <= py < c.extentHeight
  {
    SaturatedProduct(p.width, p.height, limit);
  }

  /** What growing the extents may rely on while the image is under the cap. */
  lemma {:induction false} GrowthPreconditions(c: Core, p: Painter, bits: bv8, repeat: nat, limit: nat)
    requires limit < GEOMETRY_LIMIT && Represents(c, p, limit)
    ensures p.Valid() && c.lang == p.lang
    ensures !c.limitExceeded ==> Area(c.capacityWidth, c.capacityHeight) <= limit
    ensures !c.limitExceeded ==> forall px: int, py: int | p.image(px, py) != 0 ::
      && 0 <= px < Widened(c, bits, repeat).extentWidth
      && 0 <= py < Widened(c, bits, repeat).extentHeight
  {
    if !c.limitExceeded {
      ExtentHoldsPainting(c, p, limit);
    }
  }

  /** A new image represents a painter before an unpainted plane. */
  lemma {:induction false} BeginRepresents(c: Core, header: seq<int>, limit: nat)
    requires limit < GEOMETRY_LIMIT && c == Release(c)
    ensures Represents(BeginImage(c, header), Start(BeginLanguage(header)), limit)
  {
    RowsOfUnion(0, 0);
    var p := Start(BeginLanguage(header));
    assert Area(0, 0) == 0;
    assert RowsRepeat(p);
  }

  /** With the cap held fixed the growth at the end of an image finds nothing to do. */
  lemma {:induction false} EndNeedsNoGrowth(c: Core, p: Painter, limit: nat)
    requires limit < GEOMETRY_LIMIT && Represents(c, p, limit)
    ensures GrowExtentWithinLimit(c, limit) == c
  {
    SaturatedProduct(p.width, p.height, limit);
  }

  /** An image with drawable extents under the cap is unsaturated. */
  lemma {:induction false} CompletedExtents(c: Core, p: Painter, limit: nat)
    requires limit < GEOMETRY_LIMIT && Represents(c, p, limit)
    ensures CompletesRaster(c) <==> !p.Exceeds(limit) && p.width > 0 && p.height > 0
    ensures CompletesRaster(c) ==>
      && c.extentWidth == p.width <= c.capacityWidth
      && c.extentHeight == p.height <= c.capacityHeight
  {
    SaturatedProduct(p.width, p.height, limit);
  }
}
