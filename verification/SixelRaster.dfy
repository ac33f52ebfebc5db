/** What the capacity buffer shows of the painter's picture: the first device
    rows of the open band are drawn, the others follow when the band closes. */
module SixelRaster {
  import opened SixelLanguage
  import opened SixelPainter
  import opened RasterIndex

  /** What the raster holds at a pixel while the painter shows `p`: the later
      rows of the open band are still to be copied. */
  ghost function Deferred(p: Painter, px: int, py: int): Color {
    if py < p.y || FirstOfRow(py - p.y, p.lang.aspect) then p.image(px, py) else 0
  }

  ghost predicate Shows(raster: seq<Color>, width: nat, height: nat, p: Painter) {
    forall px: int, py: int | 0 <= px < width && 0 <= py < height ::
      At(raster, width, px, py) == Deferred(p, px, py)
  }

  ghost predicate PaintedWithin(p: Painter, width: nat, height: nat) {
    forall px: int, py: int | p.image(px, py) != 0 :: 0 <= px < width && 0 <= py < height
  }

  /** The pixel a copy of a raster to other dimensions holds at `index`. */
  function CopiedPixel(raster: seq<Color>, width: nat, height: nat, newWidth: nat, index: nat): Color
    requires |raster| == width * height && 0 < newWidth
  {
    var x, y := index % newWidth, index / newWidth;
    if x < width && y < height then
      InsideBuffer(width, height, x, y, 1);
      raster[y * width + x]
    else 0
  }

  lemma {:induction false} CopyShows(before: seq<Color>, width: nat, height: nat, after: seq<Color>, newWidth: nat,
        newHeight: nat, p: Painter)
    requires |before| == width * height && |after| == newWidth * newHeight && 0 < newWidth
    requires forall i | 0 <= i < |after| :: after[i] == CopiedPixel(before, width, height, newWidth, i)
    requires Shows(before, width, height, p) && PaintedWithin(p, width, height)
    ensures Shows(after, newWidth, newHeight, p)
  {
    forall px: int, py: int | 0 <= px < newWidth && 0 <= py < newHeight
      ensures At(after, newWidth, px, py) == Deferred(p, px, py)
    {
      InsideBuffer(newWidth, newHeight, px, py, 1);
      RowAndColumn(newWidth, px, py);
      if px < width && py < height {
        InsideBuffer(width, height, px, py, 1);
        assert At(before, width, px, py) == Deferred(p, px, py);
      } else {
        assert p.image(px, py) == 0;
      }
    }
  }

  lemma {:induction false} SameShows(raster: seq<Color>, width: nat, height: nat, p: Painter, q: Painter)
    requires Shows(raster, width, height, p)
    requires q.image == p.image && q.y == p.y && q.lang.aspect == p.lang.aspect
    ensures Shows(raster, width, height, q)
  {
    forall px: int, py: int | 0 <= px < width && 0 <= py < height
      ensures At(raster, width, px, py) == Deferred(q, px, py)
    {
      assert Deferred(q, px, py) == Deferred(p, px, py);
    }
  }

  /** A painter that has painted only the first `count` rows of a sixel. */
  ghost function Partly(p: Painter, bits: bv8, repeat: nat, count: nat): Painter
    requires p.Valid() && count <= SIXEL_ROWS
  {
    p.(image := PaintSixel(p.image, p.x, p.y, p.lang.aspect, bits, repeat, p.lang.registers[p.lang.selected], count))
  }

  /** Once all six rows are stamped the raster shows the drawn sixel. */
  lemma {:induction false} DrawnShows(raster: seq<Color>, width: nat, height: nat, p: Painter, bits: bv8, repeat: nat)
    requires p.Valid()
    requires bits == 0 ==> Shows(raster, width, height, p)
    requires bits != 0 ==> Shows(raster, width, height, Partly(p, bits, repeat, SIXEL_ROWS))
    ensures Shows(raster, width, height, Draw(p, bits, repeat))
  {
    if bits == 0 {
      SameShows(raster, width, height, p, Draw(p, bits, repeat));
    } else {
      SameShows(raster, width, height, Partly(p, bits, repeat, SIXEL_ROWS), Draw(p, bits, repeat));
    }
  }

  /** Filling the first device row of a set bit shows one more painted row. */
  lemma {:induction false} FillStep(before: seq<Color>, after: seq<Color>, width: nat, height: nat,
                 p: Painter, bits: bv8, repeat: nat, bit: nat)
    requires p.Valid() && bit < SIXEL_ROWS && BitSet(bits, bit)
    requires Shows(before, width, height, Partly(p, bits, repeat, bit))
    requires forall px: int, py: int | 0 <= px < width && 0 <= py < height ::
      At(after, width, px, py) ==
        if py == p.y + RowsBefore(bit, p.lang.aspect) && p.x <= px < p.x + repeat
        then p.lang.registers[p.lang.selected] else At(before, width, px, py)
    ensures Shows(after, width, height, Partly(p, bits, repeat, bit + 1))
  {
    var was, now := Partly(p, bits, repeat, bit), Partly(p, bits, repeat, bit + 1);
    var a := p.lang.aspect;
    forall px: int, py: int | 0 <= px < width && 0 <= py < height
      ensures At(after, width, px, py) == Deferred(now, px, py)
    {
      assert At(before, width, px, py) == Deferred(was, px, py);
      FirstRowIndex(bit, a);
      OneFirstRow(py - p.y, bit, a);
      assert now.image == PaintRect(was.image, p.x, p.y + RowsBefore(bit, a), repeat, a, p.lang.registers[p.lang.selected]);
    }
  }

  lemma {:induction false} OneFirstRow(d: int, bit: nat, aspect: nat)
    requires bit < SIXEL_ROWS && 1 <= aspect
    ensures FirstOfRow(d, aspect) && RowsBefore(bit, aspect) <= d < RowsBefore(bit, aspect) + aspect
      ==> d == RowsBefore(bit, aspect)
    ensures d < 0 ==> d < RowsBefore(bit, aspect)
  {
  }

  // ---- Closing a band --------------------------------------------------------

  /** Whether device row `py` already shows its final pixels when the rows of
      sixel row `bit` are copied up to (not including) its `i`th. */
  ghost predicate RowDone(p: Painter, py: int, bit: nat, i: nat)
    requires bit <= SIXEL_ROWS
  {
    var d, a := py - p.y, p.lang.aspect;
    d < 0 || FirstOfRow(d, a) || (d < 6 * a && (BandIndex(d, a) < bit || (BandIndex(d, a) == bit && d < RowsBefore(bit, a) + i)))
  }

  ghost predicate Expanded(raster: seq<Color>, width: nat, height: nat, p: Painter, bit: nat, i: nat)
    requires bit <= SIXEL_ROWS
  {
    forall px: int, py: int | 0 <= px < width && 0 <= py < height ::
      At(raster, width, px, py) == if RowDone(p, py, bit, i) then p.image(px, py) else 0
  }

  /** The raster shows the whole picture. */
  ghost predicate Complete(raster: seq<Color>, width: nat, height: nat, p: Painter) {
    forall px: int, py: int | 0 <= px < width && 0 <= py < height :: At(raster, width, px, py) == p.image(px, py)
  }

  lemma {:induction false} BeginExpansion(raster: seq<Color>, width: nat, height: nat, p: Painter)
    requires p.Valid() && Shows(raster, width, height, p)
    ensures Expanded(raster, width, height, p, 0, 1)
  {
    forall px: int, py: int | 0 <= px < width && 0 <= py < height
      ensures At(raster, width, px, py) == if RowDone(p, py, 0, 1) then p.image(px, py) else 0
    {
      assert RowDone(p, py, 0, 1) <==> py < p.y || FirstOfRow(py - p.y, p.lang.aspect);
      assert At(raster, width, px, py) == Deferred(p, px, py);
    }
  }

  lemma {:induction false} CopyStep(before: seq<Color>, after: seq<Color>, width: nat, height: nat,
                 p: Painter, rows: set<nat>, bandWidth: nat, bit: nat, i: nat)
    requires p.Valid() && bit < SIXEL_ROWS && 1 <= i < p.lang.aspect
    requires BandShape(p, rows, bandWidth) && p.y + RowsBefore(bit, p.lang.aspect) < height
    requires Expanded(before, width, height, p, bit, i)
    requires forall px: int, py: int | 0 <= px < width && 0 <= py < height ::
      At(after, width, px, py) ==
        At(before, width, px, if py == p.y + RowsBefore(bit, p.lang.aspect) + i && px < bandWidth
                              then p.y + RowsBefore(bit, p.lang.aspect) else py)
    ensures Expanded(after, width, height, p, bit, i + 1)
  {
    var a, source := p.lang.aspect, p.y + RowsBefore(bit, p.lang.aspect);
    FirstRowIndex(bit, a);
    RowIndexOf(bit, i, a);
    assert FirstRow(p, source + i) == source;
    forall px: int, py: int | 0 <= px < width && 0 <= py < height
      ensures At(after, width, px, py) == if RowDone(p, py, bit, i + 1) then p.image(px, py) else 0
    {
      if py == source + i {
        assert p.image(px, py) == p.image(px, FirstRow(p, py));
        assert At(before, width, px, source) == p.image(px, source);
        assert !RowDone(p, py, bit, i) && At(before, width, px, py) == 0;
        assert px >= bandWidth ==> p.image(px, py) == 0;
      } else {
        assert At(before, width, px, py) == if RowDone(p, py, bit, i) then p.image(px, py) else 0;
      }
    }
  }

  lemma {:induction false} RowIndexOf(bit: nat, i: nat, aspect: nat)
    requires bit < SIXEL_ROWS && i < aspect
    ensures BandIndex(RowsBefore(bit, aspect) + i, aspect) == bit
    ensures 1 <= i ==> !FirstOfRow(RowsBefore(bit, aspect) + i, aspect)
    ensures RowsBefore(bit, aspect) + i < 6 * aspect
  {
  }

  /** Once the rows of a set bit are copied, or at once for a bit not set, the
      next sixel row is up. */
  lemma {:induction false} NextRow(raster: seq<Color>, width: nat, height: nat, p: Painter, rows: set<nat>,
        bandWidth: nat, bit: nat, i: nat)
    requires p.Valid() && bit < SIXEL_ROWS && BandShape(p, rows, bandWidth)
    requires Expanded(raster, width, height, p, bit, i)
    requires i == p.lang.aspect || (i == 1 && bit !in rows)
    ensures Expanded(raster, width, height, p, bit + 1, 1)
  {
    forall px: int, py: int | 0 <= px < width && 0 <= py < height
      ensures At(raster, width, px, py) == if RowDone(p, py, bit + 1, 1) then p.image(px, py) else 0
    {
      var d, a := py - p.y, p.lang.aspect;
      assert At(raster, width, px, py) == if RowDone(p, py, bit, i) then p.image(px, py) else 0;
      if 0 <= d < 6 * a {
        BandIndexBounds(d, a);
        assert p.image(px, py) != 0 ==> BandIndex(d, a) in rows;
      }
    }
  }

  lemma {:induction false} EndExpansion(raster: seq<Color>, width: nat, height: nat, p: Painter, rows: set<nat>, bandWidth: nat)
    requires p.Valid() && BandShape(p, rows, bandWidth)
    requires Expanded(raster, width, height, p, SIXEL_ROWS, 1) || (p.lang.aspect == 1 && Shows(raster, width, height, p))
    ensures Complete(raster, width, height, p)
  {
    forall px: int, py: int | 0 <= px < width && 0 <= py < height
      ensures At(raster, width, px, py) == p.image(px, py)
    {
      var d, a := py - p.y, p.lang.aspect;
      if 0 <= d < 6 * a {
        BandIndexBounds(d, a);
      }
      if Expanded(raster, width, height, p, SIXEL_ROWS, 1) {
        assert At(raster, width, px, py) == if RowDone(p, py, SIXEL_ROWS, 1) then p.image(px, py) else 0;
      } else {
        assert At(raster, width, px, py) == Deferred(p, px, py);
      }
      assert p.image(px, py) != 0 ==> py < p.y + 6 * a;
    }
  }

  /** Below a closed band nothing is painted yet, so the next one shows too. */
  lemma {:induction false} NextBandShows(raster: seq<Color>, width: nat, height: nat, p: Painter, rows: set<nat>, bandWidth: nat)
    requires p.Valid() && BandShape(p, rows, bandWidth) && Complete(raster, width, height, p)
    ensures Shows(raster, width, height, NextLine(p))
  {
    var q := NextLine(p);
    forall px: int, py: int | 0 <= px < width && 0 <= py < height
      ensures At(raster, width, px, py) == Deferred(q, px, py)
    {
      assert At(raster, width, px, py) == p.image(px, py);
      assert p.image(px, py) != 0 ==> py < p.y + 6 * p.lang.aspect;
    }
  }
}
