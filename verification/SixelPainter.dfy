/** The reference meaning of a sixel string: a naive painter on an unbounded
    plane. Every set bit is written straight into all of its aspect-ratio rows;
    there is no cap, no capacity, no band and no saturation. */
module SixelPainter {
  import opened SixelLanguage

  /** The colour at column `x`, row `y`; 0 where nothing was painted. */
  type Image = (int, int) -> Color

  ghost function Blank(): Image { (px: int, py: int) => 0 }

  ghost function PaintRect(image: Image, x: int, y: int, width: int, height: int, color: Color): Image {
    (px: int, py: int) => if x <= px < x + width && y <= py < y + height then color else image(px, py)
  }

  /** Paints the first `count` rows of one repeated sixel. */
  ghost function PaintSixel(image: Image, x: int, y: int, aspect: nat, bits: bv8, repeat: nat,
                            color: Color, count: nat): Image
    requires count <= SIXEL_ROWS
  {
    if count == 0 then image
    else
      var above := PaintSixel(image, x, y, aspect, bits, repeat, color, count - 1);
      if BitSet(bits, count - 1)
      then PaintRect(above, x, y + RowsBefore(count - 1, aspect), repeat, aspect, color)
      else above
  }

  lemma {:induction false} PaintSixelAt(image: Image, x: int, y: int, aspect: nat, bits: bv8, repeat: nat,
                                        color: Color, count: nat, px: int, py: int)
    requires count <= SIXEL_ROWS && 1 <= aspect
    ensures PaintSixel(image, x, y, aspect, bits, repeat, color, count)(px, py) ==
            if x <= px < x + repeat && y <= py < y + RowsBefore(count, aspect) && BitSet(bits, BandIndex(py - y, aspect))
            then color else image(px, py)
  {
    hide BitSet;
    if count > 0 {
      PaintSixelAt(image, x, y, aspect, bits, repeat, color, count - 1, px, py);
      if y <= py < y + 6 * aspect {
        BandIndexBounds(py - y, aspect);
      }
    }
  }

  datatype Painter = Painter(lang: Language, x: nat, y: nat, width: nat, height: nat, image: Image) {
    ghost predicate Valid() {
      lang.Valid()
    }

    /** Whether the picture has outgrown a cap of `limit` pixels. */
    ghost predicate Exceeds(limit: nat) {
      Area(width, height) > limit
    }
  }

  ghost function Start(lang: Language): Painter {
    Painter(lang, 0, 0, 0, 0, Blank())
  }

  /** Completes the pending command; a filled raster counts as part of the image. */
  ghost function FinishPending(p: Painter): Painter
    requires p.Valid()
  {
    var lang := FinishCommand(p.lang);
    if DeclaresRaster(p.lang) && lang.backgroundFill then
      p.(lang := lang, width := Max(p.width, lang.declaredWidth), height := Max(p.height, lang.declaredHeight))
    else
      p.(lang := lang)
  }

  ghost function Draw(p: Painter, bits: bv8, repeat: nat): Painter
    requires p.Valid()
  {
    var locked := p.(lang := p.lang.(locked := true));
    var drawn :=
      if bits == 0 then locked
      else locked.(
        width := Max(p.width, p.x + repeat),
        height := Max(p.height, p.y + RowsBefore(BitWidth(bits), p.lang.aspect)),
        image := PaintSixel(p.image, p.x, p.y, p.lang.aspect, bits, repeat,
                            p.lang.registers[p.lang.selected], SIXEL_ROWS));
    drawn.(x := p.x + repeat)
  }

  ghost function NextLine(p: Painter): Painter {
    p.(lang := p.lang.(locked := true), x := 0, y := p.y + 6 * p.lang.aspect)
  }

  /** The effect of a byte once no command is pending. */
  ghost function Perform(p: Painter, byte: int, repeat: nat): Painter
    requires p.Valid()
  {
    if IsDataByte(byte) then Draw(p, SixelBits(byte), repeat)
    else if byte == 0x24 then p.(x := 0)
    else if byte == 0x2d then NextLine(p)
    else p.(lang := StartedBy(p.lang, byte))
  }

  ghost function PaintByte(p: Painter, byte: int): (r: Painter)
    requires p.Valid()
    ensures r.Valid()
  {
    LanguageStaysValid(p.lang, byte);
    LanguageStaysValid(FinishCommand(p.lang), byte);
    if p.lang.command != NoCommand && IsParameterByte(byte) then
      p.(lang := CollectParameterByte(p.lang, byte))
    else
      Perform(FinishPending(p), byte, RepeatCount(p.lang))
  }

  ghost function PaintAll(p: Painter, bytes: seq<int>): (r: Painter)
    requires p.Valid()
    ensures r.Valid()
    decreases |bytes|
  {
    if bytes == [] then p else PaintByte(PaintAll(p, bytes[..|bytes| - 1]), bytes[|bytes| - 1])
  }

  /** What the finished image shows: register 0 under the pixels never painted,
      unless the image is transparent. */
  ghost function Published(p: Painter, px: int, py: int): Color
    requires p.Valid()
  {
    var color := p.image(px, py);
    if color == 0 && p.lang.backgroundFill then p.lang.registers[0] else color
  }

  // ---- What the painter keeps about the band it is in -----------------------

  ghost predicate PaintedInside(p: Painter) {
    forall px: int, py: int | p.image(px, py) != 0 ::
      0 <= px < p.width && 0 <= py < p.height && py < p.y + 6 * p.lang.aspect
  }

  /** In the current band only the sixel rows in `rows` left of `width` are painted. */
  ghost predicate OnlyRows(p: Painter, rows: set<nat>, width: int) {
    forall px: int, py: int | p.y <= py < p.y + 6 * p.lang.aspect && p.image(px, py) != 0 ::
      px < width && BandIndex(py - p.y, p.lang.aspect) in rows
  }

  /** The device row in which the sixel row holding row `py` of the band starts. */
  ghost function FirstRow(p: Painter, py: int): int {
    p.y + RowsBefore(BandIndex(py - p.y, p.lang.aspect), p.lang.aspect)
  }

  /** Every device row of the current band repeats the first row of its sixel row. */
  ghost predicate RowsRepeat(p: Painter) {
    forall px: int, py: int | p.y <= py < p.y + 6 * p.lang.aspect ::
      p.image(px, py) == p.image(px, FirstRow(p, py))
  }

  ghost predicate BandInside(p: Painter, rows: set<nat>, width: int) {
    && 0 <= width <= p.width
    && (rows != {} ==> 1 <= width)
    && forall row: nat | row in rows ::
         row < SIXEL_ROWS && p.y + RowsBefore(row + 1, p.lang.aspect) <= p.height
  }

  ghost predicate UntouchedUntilLocked(p: Painter, rows: set<nat>, width: int) {
    !p.lang.locked ==>
      && p.x == 0 && p.y == 0 && rows == {} && width == 0
      && forall px: int, py: int :: p.image(px, py) == 0
  }

  ghost predicate BandShape(p: Painter, rows: set<nat>, width: int) {
    && PaintedInside(p)
    && OnlyRows(p, rows, width)
    && RowsRepeat(p)
    && BandInside(p, rows, width)
    && UntouchedUntilLocked(p, rows, width)
  }

  /** The sixel rows a data byte's bits set. */
  ghost function RowsOf(bits: bv8): set<nat> {
    set row: nat | row < SIXEL_ROWS && BitSet(bits, row)
  }

  lemma {:induction false} RowsOfUnion(a: bv8, b: bv8)
    ensures RowsOf(a | b) == RowsOf(a) + RowsOf(b)
    ensures RowsOf(0) == {}
  {
    UnionOfBits(a, b);
  }

  lemma {:induction false} RowsBelowWidth(bits: bv8, row: nat)
    requires row in RowsOf(bits)
    ensures row < BitWidth(bits) <= SIXEL_ROWS
  {
  }

  /** Pixel by pixel, what one drawn sixel changes. */
  ghost predicate Stamped(p: Painter, q: Painter, rows: set<nat>, repeat: nat, color: Color) {
    forall px: int, py: int ::
      q.image(px, py) ==
        if p.x <= px < p.x + repeat && p.y <= py < p.y + 6 * p.lang.aspect && BandIndex(py - p.y, p.lang.aspect) in rows
        then color else p.image(px, py)
  }

  lemma {:induction false} DrawStamps(p: Painter, bits: bv8, repeat: nat)
    requires p.Valid() && bits != 0
    ensures Stamped(p, Draw(p, bits, repeat), RowsOf(bits), repeat, p.lang.registers[p.lang.selected])
  {
    var q := Draw(p, bits, repeat);
    var color := p.lang.registers[p.lang.selected];
    forall px: int, py: int
      ensures q.image(px, py) ==
        if p.x <= px < p.x + repeat && p.y <= py < p.y + 6 * p.lang.aspect &&
           BandIndex(py - p.y, p.lang.aspect) in RowsOf(bits)
        then color else p.image(px, py)
    {
      PaintSixelAt(p.image, p.x, p.y, p.lang.aspect, bits, repeat, color, SIXEL_ROWS, px, py);
    }
  }

  lemma {:induction false} StampKeepsInside(p: Painter, q: Painter, stamped: set<nat>, repeat: nat, color: Color)
    requires p.Valid() && q.lang.aspect == p.lang.aspect && q.y == p.y
    requires PaintedInside(p) && Stamped(p, q, stamped, repeat, color)
    requires p.x + repeat <= q.width && p.width <= q.width && p.height <= q.height
    requires forall row: nat | row in stamped :: row < SIXEL_ROWS && p.y + RowsBefore(row + 1, p.lang.aspect) <= q.height
    ensures PaintedInside(q)
  {
    forall px: int, py: int | q.image(px, py) != 0
      ensures 0 <= px < q.width && 0 <= py < q.height && py < q.y + 6 * q.lang.aspect
    {
      if p.y <= py < p.y + 6 * p.lang.aspect {
        BandIndexBounds(py - p.y, p.lang.aspect);
      }
    }
  }

  lemma {:induction false} StampKeepsRows(p: Painter, q: Painter, rows: set<nat>, width: int, stamped: set<nat>,
        repeat: nat, color: Color)
    requires p.Valid() && q.lang.aspect == p.lang.aspect && q.y == p.y
    requires OnlyRows(p, rows, width) && RowsRepeat(p) && Stamped(p, q, stamped, repeat, color)
    ensures OnlyRows(q, rows + stamped, Max(width, p.x + repeat))
    ensures RowsRepeat(q)
  {
    forall px: int, py: int | q.y <= py < q.y + 6 * q.lang.aspect
      ensures q.image(px, py) == q.image(px, FirstRow(q, py))
    {
      BandIndexBounds(py - p.y, p.lang.aspect);
      FirstRowIndex(BandIndex(py - p.y, p.lang.aspect), p.lang.aspect);
      assert p.image(px, py) == p.image(px, FirstRow(p, py));
    }
  }

  lemma {:induction false} DrawKeepsBandShape(p: Painter, rows: set<nat>, width: int, bits: bv8, repeat: nat)
    requires p.Valid() && BandShape(p, rows, width) && 1 <= repeat && bits != 0
    ensures BandShape(Draw(p, bits, repeat), rows + RowsOf(bits), Max(width, p.x + repeat))
  {
    var q := Draw(p, bits, repeat);
    var color := p.lang.registers[p.lang.selected];
    forall row: nat | row in RowsOf(bits)
      ensures p.y + RowsBefore(row + 1, p.lang.aspect) <= q.height
    {
      RowsBelowWidth(bits, row);
      RowsBeforeMonotone(row + 1, BitWidth(bits), p.lang.aspect);
    }
    DrawStamps(p, bits, repeat);
    StampKeepsInside(p, q, RowsOf(bits), repeat, color);
    StampKeepsRows(p, q, rows, width, RowsOf(bits), repeat, color);
  }

  lemma {:induction false} RowsBeforeMonotone(a: nat, b: nat, aspect: nat)
    requires a <= b <= SIXEL_ROWS
    ensures RowsBefore(a, aspect) <= RowsBefore(b, aspect)
  {
  }

  lemma {:induction false} NextLineKeepsBandShape(p: Painter, rows: set<nat>, width: int)
    requires p.Valid() && BandShape(p, rows, width)
    ensures BandShape(NextLine(p), {}, 0)
  {
  }

  lemma {:induction false} FinishPendingKeepsBandShape(p: Painter, rows: set<nat>, width: int)
    requires p.Valid() && BandShape(p, rows, width)
    ensures FinishPending(p).Valid()
    ensures BandShape(FinishPending(p), rows, width)
  {
    LanguageStaysValid(p.lang, 0);
    var q := FinishPending(p);
    if !p.lang.locked {
      forall px: int, py: int
        ensures q.image(px, py) == 0
      {
      }
      assert RowsRepeat(q);
    } else {
      SameRowsRepeat(p, q);
    }
  }

  lemma {:induction false} SameRowsRepeat(p: Painter, q: Painter)
    requires RowsRepeat(p)
    requires q.image == p.image && q.y == p.y && q.lang.aspect == p.lang.aspect
    ensures RowsRepeat(q)
  {
    forall px: int, py: int | q.y <= py < q.y + 6 * q.lang.aspect
      ensures q.image(px, py) == q.image(px, FirstRow(q, py))
    {
      assert FirstRow(q, py) == FirstRow(p, py);
      assert p.image(px, py) == p.image(px, FirstRow(p, py));
    }
  }

  lemma {:induction false} EmptySixelKeepsBandShape(p: Painter, rows: set<nat>, width: int, repeat: nat)
    requires p.Valid() && BandShape(p, rows, width)
    ensures BandShape(Draw(p, 0, repeat), rows, width)
  {
    SameRowsRepeat(p, Draw(p, 0, repeat));
  }

  lemma {:induction false} ReturnKeepsBandShape(p: Painter, lang: Language, x: nat, rows: set<nat>, width: int)
    requires p.Valid() && BandShape(p, rows, width)
    requires lang.aspect == p.lang.aspect && lang.locked == p.lang.locked && (lang.locked || x == 0)
    ensures BandShape(p.(lang := lang, x := x), rows, width)
  {
    SameRowsRepeat(p, p.(lang := lang, x := x));
  }
}
