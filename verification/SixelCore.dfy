/** The decoder's own state, apart from the pixels: saturating cursor and
    extents, the deferred band, the capacity policy under the byte cap, and the
    limit flags. The class SixelDecoder.Decoder is proved against these
    functions; SixelRefinement relates them to the reference painter. */
module SixelCore {
  import opened SixelLanguage

  const GEOMETRY_LIMIT := 0x7fff_ffff
  const BYTES_PER_PIXEL := 4

  datatype Core = Core(
    lang: Language,
    x: nat,
    y: nat,
    extentWidth: nat,
    extentHeight: nat,
    bandWidth: nat,
    bandDrawnBits: bv8,
    capacityWidth: nat,
    capacityHeight: nat,
    reservations: nat,
    reservedPixels: nat,
    previousWidth: nat,
    previousHeight: nat,
    previousStable: bool,
    exceededBytes: nat,
    limitExceeded: bool,
    limitReported: bool,
    active: bool)

  /** A decoder that has not seen an image yet. */
  function IdleState(): Core {
    Core(FreshLanguage(), 0, 0, 0, 0, 0, 0, 0, 0, 0, 0, 0, 0, false, 0, false, false, false)
  }

  function LimitPixels(limitBytes: nat): nat { limitBytes / BYTES_PER_PIXEL }

  /** Cursor and extents stop at the geometry limit, however far data moves them. */
  function Advanced(position: nat, distance: nat): nat {
    Min(position + distance, GEOMETRY_LIMIT)
  }

  // ---- Capacity policy ------------------------------------------------------

  lemma {:induction false} DivideBounds(a: nat, b: nat, q: nat)
    requires 0 < b
    ensures Quotient(a, b) * b <= a
    ensures q * b <= a <==> q <= Quotient(a, b)
  {
    var d := a / b;
    assert a == d * b + a % b;
    if q <= d {
      ProductMonotone(q, d, b);
    } else {
      ProductMonotone(d + 1, q, b);
    }
  }

  function Quotient(a: nat, b: nat): nat
    requires 0 < b
  {
    a / b
  }

  /** A side that does not hold the request at least doubles. */
  function GrownSide(request: nat, capacity: nat): nat {
    if request > capacity then Max(request, capacity * 2) else capacity
  }

  /** The capacity the geometric policy asks for, near the cap narrowed so that
      it still covers the request. */
  function GeometricCapacity(c: Core, width: nat, height: nat, limit: nat): (nat, nat)
    requires 0 < width && 0 < height && Area(width, height) <= limit
  {
    hide SlackWidth, Quotient, GrownSide;
    var w, h := GrownSide(width, c.capacityWidth), GrownSide(height, c.capacityHeight);
    if w * h <= limit then (w, h)
    else if height <= c.capacityHeight && c.capacityHeight * width <= limit then
      (Quotient(limit, c.capacityHeight), h)
    else if width <= c.capacityWidth && c.capacityWidth * height <= limit then
      (w, Quotient(limit, c.capacityWidth))
    else
      var narrowed := SlackWidth(width, height, limit);
      (narrowed, Quotient(limit, narrowed))
  }

  /** The request's width and half of the slack the cap leaves beside it. */
  function SlackWidth(width: nat, height: nat, limit: nat): (r: nat)
    requires 0 < width && 0 < height && Area(width, height) <= limit
    ensures width <= r <= Quotient(limit, height)
  {
    DivideBounds(limit, height, width);
    width + (Quotient(limit, height) - width) / 2
  }

  predicate HintUsable(c: Core) {
    && c.capacityWidth > 0 && c.capacityHeight > 0
    && c.previousStable && c.lang.declaredWidth == 0 && c.lang.declaredHeight == 0
    && c.previousWidth > 0 && c.previousHeight > 0
  }

  /** The geometric capacity, widened to the previous image's when that costs at
      most the same number of pixels again. */
  function ReservedCapacity(c: Core, width: nat, height: nat, limit: nat): (nat, nat)
    requires 0 < width && 0 < height && Area(width, height) <= limit
  {
    hide GeometricCapacity;
    WithHint(c, GeometricCapacity(c, width, height, limit), limit)
  }

  function WithHint(c: Core, normal: (nat, nat), limit: nat): (nat, nat) {
    var hinted := (Max(normal.0, c.previousWidth), Max(normal.1, c.previousHeight));
    if && HintUsable(c)
       && (hinted.0 > normal.0 || hinted.1 > normal.1)
       && hinted.1 > 0 && hinted.0 <= Quotient(limit, hinted.1)
       && Area(hinted.0, hinted.1) - Area(normal.0, normal.1) <= Area(normal.0, normal.1)
    then hinted
    else normal
  }

  predicate Fits(c: Core, width: nat, height: nat) {
    width == 0 || height == 0 || (width <= c.capacityWidth && height <= c.capacityHeight)
  }

  function Reserve(c: Core, width: nat, height: nat, limit: nat): (r: Core)
    requires Area(width, height) <= limit
    ensures r.lang == c.lang && r.x == c.x && r.y == c.y
    ensures Continues(c, r)
  {
    hide ReservedCapacity;
    if Fits(c, width, height) then c
    else
      var (w, h) := ReservedCapacity(c, width, height, limit);
      c.(capacityWidth := w, capacityHeight := h,
         reservations := c.reservations + 1, reservedPixels := c.reservedPixels + Area(w, h))
  }

  lemma {:induction false} GeometricCapacityFits(c: Core, width: nat, height: nat, limit: nat)
    requires 0 < width && 0 < height && Area(width, height) <= limit
    requires Area(c.capacityWidth, c.capacityHeight) <= limit
    ensures var (w, h) := GeometricCapacity(c, width, height, limit);
            width <= w && height <= h && w * h <= limit
  {
    var w, h := GrownSide(width, c.capacityWidth), GrownSide(height, c.capacityHeight);
    hide Quotient, SlackWidth;
    if w * h <= limit {
    } else if height <= c.capacityHeight && c.capacityHeight * width <= limit {
      QuotientCovers(limit, c.capacityHeight, width);
    } else if width <= c.capacityWidth && c.capacityWidth * height <= limit {
      QuotientCovers(limit, c.capacityWidth, height);
    } else {
      SlackSplit(width, height, limit);
    }
  }

  lemma {:induction false} QuotientCovers(limit: nat, side: nat, request: nat)
    requires 0 < side && side * request <= limit
    ensures request <= Quotient(limit, side)
    ensures side * Quotient(limit, side) <= limit && Quotient(limit, side) * side <= limit
  {
    assert request * side == side * request;
    DivideBounds(limit, side, request);
  }

  /** Splitting the slack around a request leaves both dimensions covering it. */
  lemma {:induction false} SlackSplit(width: nat, height: nat, limit: nat)
    requires 0 < width && 0 < height && Area(width, height) <= limit
    ensures var narrowed := SlackWidth(width, height, limit);
            && width <= narrowed
            && height <= Quotient(limit, narrowed) && narrowed * Quotient(limit, narrowed) <= limit
  {
    DivideBounds(limit, height, width);
    var narrowed := SlackWidth(width, height, limit);
    ProductMonotone(narrowed, Quotient(limit, height), height);
    QuotientCovers(limit, narrowed, height);
  }

  /** Every reservation covers the request within the cap; a hint adds at most
      one further doubling of what the geometric policy would have reserved. */
  lemma {:induction false} ReservationFits(c: Core, width: nat, height: nat, limit: nat)
    requires 0 < width && 0 < height && Area(width, height) <= limit
    requires Area(c.capacityWidth, c.capacityHeight) <= limit
    ensures var (w, h) := ReservedCapacity(c, width, height, limit);
            var (gw, gh) := GeometricCapacity(c, width, height, limit);
            && width <= w && height <= h && w * h <= limit
            && gw <= w && gh <= h && w * h <= 2 * (gw * gh)
  {
    GeometricCapacityFits(c, width, height, limit);
    hide GeometricCapacity;
    HintFits(c, GeometricCapacity(c, width, height, limit), limit);
  }

  /** Growth at least doubles the area while the cap allows it, and else takes all the cap
      leaves beside one of the sides. */
  lemma {:induction false} GrowthDoubles(c: Core, width: nat, height: nat, limit: nat)
    requires 0 < width && 0 < height && Area(width, height) <= limit && !Fits(c, width, height)
    ensures var (w, h) := GeometricCapacity(c, width, height, limit);
            var wide, high := c.capacityWidth, c.capacityHeight;
            var nextWide := if width <= wide then wide else if width >= 2 * wide then width else 2 * wide;
            var nextHigh := if height <= high then high else if height >= 2 * high then height else 2 * high;
            if nextWide * nextHigh <= limit then w == nextWide && h == nextHigh && 2 * (wide * high) <= w * h
            else limit < (w + 1) * h || limit < w * (h + 1)
  {
    hide Quotient, SlackWidth;
    var w, h := GrownSide(width, c.capacityWidth), GrownSide(height, c.capacityHeight);
    if w * h <= limit {
      DoubledSide(c.capacityWidth, c.capacityHeight, w, h, width > c.capacityWidth);
    } else if height <= c.capacityHeight && c.capacityHeight * width <= limit {
      DivideBounds(limit, c.capacityHeight, Quotient(limit, c.capacityHeight) + 1);
    } else if width <= c.capacityWidth && c.capacityWidth * height <= limit {
      TakesTheRest(limit, c.capacityWidth);
    } else {
      TakesTheRest(limit, SlackWidth(width, height, limit));
    }
  }

  lemma {:induction false} TakesTheRest(limit: nat, side: nat)
    requires 0 < side
    ensures limit < side * (Quotient(limit, side) + 1)
  {
    DivideBounds(limit, side, Quotient(limit, side) + 1);
    assert side * (Quotient(limit, side) + 1) == (Quotient(limit, side) + 1) * side;
  }

  lemma {:induction false} DoubledSide(a: nat, b: nat, w: nat, h: nat, wider: bool)
    requires a <= w && b <= h && if wider then 2 * a <= w else 2 * b <= h
    ensures 2 * (a * b) <= w * h
  {
    if wider {
      ProductMonotone(2 * a, w, b);
      ProductMonotone(b, h, w);
      assert b * w == w * b && h * w == w * h && 2 * a * b == 2 * (a * b);
    } else {
      ProductMonotone(2 * b, h, a);
      ProductMonotone(a, w, h);
      assert 2 * b * a == 2 * (a * b) && h * a == a * h;
    }
  }

  /** The slack is halved: what is left beside the width is what it took, or one column more. */
  lemma {:induction false} SlackIsHalved(width: nat, height: nat, limit: nat)
    requires 0 < width && 0 < height && Area(width, height) <= limit
    ensures var w, most := SlackWidth(width, height, limit), limit / height;
            0 <= (most - w) - (w - width) <= 1
  {
    DivideBounds(limit, height, width);
  }

  /** The hint is taken from an image that was published, the second of two whose areas differ by
      at most a tenth, the later one not larger. */
  lemma {:induction false} HintIsOfStableSizes(c: Core)
    ensures var published, h := !c.limitExceeded && 0 < c.extentWidth && 0 < c.extentHeight, WithHistory(c);
            && (h.previousWidth, h.previousHeight) == (if published then (c.extentWidth, c.extentHeight) else (0, 0))
            && (h.previousStable <==>
                  var before, now := Area(c.previousWidth, c.previousHeight), Area(c.extentWidth, c.extentHeight);
                  published && 0 < before && now <= before && 9 * before <= 10 * now)
  {
  }

  lemma {:induction false} HintFits(c: Core, normal: (nat, nat), limit: nat)
    requires normal.0 * normal.1 <= limit
    ensures var r := WithHint(c, normal, limit);
            && normal.0 <= r.0 && normal.1 <= r.1 && r.0 * r.1 <= limit
            && r.0 * r.1 <= 2 * (normal.0 * normal.1)
  {
    var w, h := Max(normal.0, c.previousWidth), Max(normal.1, c.previousHeight);
    if h > 0 {
      DivideBounds(limit, h, w);
    }
  }

  /** An exceeded limit stays exceeded and keeps the size that exceeded it, only
      reporting marks it reported, and the reservation ledger only grows. */
  predicate Continues(c: Core, r: Core) {
    && (c.limitExceeded ==> r.limitExceeded && r.exceededBytes == c.exceededBytes)
    && r.limitReported == c.limitReported
    && r.reservations >= c.reservations && r.reservedPixels >= c.reservedPixels
    && r.active == c.active
  }

  // ---- The steps of the decoder ----------------------------------------------

  function Release(c: Core): Core {
    c.(capacityWidth := 0, capacityHeight := 0, bandWidth := 0, bandDrawnBits := 0)
  }

  function GrowExtentWithinLimit(c: Core, limit: nat): (r: Core)
    ensures r.lang == c.lang && r.x == c.x && r.y == c.y
    ensures Continues(c, r)
  {
    if c.limitExceeded then c
    else if Area(c.extentWidth, c.extentHeight) <= limit then Reserve(c, c.extentWidth, c.extentHeight, limit)
    else Release(c.(limitExceeded := true, exceededBytes := Area(c.extentWidth, c.extentHeight) * BYTES_PER_PIXEL))
  }

  function ApplyRasterAttributes(c: Core, limit: nat): (r: Core)
    ensures r.lang == c.lang && Continues(c, r)
  {
    if c.lang.backgroundFill then
      GrowExtentWithinLimit(
        c.(extentWidth := Max(c.extentWidth, c.lang.declaredWidth),
           extentHeight := Max(c.extentHeight, c.lang.declaredHeight)), limit)
    else if Area(c.lang.declaredWidth, c.lang.declaredHeight) <= limit then
      Reserve(c, c.lang.declaredWidth, c.lang.declaredHeight, limit)
    else c
  }

  function FinishPendingCommand(c: Core, limit: nat): (r: Core)
    requires c.lang.Valid()
    ensures r.lang == FinishCommand(c.lang) && Continues(c, r)
  {
    var finished := c.(lang := FinishCommand(c.lang));
    if DeclaresRaster(c.lang) then ApplyRasterAttributes(finished, limit) else finished
  }

  /** The decoder with the extents of a sixel it is about to draw. */
  function Widened(c: Core, bits: bv8, repeat: nat): (r: Core)
    ensures r.lang == c.lang.(locked := true) && r.x == c.x && r.y == c.y
    ensures Continues(c, r)
  {
    c.(lang := c.lang.(locked := true),
       extentWidth := Max(c.extentWidth, Advanced(c.x, repeat)),
       extentHeight := Max(c.extentHeight, Advanced(c.y, RowsBefore(BitWidth(bits), c.lang.aspect))))
  }

  /** Notes what the current band has drawn, unless the image is over the cap. */
  function MarkBand(c: Core, width: nat, bits: bv8): (r: Core)
    ensures r.lang == c.lang && r.x == c.x && r.y == c.y
    ensures Continues(c, r)
  {
    if c.limitExceeded then c
    else c.(bandWidth := Max(c.bandWidth, width), bandDrawnBits := c.bandDrawnBits | bits)
  }

  function DrawSixel(c: Core, bits: bv8, repeat: nat, limit: nat): (r: Core)
    requires c.lang.Valid()
    ensures r.lang == c.lang.(locked := true) && Continues(c, r)
  {
    hide GrowExtentWithinLimit;
    var drawn :=
      if bits == 0 then c.(lang := c.lang.(locked := true))
      else MarkBand(GrowExtentWithinLimit(Widened(c, bits, repeat), limit), c.x + repeat, bits);
    drawn.(x := Advanced(c.x, repeat))
  }

  function CloseBand(c: Core): Core {
    c.(bandWidth := 0, bandDrawnBits := 0)
  }

  function GraphicsNewLine(c: Core): Core {
    CloseBand(c).(lang := c.lang.(locked := true), x := 0, y := Advanced(c.y, 6 * c.lang.aspect))
  }

  function PerformByte(c: Core, byte: int, repeat: nat, limit: nat): (r: Core)
    requires c.lang.Valid()
    ensures Continues(c, r) && r.lang.Valid()
  {
    hide DrawSixel, StartedBy, Advanced, SixelBits;
    LanguageStaysValid(c.lang, byte);
    if IsDataByte(byte) then DrawSixel(c, SixelBits(byte), repeat, limit)
    else if byte == 0x24 then c.(x := 0)
    else if byte == 0x2d then GraphicsNewLine(c)
    else c.(lang := StartedBy(c.lang, byte))
  }

  function DecodeByte(c: Core, byte: int, limit: nat): (r: Core)
    requires c.lang.Valid()
    ensures r.lang.Valid() && Continues(c, r)
  {
    hide FinishPendingCommand, PerformByte, CollectParameterByte, FinishCommand, Language.Valid;
    LanguageStaysValid(c.lang, byte);
    if c.lang.command != NoCommand && IsParameterByte(byte) then
      c.(lang := CollectParameterByte(c.lang, byte))
    else
      PerformByte(FinishPendingCommand(c, limit), byte, RepeatCount(c.lang), limit)
  }

  function DecodeAll(c: Core, bytes: seq<int>, limit: nat): (r: Core)
    requires c.lang.Valid()
    ensures r.lang.Valid() && Continues(c, r)
    decreases |bytes|
  {
    if bytes == [] then c else DecodeByte(DecodeAll(c, bytes[..|bytes| - 1], limit), bytes[|bytes| - 1], limit)
  }

  // ---- What an exceeded limit reports ------------------------------------------

  /** The size reported is more than the cap. */
  predicate ReportsMore(c: Core, limit: nat) {
    c.limitExceeded ==> c.exceededBytes >= 4 * (limit + 1)
  }

  lemma {:induction false} GrowReportsMore(c: Core, limit: nat)
    requires ReportsMore(c, limit)
    ensures ReportsMore(GrowExtentWithinLimit(c, limit), limit)
  {
    hide Area, Reserve;
    if !c.limitExceeded && Area(c.extentWidth, c.extentHeight) <= limit {
      ReserveKeepsLimit(c, limit);
    }
  }

  lemma {:induction false} ReserveKeepsLimit(c: Core, limit: nat)
    requires Area(c.extentWidth, c.extentHeight) <= limit
    ensures Reserve(c, c.extentWidth, c.extentHeight, limit).limitExceeded == c.limitExceeded
  {
    hide ReservedCapacity, Area;
  }

  lemma {:induction false} CommandReportsMore(c: Core, limit: nat)
    requires c.lang.Valid() && ReportsMore(c, limit)
    ensures ReportsMore(FinishPendingCommand(c, limit), limit)
  {
    hide GrowExtentWithinLimit, ReservedCapacity, Area, FinishCommand;
    var f := c.(lang := FinishCommand(c.lang));
    GrowReportsMore(f.(extentWidth := Max(f.extentWidth, f.lang.declaredWidth),
                       extentHeight := Max(f.extentHeight, f.lang.declaredHeight)), limit);
  }

  lemma {:induction false} ByteReportsMore(c: Core, byte: int, limit: nat)
    requires c.lang.Valid() && ReportsMore(c, limit)
    ensures ReportsMore(DecodeByte(c, byte, limit), limit)
  {
    hide FinishPendingCommand, GrowExtentWithinLimit, CollectParameterByte, Widened, SixelBits, Continues;
    CommandReportsMore(c, limit);
    var f := FinishPendingCommand(c, limit);
    if IsDataByte(byte) {
      WidenedKeepsLimit(f, SixelBits(byte), RepeatCount(c.lang));
      GrowReportsMore(Widened(f, SixelBits(byte), RepeatCount(c.lang)), limit);
    }
  }

  lemma {:induction false} WidenedKeepsLimit(c: Core, bits: bv8, repeat: nat)
    ensures Widened(c, bits, repeat).limitExceeded == c.limitExceeded && Widened(c, bits, repeat).exceededBytes == c.exceededBytes
  {
  }

  lemma {:induction false} DataReportsMore(c: Core, bytes: seq<int>, limit: nat)
    requires c.lang.Valid() && ReportsMore(c, limit)
    ensures ReportsMore(DecodeAll(c, bytes, limit), limit)
    decreases |bytes|
  {
    hide DecodeByte, ReportsMore;
    if bytes != [] {
      DataReportsMore(c, bytes[..|bytes| - 1], limit);
      ByteReportsMore(DecodeAll(c, bytes[..|bytes| - 1], limit), bytes[|bytes| - 1], limit);
    }
  }

  // ---- Work, in pixels written or copied -------------------------------------

  /** How many pixels drawing a sixel under the cap writes. */
  function SixelWrites(bits: bv8, repeat: nat): nat {
    repeat * PopCount(bits)
  }

  /** What drawing the sixel `bits` is charged while `lang` is pending. */
  function DrawCost(lang: Language, bits: bv8): nat
    requires lang.Valid()
  {
    if bits == 0 then 1 else SixelWrites(bits, RepeatCount(lang))
  }

  function BandExpansionCost(c: Core): nat
    requires c.lang.Valid()
  {
    if c.lang.aspect <= 1 then 0
    else c.bandWidth * PopCount(c.bandDrawnBits) * (c.lang.aspect - 1)
  }

  /** What a byte is charged besides the reservations it causes. */
  function ByteWork(c: Core, byte: int): nat
    requires c.lang.Valid()
  {
    if c.lang.command != NoCommand && IsParameterByte(byte) then 0
    else if IsDataByte(byte) then DrawCost(c.lang, SixelBits(byte))
    else if byte == 0x2d then BandExpansionCost(c)
    else 0
  }

  /** All a byte is charged. */
  function Charge(c: Core, byte: int, limit: nat): nat
    requires c.lang.Valid()
  {
    ByteWork(c, byte) + (DecodeByte(c, byte, limit).reservedPixels - c.reservedPixels)
  }

  function FinishCost(c: Core): nat
    requires c.lang.Valid()
  {
    BandExpansionCost(c) +
    if c.lang.backgroundFill && !c.limitExceeded then Area(c.extentWidth, c.extentHeight) else 0
  }

  // ---- The ends of an image --------------------------------------------------

  function BeginImage(c: Core, header: seq<int>): Core {
    c.(lang := BeginLanguage(header), x := 0, y := 0, extentWidth := 0, extentHeight := 0,
       exceededBytes := 0, limitExceeded := false, limitReported := false, active := true)
  }

  /** Marks an exceeded limit as reported. */
  function Reported(c: Core): Core {
    c.(limitReported := c.limitReported || c.limitExceeded)
  }

  predicate CompletesRaster(c: Core) {
    !c.limitExceeded && c.extentWidth > 0 && c.extentHeight > 0
  }

  /** Remembers the finished image's extents as a capacity hint for the next. */
  function WithHistory(c: Core): Core {
    var previous, completed := Area(c.previousWidth, c.previousHeight), Area(c.extentWidth, c.extentHeight);
    c.(previousStable := CompletesRaster(c) && previous > 0 && completed <= previous && completed >= previous - previous / 10,
       previousWidth := if CompletesRaster(c) then c.extentWidth else 0,
       previousHeight := if CompletesRaster(c) then c.extentHeight else 0)
  }

  function FinishImage(c: Core, limit: nat): Core
    requires c.lang.Valid()
  {
    Release(WithHistory(Reported(CloseBand(GrowExtentWithinLimit(FinishPendingCommand(c, limit), limit))))).(active := false)
  }

  function AbortImage(c: Core): Core {
    Release(c.(previousWidth := 0, previousHeight := 0, previousStable := false)).(active := false)
  }
}
