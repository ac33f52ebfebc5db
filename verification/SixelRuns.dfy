/** Whole images: how the data is cut into chunks, and where budgets stop it,
    leaves no trace, and the published raster is the naive painter's. */
module SixelRuns {
  import opened SixelLanguage
  import opened SixelPainter
  import opened SixelCore
  import opened SixelRefinement
  import opened SixelBudget
  import opened SixelDecoder
  import opened SixelColours
  import opened SixelReading
  import opened RasterIndex
  import Manual = SixelManual

  function Flatten(chunks: seq<seq<int>>): seq<int> {
    if chunks == [] then [] else Flatten(chunks[..|chunks| - 1]) + chunks[|chunks| - 1]
  }

  lemma {:induction false} DecodeAllConcat(c: Core, a: seq<int>, b: seq<int>, limit: nat)
    requires c.lang.Valid()
    ensures DecodeAll(DecodeAll(c, a, limit), b, limit) == DecodeAll(c, a + b, limit)
    decreases |b|
  {
    if b == [] {
      assert a + b == a;
    } else {
      var front := b[..|b| - 1];
      DecodeAllConcat(c, a, front, limit);
      assert (a + b)[..|a + b| - 1] == a + front;
      hide DecodeByte;
    }
  }

  // ---- The reported flag is the only trace of a chunk boundary ---------------

  function Marked(c: Core, reported: bool): Core { c.(limitReported := reported) }

  lemma {:induction false} GrowIgnoresReported(c: Core, reported: bool, limit: nat)
    ensures GrowExtentWithinLimit(Marked(c, reported), limit) == Marked(GrowExtentWithinLimit(c, limit), reported)
  {
    hide GeometricCapacity, Area;
    if !c.limitExceeded && Area(c.extentWidth, c.extentHeight) <= limit {
      ReserveIgnoresReported(c, reported, c.extentWidth, c.extentHeight, limit);
    }
  }

  lemma {:induction false} ReserveIgnoresReported(c: Core, reported: bool, width: nat, height: nat, limit: nat)
    requires Area(width, height) <= limit
    ensures Reserve(Marked(c, reported), width, height, limit) == Marked(Reserve(c, width, height, limit), reported)
  {
    hide Area, Quotient, SlackWidth, GrownSide;
    if !Fits(c, width, height) {
      assert GeometricCapacity(Marked(c, reported), width, height, limit) == GeometricCapacity(c, width, height, limit);
    }
  }

  lemma {:induction false} CommandIgnoresReported(c: Core, reported: bool, limit: nat)
    requires c.lang.Valid()
    ensures FinishPendingCommand(Marked(c, reported), limit) == Marked(FinishPendingCommand(c, limit), reported)
  {
    hide Area, GrowExtentWithinLimit, Reserve, FinishCommand;
    var f := c.(lang := FinishCommand(c.lang));
    if DeclaresRaster(c.lang) {
      if f.lang.backgroundFill {
        GrowIgnoresReported(
          f.(extentWidth := Max(f.extentWidth, f.lang.declaredWidth),
             extentHeight := Max(f.extentHeight, f.lang.declaredHeight)), reported, limit);
      } else if Area(f.lang.declaredWidth, f.lang.declaredHeight) <= limit {
        ReserveIgnoresReported(f, reported, f.lang.declaredWidth, f.lang.declaredHeight, limit);
      }
    }
  }

  lemma {:induction false} WidenedIgnoresReported(c: Core, reported: bool, bits: bv8, repeat: nat)
    ensures Widened(Marked(c, reported), bits, repeat) == Marked(Widened(c, bits, repeat), reported)
  {
    hide Advanced, RowsBefore, BitWidth;
  }

  lemma {:induction false} BandIgnoresReported(c: Core, reported: bool, width: nat, bits: bv8, x: nat)
    ensures MarkBand(Marked(c, reported), width, bits).(x := x) == Marked(MarkBand(c, width, bits).(x := x), reported)
  {
  }

  lemma {:induction false} DrawIgnoresReported(c: Core, reported: bool, bits: bv8, repeat: nat, limit: nat)
    requires c.lang.Valid()
    ensures DrawSixel(Marked(c, reported), bits, repeat, limit) == Marked(DrawSixel(c, bits, repeat, limit), reported)
  {
    if bits != 0 {
      hide GrowExtentWithinLimit, Widened, MarkBand, Advanced, Continues, Language.Valid;
      WidenedIgnoresReported(c, reported, bits, repeat);
      GrowIgnoresReported(Widened(c, bits, repeat), reported, limit);
      BandIgnoresReported(GrowExtentWithinLimit(Widened(c, bits, repeat), limit), reported, c.x + repeat, bits, Advanced(c.x, repeat));
    }
  }

  lemma {:induction false} PerformIgnoresReported(c: Core, reported: bool, byte: int, repeat: nat, limit: nat)
    requires c.lang.Valid()
    ensures PerformByte(Marked(c, reported), byte, repeat, limit) == Marked(PerformByte(c, byte, repeat, limit), reported)
  {
    hide DrawSixel, SixelBits, StartedBy, Advanced;
    if IsDataByte(byte) {
      DrawIgnoresReported(c, reported, SixelBits(byte), repeat, limit);
    }
  }

  lemma {:induction false} ByteIgnoresReported(c: Core, reported: bool, byte: int, limit: nat)
    requires c.lang.Valid()
    ensures DecodeByte(Marked(c, reported), byte, limit) == Marked(DecodeByte(c, byte, limit), reported)
  {
    hide FinishPendingCommand, PerformByte, CollectParameterByte, FinishCommand;
    LanguageStaysValid(c.lang, byte);
    if c.lang.command == NoCommand || !IsParameterByte(byte) {
      CommandIgnoresReported(c, reported, limit);
      PerformIgnoresReported(FinishPendingCommand(c, limit), reported, byte, RepeatCount(c.lang), limit);
    }
  }

  lemma {:induction false} DataIgnoresReported(c: Core, reported: bool, bytes: seq<int>, limit: nat)
    requires c.lang.Valid()
    ensures DecodeAll(Marked(c, reported), bytes, limit) == Marked(DecodeAll(c, bytes, limit), reported)
    decreases |bytes|
  {
    hide DecodeByte;
    if bytes != [] {
      var front := bytes[..|bytes| - 1];
      DataIgnoresReported(c, reported, front, limit);
      ByteIgnoresReported(DecodeAll(c, front, limit), reported, bytes[|bytes| - 1], limit);
    }
  }

  // ---- Chunk independence ------------------------------------------------------

  /** Feeds the chunks one decode call each; every call may emit the diagnostic. */
  function RunChunks(c: Core, chunks: seq<seq<int>>, limitBytes: nat): (r: (Core, seq<LimitDiagnostic>))
    requires c.lang.Valid()
    ensures r.0.lang.Valid()
  {
    if chunks == [] then (c, [])
    else
      var (before, emitted) := RunChunks(c, chunks[..|chunks| - 1], limitBytes);
      var after := DecodeAll(before, chunks[|chunks| - 1], LimitPixels(limitBytes));
      (Reported(after), emitted + Emitted(after, limitBytes))
  }

  function LimitReports(c: Core, limitBytes: nat): seq<LimitDiagnostic> {
    if c.limitExceeded then [LimitDiagnostic(c.exceededBytes, limitBytes)] else []
  }

  /** The decoder stands after `data`, whatever calls and budgets brought it there. */
  ghost predicate Progress(begun: Core, state: Core, diagnostics: seq<LimitDiagnostic>, data: seq<int>, limitBytes: nat) {
    && begun.lang.Valid() && !begun.limitReported && !begun.limitExceeded
    && var whole := DecodeAll(begun, data, LimitPixels(limitBytes));
       state == Marked(whole, whole.limitExceeded) && diagnostics == LimitReports(whole, limitBytes)
  }

  lemma {:induction false} ProgressStep(begun: Core, state: Core, diagnostics: seq<LimitDiagnostic>, data: seq<int>,
        more: seq<int>, limitBytes: nat)
    requires Progress(begun, state, diagnostics, data, limitBytes)
    ensures var after := DecodeAll(state, more, LimitPixels(limitBytes));
            Progress(begun, Reported(after), diagnostics + Emitted(after, limitBytes), data + more, limitBytes)
  {
    hide DecodeAll;
    var limit := LimitPixels(limitBytes);
    var whole := DecodeAll(begun, data, limit);
    DecodeAllConcat(begun, data, more, limit);
    DataIgnoresReported(whole, whole.limitExceeded, more, limit);
    assert Continues(whole, DecodeAll(whole, more, limit));
  }

  lemma {:induction false} ChunksProgress(c: Core, chunks: seq<seq<int>>, limitBytes: nat)
    requires c.lang.Valid() && !c.limitReported && !c.limitExceeded
    ensures var (state, diagnostics) := RunChunks(c, chunks, limitBytes);
            Progress(c, state, diagnostics, Flatten(chunks), limitBytes)
  {
    if chunks != [] {
      var front, last := chunks[..|chunks| - 1], chunks[|chunks| - 1];
      ChunksProgress(c, front, limitBytes);
      var (state, diagnostics) := RunChunks(c, front, limitBytes);
      ProgressStep(c, state, diagnostics, Flatten(front), last, limitBytes);
      hide Progress, DecodeAll;
    }
  }

  lemma {:induction false} FinishIgnoresReported(c: Core, limit: nat)
    requires c.lang.Valid()
    ensures FinishImage(Marked(c, c.limitExceeded), limit) == FinishImage(Marked(c, false), limit)
  {
    hide FinishPendingCommand, GrowExtentWithinLimit, Area;
    CommandIgnoresReported(c, c.limitExceeded, limit);
    CommandIgnoresReported(c, false, limit);
    GrowIgnoresReported(FinishPendingCommand(c, limit), c.limitExceeded, limit);
    GrowIgnoresReported(FinishPendingCommand(c, limit), false, limit);
    var f := FinishPendingCommand(c, limit);
    var g := GrowExtentWithinLimit(f, limit);
    assert Continues(c, f) && Continues(f, g);
    assert Reported(CloseBand(Marked(g, c.limitExceeded))) == Reported(CloseBand(Marked(g, false)));
  }

  /** What the terminator makes of a decoder that stands after `data`. */
  lemma {:induction false} EndOfRun(begun: Core, state: Core, diagnostics: seq<LimitDiagnostic>, data: seq<int>, limitBytes: nat)
    requires Progress(begun, state, diagnostics, data, limitBytes)
    ensures var limit := LimitPixels(limitBytes);
            var whole := DecodeAll(begun, data, limit);
            && state.lang.Valid()
            && FinishImage(state, limit) == FinishImage(Marked(whole, false), limit)
            && diagnostics + Emitted(FinishPendingCommand(state, limit), limitBytes)
               == LimitReports(FinishPendingCommand(whole, limit), limitBytes)
  {
    hide DecodeAll, FinishPendingCommand, FinishImage;
    var limit := LimitPixels(limitBytes);
    var whole := DecodeAll(begun, data, limit);
    FinishIgnoresReported(whole, limit);
    CommandIgnoresReported(whole, whole.limitExceeded, limit);
    assert Continues(whole, FinishPendingCommand(whole, limit));
  }

  /** The state and the diagnostics an image leaves, terminator included. */
  function RunImage(c: Core, header: seq<int>, chunks: seq<seq<int>>, limitBytes: nat): (Core, seq<LimitDiagnostic>) {
    var limit := LimitPixels(limitBytes);
    var (decoded, emitted) := RunChunks(BeginImage(c, header), chunks, limitBytes);
    (FinishImage(decoded, limit), emitted + Emitted(FinishPendingCommand(decoded, limit), limitBytes))
  }

  /** An image decoded in chunks is the image decoded in one piece. */
  lemma {:induction false} SplitsAgree(c: Core, header: seq<int>, chunks: seq<seq<int>>, limitBytes: nat)
    ensures var limit := LimitPixels(limitBytes);
            var whole := DecodeAll(BeginImage(c, header), Flatten(chunks), limit);
            RunImage(c, header, chunks, limitBytes) ==
              (FinishImage(Marked(whole, false), limit), LimitReports(FinishPendingCommand(whole, limit), limitBytes))
  {
    var begun := BeginImage(c, header);
    hide BeginLanguage;
    assert begun.lang.Valid() && !begun.limitReported && !begun.limitExceeded;
    hide DecodeAll, FinishImage, FinishPendingCommand, RunChunks, BeginImage, Progress, LimitReports, Emitted, LimitPixels;
    ChunksProgress(begun, chunks, limitBytes);
    var (state, diagnostics) := RunChunks(begun, chunks, limitBytes);
    EndOfRun(begun, state, diagnostics, Flatten(chunks), limitBytes);
  }

  /** The same data in any two splits ends in the same decoder state with the
      same diagnostics, at most one for the image. */
  lemma {:induction false} ChunkIndependence(c: Core, header: seq<int>, chunks: seq<seq<int>>, others: seq<seq<int>>,
        limitBytes: nat)
    requires Flatten(chunks) == Flatten(others)
    ensures RunImage(c, header, chunks, limitBytes) == RunImage(c, header, others, limitBytes)
    ensures |RunImage(c, header, chunks, limitBytes).1| <= 1
  {
    hide RunImage, DecodeAll, FinishImage, FinishPendingCommand, BeginImage;
    SplitsAgree(c, header, chunks, limitBytes);
    SplitsAgree(c, header, others, limitBytes);
  }

  // ---- End to end ---------------------------------------------------------------

  /** The image shows the manual's picture: its size, where its cursor ended, and, unless
      it is empty or takes more than the limit at four bytes a pixel, every pixel. */
  ghost predicate ImageIs(image: SixelImage, m: Manual.Picture, limitBytes: nat)
    requires m.Valid()
    reads if image.raster.View? then {image.raster.buffer} else {}
  {
    && image.width == (if m.width > 0x7fff_ffff then 0x7fff_ffff else m.width)
    && image.height == (if m.height > 0x7fff_ffff then 0x7fff_ffff else m.height)
    && image.finalCursorY == (if m.y > 0x7fff_ffff then 0x7fff_ffff else m.y)
    && image.aspect == m.aspect
    && (image.raster.View? <==> 0 < 4 * (m.width * m.height) <= limitBytes)
    && (image.raster.View? ==>
          && image.raster.width == m.width && image.raster.height == m.height
          && PixelsAre(image.raster.buffer[..], image.raster.stride, m))
  }

  /** The image and its diagnostics are those of the manual's picture. */
  ghost predicate DecodedAs(image: SixelImage, diagnostics: seq<LimitDiagnostic>, fields: seq<seq<int>>, tokens: seq<Manual.Token>,
                            limitBytes: nat)
    reads if image.raster.View? then {image.raster.buffer} else {}
  {
    var m := Manual.Meaning(fields, tokens);
    && ImageIs(image, m, limitBytes)
    && |diagnostics| == (if 4 * (m.width * m.height) > limitBytes then 1 else 0)
    && (diagnostics != [] ==> diagnostics[0].limitBytes == limitBytes < diagnostics[0].exceededBytes)
  }

  ghost predicate PixelsAre(pixels: seq<Color>, stride: nat, m: Manual.Picture)
    requires m.Valid()
  {
    forall px: int, py: int | 0 <= px < m.width && 0 <= py < m.height :: PixelIs(pixels, stride, m, px, py)
  }

  /** A pixel in the buffer, whose rows are `stride` long. */
  predicate PixelIs(pixels: seq<Color>, stride: nat, m: Manual.Picture, px: int, py: int)
    requires m.Valid()
  {
    && 0 <= py * stride + px < |pixels|
    && IsPixel(pixels[py * stride + px], Manual.Shown(m, px, py))
  }

  /** The limit is on bytes, four for each pixel. */
  lemma {:induction false} LimitIsBytes(m: Manual.Picture, p: Painter, limitBytes: nat)
    requires p.width == m.width && p.height == m.height
    ensures p.Exceeds(LimitPixels(limitBytes)) <==> 4 * (m.width * m.height) > limitBytes
    ensures m.width > 0 && m.height > 0 <==> 4 * (m.width * m.height) > 0
  {
    var area := m.width * m.height;
    assert m.width > 0 && m.height > 0 ==> area > 0 by {
      if m.width > 0 && m.height > 0 {
        ProductMonotone(1, m.width, m.height);
      }
    }
  }

  lemma {:induction false} PixelsAreShown(pixels: seq<Color>, stride: nat, m: Manual.Picture, q: Painter)
    requires SamePicture(m, q) && m.width <= stride && |pixels| >= Area(stride, m.height)
    requires forall px: int, py: int | 0 <= px < m.width && 0 <= py < m.height :: At(pixels, stride, px, py) == Published(q, px, py)
    ensures PixelsAre(pixels, stride, m)
  {
    hide SamePicture, IsPixel, Manual.Shown, Published, Area, At;
    SameIsValid(m, q);
    forall px: int, py: int | 0 <= px < m.width && 0 <= py < m.height
      ensures PixelIs(pixels, stride, m, px, py)
    {
      AtIndex(pixels, stride, m.height, px, py);
      PublishedIsShown(m, q, px, py);
    }
  }

  lemma {:induction false} AtIndex(pixels: seq<Color>, stride: nat, height: nat, px: int, py: int)
    requires 0 <= px < stride && 0 <= py < height && |pixels| >= Area(stride, height)
    ensures 0 <= py * stride + px < |pixels| && At(pixels, stride, px, py) == pixels[py * stride + px]
  {
    InsideBuffer(stride, height, px, py, 1);
  }

  lemma {:induction false} SameIsValid(m: Manual.Picture, q: Painter)
    requires SamePicture(m, q)
    ensures m.Valid() && q.Valid() && q.width == m.width && q.height == m.height && q.y == m.y && q.lang.aspect == m.aspect
  {
  }

  /** The painter's picture is the manual's, whatever fields and tokens the bytes are. */
  lemma {:induction false} ShowsTheMeaning(image: SixelImage, header: seq<int>, fields: seq<seq<int>>, tokens: seq<Manual.Token>,
                                           limitBytes: nat)
    requires Manual.AreFields(fields) && Manual.FieldsText(fields) == Kept(header) && Manual.Proper(tokens)
    requires var p := FinishPending(PaintAll(Start(BeginLanguage(header)), Manual.Text(tokens)));
             p.Valid() && ImageShows(image, p, LimitPixels(limitBytes))
    ensures ImageIs(image, Manual.Meaning(fields, tokens), limitBytes)
    ensures var p := FinishPending(PaintAll(Start(BeginLanguage(header)), Manual.Text(tokens)));
            var m := Manual.Meaning(fields, tokens);
            p.Exceeds(LimitPixels(limitBytes)) <==> 4 * (m.width * m.height) > limitBytes
  {
    hide SamePicture, FinishPending, PaintAll, Manual.Meaning, PixelsAre, Published, At, Painter.Exceeds, LimitPixels, Area;
    var p := FinishPending(PaintAll(Start(BeginLanguage(header)), Manual.Text(tokens)));
    var m := Manual.Meaning(fields, tokens);
    StringIsRead(header, fields, tokens);
    SameIsValid(m, p);
    LimitIsBytes(m, p, limitBytes);
    if image.raster.View? {
      PixelsAreShown(image.raster.buffer[..], image.raster.stride, m, p);
    }
  }

  /** The image and its diagnostics are those of the manual's picture, whatever fields the
      header and whatever tokens the data is the text of. */
  ghost predicate Means(image: SixelImage, diagnostics: seq<LimitDiagnostic>, header: seq<int>, data: seq<int>, limitBytes: nat)
    reads if image.raster.View? then {image.raster.buffer} else {}
  {
    forall fields, tokens |
      Manual.AreFields(fields) && Manual.FieldsText(fields) == Kept(header) && Manual.Proper(tokens) && Manual.Text(tokens) == data ::
      DecodedAs(image, diagnostics, fields, tokens, limitBytes)
  }

  lemma {:induction false} MeansTheSame(image: SixelImage, diagnostics: seq<LimitDiagnostic>, header: seq<int>, data: seq<int>,
                                        limitBytes: nat)
    requires var p := FinishPending(PaintAll(Start(BeginLanguage(header)), data));
             && p.Valid() && ImageShows(image, p, LimitPixels(limitBytes))
             && (diagnostics != [] <==> p.Exceeds(LimitPixels(limitBytes)))
    requires |diagnostics| <= 1 && (diagnostics != [] ==> diagnostics[0].limitBytes == limitBytes < diagnostics[0].exceededBytes)
    ensures Means(image, diagnostics, header, data, limitBytes)
  {
    hide ImageIs, ImageShows, Painter.Exceeds, Manual.Meaning, PaintAll, FinishPending, Manual.Text, Manual.Proper, LimitPixels;
    forall fields, tokens |
      Manual.AreFields(fields) && Manual.FieldsText(fields) == Kept(header) && Manual.Proper(tokens) && Manual.Text(tokens) == data
      ensures DecodedAs(image, diagnostics, fields, tokens, limitBytes)
    {
      ShowsTheMeaning(image, header, fields, tokens, limitBytes);
    }
  }

  /** There are such fields and tokens for every header and every data. */
  lemma {:induction false} EverythingHasMeaning(header: seq<int>, data: seq<int>)
    returns (fields: seq<seq<int>>, tokens: seq<Manual.Token>)
    ensures Manual.AreFields(fields) && Manual.FieldsText(fields) == Kept(header)
    ensures Manual.Proper(tokens) && Manual.Text(tokens) == data
  {
    fields := Manual.SomeFields(Kept(header));
    tokens := Manual.EveryStringHasTokens(data);
  }

  predicate ShowsBlack(pixels: seq<Color>, stride: nat, px: int, py: int) {
    0 <= py * stride + px < |pixels| && IsPixel(pixels[py * stride + px], Manual.Some(Manual.Rgb(0, 0, 0)))
  }

  /** A header without parameters and one raster command, `"1;1;` and the decimals of the two
      sizes: within the limit just that many columns and rows are published, all black. */
  lemma {:induction false} RasterIsPublished(image: SixelImage, diagnostics: seq<LimitDiagnostic>, wide: nat, high: nat, limitBytes: nat)
    requires 1 <= wide <= 32767 && 1 <= high <= 32767 && 4 * (wide * high) <= limitBytes
    requires var data := ['"' as int, '1' as int, ';' as int, '1' as int, ';' as int] + Manual.Decimal(wide) + [';' as int]
                         + Manual.Decimal(high);
             Means(image, diagnostics, [], data, limitBytes)
    ensures diagnostics == [] && image.raster.View? && image.raster.width == wide && image.raster.height == high
    ensures forall px: int, py: int | 0 <= px < wide && 0 <= py < high ::
      ShowsBlack(image.raster.buffer[..], image.raster.stride, px, py)
  {
    hide Manual.Meaning, Manual.Proper, Manual.Text, Manual.Decimal, Manual.Shown, IsPixel;
    var tokens := [Manual.Raster(Manual.Decimals([1, 1, wide, high]))];
    Manual.RasterAlone(wide, high);
    assert Kept([]) == [] && Manual.FieldsText([[]]) == [] && Manual.AreFields([[]]);
    assert DecodedAs(image, diagnostics, [[]], tokens, limitBytes);
    var m := Manual.Meaning([[]], tokens);
    assert 0 < wide * high by {
      ProductMonotone(1, wide, high);
    }
    assert PixelsAre(image.raster.buffer[..], image.raster.stride, m);
    forall px: int, py: int | 0 <= px < wide && 0 <= py < high
      ensures ShowsBlack(image.raster.buffer[..], image.raster.stride, px, py)
    {
      assert PixelIs(image.raster.buffer[..], image.raster.stride, m, px, py);
    }
  }

  /** What a decode call is given: no budget, a new one, or that of the call before. */
  datatype Supply = NoBudget | NewBudget(units: nat) | SameBudget

  /** No call goes without a budget. */
  ghost predicate AllBudgeted(supply: nat -> Supply) {
    supply(0).NewBudget? && forall k: nat :: !supply(k).NoBudget?
  }

  /** The budget of the next call. */
  method NextBudget(supply: Supply, current: WorkBudget?) returns (budget: WorkBudget?)
    requires current != null ==> current.Valid()
    ensures budget != null ==> budget.Valid() && (budget == current || fresh(budget))
    ensures supply.NewBudget? ==> budget != null
    ensures supply.SameBudget? ==> budget == current
  {
    match supply {
      case NoBudget => budget := null;
      case NewBudget(units) => budget := new WorkBudget(units);
      case SameBudget => budget := current;
    }
  }

  /** Decodes one image from chunks; call `k` gets what `supply(k)` says, each call goes on
      until its budget is used up, and the end gets a budget of its own or none. Whatever
      the chunks and the budgets, the published raster is the one a naive painter makes of
      the whole string. The calls together write no more pixels than they were charged. */
  method DecodeImage(limitBytes: nat, header: seq<int>, chunks: seq<seq<int>>, supply: nat -> Supply, end: Supply)
    returns (image: SixelImage, diagnostics: seq<LimitDiagnostic>, charged: int, ghost written: nat)
    requires LimitPixels(limitBytes) < GEOMETRY_LIMIT
    ensures var p := FinishPending(PaintAll(Start(BeginLanguage(header)), Flatten(chunks)));
            && p.Valid()
            && ImageShows(image, p, LimitPixels(limitBytes))
            && (diagnostics != [] <==> p.Exceeds(LimitPixels(limitBytes)))
    ensures |diagnostics| <= 1 && (diagnostics != [] ==> diagnostics[0].limitBytes == limitBytes < diagnostics[0].exceededBytes)
    ensures diagnostics == RunImage(IdleState(), header, chunks, limitBytes).1
    ensures Means(image, diagnostics, header, Flatten(chunks), limitBytes)
    ensures AllBudgeted(supply) && end.NewBudget? ==> written <= charged
  {
    var decoder := new Decoder(limitBytes);
    ghost var idle := decoder.state;
    decoder.Begin(header);
    ghost var begun, blank := decoder.state, decoder.painter;
    BeginRepresents(idle, header, LimitPixels(limitBytes));
    assert Progress(begun, begun, [], [], limitBytes) && begun == BeginImage(IdleState(), header);
    hide Decoder.Valid, DecodeAll, PaintAll, Progress, FinishPending, FinishPendingCommand, ImageShows, LimitPixels, Represents, Continues,
         Start, BeginLanguage, BeginImage, FinishImage, RunImage, Painter.Valid, Language.Valid, Painter.Exceeds, Emitted, AllBudgeted,
         Means;
    var budget;
    diagnostics, budget, charged := FeedChunks(decoder, blank, begun, chunks, supply);
    WholeImage(idle, header, decoder.state, diagnostics, chunks, limitBytes);
    var final;
    budget := NextBudget(end, budget);
    var before := if budget == null then 0 else budget.Charged();
    image, final := decoder.Finish(budget);
    charged := charged + (if budget == null then 0 else budget.Charged()) - before;
    diagnostics, written := diagnostics + final, decoder.pixelsWritten;
    MeansTheSame(image, diagnostics, header, Flatten(chunks), limitBytes);
  }

  /** Feeds all chunks of an image that has just begun. */
  method FeedChunks(decoder: Decoder, ghost blank: Painter, ghost begun: Core, chunks: seq<seq<int>>, supply: nat -> Supply)
    returns (diagnostics: seq<LimitDiagnostic>, budget: WorkBudget?, charged: int)
    requires decoder.Valid() && decoder.state.active && blank.Valid() && decoder.painter == blank && decoder.pixelsWritten == 0
    requires decoder.state == begun && Progress(begun, begun, [], [], decoder.limitBytes)
    modifies decoder, decoder.pixels
    ensures decoder.Valid() && decoder.state.active && (decoder.pixels == old(decoder.pixels) || fresh(decoder.pixels))
    ensures decoder.painter == PaintAll(blank, Flatten(chunks))
    ensures Progress(begun, decoder.state, diagnostics, Flatten(chunks), decoder.limitBytes)
    ensures budget != null ==> budget.Valid() && fresh(budget)
    ensures AllBudgeted(supply) ==> decoder.pixelsWritten <= charged
  {
    hide Decoder.Valid, DecodeAll, PaintByte, Progress, LimitPixels, Represents, Language.Valid, Emitted, AllBudgeted, Continues;
    diagnostics, charged := [], 0;
    var calls := 0;
    budget := null;
    assert chunks[..0] == [];
    for i := 0 to |chunks|
      invariant decoder.Valid() && decoder.state.active && (decoder.pixels == old(decoder.pixels) || fresh(decoder.pixels))
      invariant decoder.painter == PaintAll(blank, Flatten(chunks[..i]))
      invariant Progress(begun, decoder.state, diagnostics, Flatten(chunks[..i]), decoder.limitBytes)
      invariant budget != null ==> budget.Valid() && fresh(budget)
      invariant AllBudgeted(supply) ==> decoder.pixelsWritten <= charged && (calls > 0 ==> budget != null)
    {
      assert chunks[..i + 1][..i] == chunks[..i];
      var emitted, work;
      emitted, calls, budget, work := FeedChunk(decoder, blank, begun, diagnostics, Flatten(chunks[..i]), chunks[i], supply, calls, budget);
      diagnostics, charged := diagnostics + emitted, charged + work;
    }
    assert chunks[..|chunks|] == chunks;
  }

  /** The diagnostics of a whole image, and when there is one. */
  lemma {:induction false} WholeImage(c: Core, header: seq<int>, state: Core, diagnostics: seq<LimitDiagnostic>,
        chunks: seq<seq<int>>, limitBytes: nat)
    requires LimitPixels(limitBytes) < GEOMETRY_LIMIT && c == Release(c)
    requires Progress(BeginImage(c, header), state, diagnostics, Flatten(chunks), limitBytes)
    ensures var limit := LimitPixels(limitBytes);
            var blank := Start(BeginLanguage(header));
            && state.lang.Valid() && blank.Valid()
            && var all := diagnostics + Emitted(FinishPendingCommand(state, limit), limitBytes);
               && all == RunImage(c, header, chunks, limitBytes).1
               && (all != [] <==> FinishPending(PaintAll(blank, Flatten(chunks))).Exceeds(limit))
               && |all| <= 1 && (all != [] ==> all[0].limitBytes == limitBytes < all[0].exceededBytes)
  {
    var limit, data := LimitPixels(limitBytes), Flatten(chunks);
    var begun, blank := BeginImage(c, header), Start(BeginLanguage(header));
    BeginRepresents(c, header, limit);
    RepresentsLanguage(begun, blank, limit);
    var whole, painted := DecodeAll(begun, data, limit), PaintAll(blank, data);
    hide DecodeAll, PaintAll, FinishPendingCommand, FinishPending, FinishImage, RunImage, BeginImage, BeginLanguage,
          Painter.Exceeds;
    StringRepresents(begun, blank, data, limit);
    FinishPendingRepresents(whole, painted, limit);
    SplitsAgree(c, header, chunks, limitBytes);
    EndOfRun(begun, state, diagnostics, data, limitBytes);
    DataReportsMore(begun, data, limit);
    CommandReportsMore(whole, limit);
    ReportExceeds(FinishPendingCommand(whole, limit), limitBytes);
  }

  /** A reported size is more than the limit. */
  lemma {:induction false} ReportExceeds(c: Core, limitBytes: nat)
    requires ReportsMore(c, LimitPixels(limitBytes))
    ensures forall k | 0 <= k < |LimitReports(c, limitBytes)| ::
      LimitReports(c, limitBytes)[k].limitBytes == limitBytes < LimitReports(c, limitBytes)[k].exceededBytes
  {
  }

  /** Feeds one chunk, resuming after every budget stop. */
  method FeedChunk(decoder: Decoder, ghost blank: Painter, ghost begun: Core, ghost diagnostics: seq<LimitDiagnostic>,
                   ghost done: seq<int>, chunk: seq<int>, supply: nat -> Supply, call: nat, current: WorkBudget?)
    returns (emitted: seq<LimitDiagnostic>, calls: nat, budget: WorkBudget?, charged: int)
    requires decoder.Valid() && decoder.state.active && blank.Valid()
    requires decoder.painter == PaintAll(blank, done)
    requires Progress(begun, decoder.state, diagnostics, done, decoder.limitBytes)
    requires current != null ==> current.Valid()
    requires AllBudgeted(supply) && call > 0 ==> current != null
    modifies decoder, decoder.pixels, current
    ensures decoder.Valid() && decoder.state.active
    ensures decoder.pixels == old(decoder.pixels) || fresh(decoder.pixels)
    ensures decoder.painter == PaintAll(blank, done + chunk)
    ensures Progress(begun, decoder.state, diagnostics + emitted, done + chunk, decoder.limitBytes)
    ensures budget != null ==> budget.Valid() && (budget == current || fresh(budget))
    ensures AllBudgeted(supply) ==> decoder.pixelsWritten - old(decoder.pixelsWritten) <= charged
    ensures AllBudgeted(supply) && calls > 0 ==> budget != null
  {
    hide DecodeAll, PaintAll, Progress, Decoder.Valid, Continues, Language.Valid, LimitPixels, Emitted, Reported;
    emitted, calls, budget, charged := [], call, current, 0;
    var offset := 0;
    assert done + chunk[..0] == done && diagnostics + emitted == diagnostics;
    while offset < |chunk|
      invariant offset <= |chunk|
      invariant decoder.Valid() && decoder.state.active
      invariant decoder.pixels == old(decoder.pixels) || fresh(decoder.pixels)
      invariant decoder.painter == PaintAll(blank, done + chunk[..offset])
      invariant Progress(begun, decoder.state, diagnostics + emitted, done + chunk[..offset], decoder.limitBytes)
      invariant budget != null ==> budget.Valid() && (budget == current || fresh(budget))
      invariant AllBudgeted(supply) ==> decoder.pixelsWritten - old(decoder.pixelsWritten) <= charged
      invariant AllBudgeted(supply) && calls > 0 ==> budget != null
    {
      ghost var state, rest := decoder.state, chunk[offset..];
      budget := NextBudget(supply(calls), budget);
      calls := calls + 1;
      var before := if budget == null then 0 else budget.Charged();
      var consumed, more := decoder.Decode(chunk[offset..], budget);
      charged := charged + (if budget == null then 0 else budget.Charged()) - before;
      ProgressStep(begun, state, diagnostics + emitted, done + chunk[..offset], rest[..consumed], decoder.limitBytes);
      PaintAllConcat(blank, done + chunk[..offset], rest[..consumed]);
      assert done + chunk[..offset] + rest[..consumed] == done + chunk[..offset + consumed];
      assert diagnostics + emitted + more == diagnostics + (emitted + more);
      emitted := emitted + more;
      offset := offset + consumed;
    }
    assert chunk[..offset] == chunk;
  }
}
