/** The reference painter reads a sixel string as the manual tells it: fields become
    parameters, and each token changes the painter's picture as it does the manual's. */
module SixelReading {
  import opened SixelLanguage
  import opened SixelPainter
  import opened SixelColours
  import Manual = SixelManual

  // ---- Fields become parameters -------------------------------------------------------

  /** Collects the bytes of a command's parameters. */
  function CollectAll(l: Language, bytes: seq<int>): (r: Language)
    requires l.Valid() && forall k | 0 <= k < |bytes| :: IsParameterByte(bytes[k])
    ensures r.Valid() && r.command == l.command
    decreases |bytes|
  {
    if bytes == [] then l
    else
      var rest := CollectAll(l, bytes[..|bytes| - 1]);
      LanguageStaysValid(rest, bytes[|bytes| - 1]);
      CollectParameterByte(rest, bytes[|bytes| - 1])
  }

  /** `l` is `base` with the parameters that the fields are. */
  predicate Collected(l: Language, base: Language, fields: seq<seq<int>>) {
    && fields != [] && |l.parameters| == 5
    && l == base.(parameters := l.parameters, parameterIndex := l.parameterIndex)
    && (forall k | 0 <= k < 5 :: l.parameters[k] == Manual.Parameter(fields, k))
    && l.parameterIndex == if |fields| - 1 < 5 then |fields| - 1 else 5
  }

  lemma {:induction false} DigitCollected(l: Language, base: Language, fields: seq<seq<int>>, byte: int)
    requires l.Valid() && Collected(l, base, fields) && Manual.AreFields(fields) && Manual.IsDigit(byte)
    ensures IsParameterByte(byte)
    ensures var last := |fields| - 1;
            Collected(CollectParameterByte(l, byte), base, fields[last := fields[last] + [byte]])
  {
    var last := |fields| - 1;
    var more := fields[last := fields[last] + [byte]];
    assert more[last][..|more[last]| - 1] == fields[last];
    Manual.NumberIsNat(fields[last]);
  }

  lemma {:induction false} FieldCollected(l: Language, base: Language, fields: seq<seq<int>>)
    requires l.Valid() && Collected(l, base, fields)
    ensures Collected(CollectParameterByte(l, ';' as int), base, fields + [[]])
  {
    assert forall k: nat | k < |fields| :: (fields + [[]])[k] == fields[k];
  }

  lemma {:induction false} FieldBytes(fields: seq<seq<int>>)
    requires Manual.AreFields(fields)
    ensures forall k | 0 <= k < |Manual.FieldsText(fields)| :: IsParameterByte(Manual.FieldsText(fields)[k])
  {
    if |fields| > 1 {
      FieldBytes(fields[..|fields| - 1]);
    }
  }

  lemma {:induction false} CollectOneMore(l: Language, bytes: seq<int>, byte: int)
    requires l.Valid() && IsParameterByte(byte) && forall k | 0 <= k < |bytes| :: IsParameterByte(bytes[k])
    ensures CollectAll(l, bytes + [byte]) == CollectParameterByte(CollectAll(l, bytes), byte)
  {
    assert (bytes + [byte])[..|bytes|] == bytes;
  }

  /** The text of fields is collected as their numbers. */
  lemma {:induction false} FieldsCollected(base: Language, fields: seq<seq<int>>)
    requires base.Valid() && base.parameters == [0, 0, 0, 0, 0] && base.parameterIndex == 0 && Manual.AreFields(fields)
    ensures forall k | 0 <= k < |Manual.FieldsText(fields)| :: IsParameterByte(Manual.FieldsText(fields)[k])
    ensures Collected(CollectAll(base, Manual.FieldsText(fields)), base, fields)
    decreases |fields|, |fields[|fields| - 1]|
  {
    hide Collected;
    FieldBytes(fields);
    var last := |fields| - 1;
    if fields[last] != [] {
      var digits, byte := fields[last][..|fields[last]| - 1], fields[last][|fields[last]| - 1];
      var fewer := fields[last := digits];
      assert forall k | 0 <= k < |fewer| :: Manual.IsField(fewer[k]);
      FieldsCollected(base, fewer);
      Manual.MoreDigits(fewer, byte);
      assert digits + [byte] == fields[last] && fewer[last := digits + [byte]] == fields;
      DigitCollected(CollectAll(base, Manual.FieldsText(fewer)), base, fewer, byte);
      CollectOneMore(base, Manual.FieldsText(fewer), byte);
    } else if last > 0 {
      var fewer := fields[..last];
      FieldsCollected(base, fewer);
      Manual.MoreFields(fewer);
      assert fewer + [[]] == fields;
      FieldCollected(CollectAll(base, Manual.FieldsText(fewer)), base, fewer);
      CollectOneMore(base, Manual.FieldsText(fewer), ';' as int);
    } else {
      NothingCollected(base, fields);
    }
  }

  lemma {:induction false} NothingCollected(base: Language, fields: seq<seq<int>>)
    requires base.Valid() && base.parameters == [0, 0, 0, 0, 0] && base.parameterIndex == 0 && fields == [[]]
    ensures Manual.FieldsText(fields) == [] && Collected(CollectAll(base, []), base, fields)
  {
    assert Manual.Number([]) == 0;
  }

  // ---- What the painter makes of bytes -----------------------------------------------------

  lemma {:induction false} PaintAllConcat(p: Painter, a: seq<int>, b: seq<int>)
    requires p.Valid()
    ensures PaintAll(PaintAll(p, a), b) == PaintAll(p, a + b)
    decreases |b|
  {
    if b == [] {
      assert a + b == a;
    } else {
      var front := b[..|b| - 1];
      PaintAllConcat(p, a, front);
      assert (a + b)[..|a + b| - 1] == a + front;
      hide PaintByte;
    }
  }

  lemma {:induction false} PaintOne(p: Painter, byte: int)
    requires p.Valid()
    ensures PaintAll(p, [byte]) == PaintByte(p, byte)
  {
    assert [byte][..0] == [];
    hide PaintByte;
  }

  lemma {:induction false} PaintsParameters(p: Painter, bytes: seq<int>)
    requires p.Valid() && p.lang.command != NoCommand && forall k | 0 <= k < |bytes| :: IsParameterByte(bytes[k])
    ensures PaintAll(p, bytes) == p.(lang := CollectAll(p.lang, bytes))
    decreases |bytes|
  {
    if bytes != [] {
      PaintsParameters(p, bytes[..|bytes| - 1]);
    }
  }

  // ---- The same picture -----------------------------------------------------------------------

  /** The painter's picture is the manual's. */
  ghost predicate SamePicture(m: Manual.Picture, q: Painter) {
    && m.Valid() && q.Valid()
    && q.lang.aspect == m.aspect && q.lang.backgroundFill == m.fill && q.lang.selected == m.pen && q.lang.locked == m.drawn
    && q.x == m.x && q.y == m.y && q.width == m.width && q.height == m.height
    && q.lang.declaredWidth == m.declaredWidth && q.lang.declaredHeight == m.declaredHeight
    && SamePalette(q.lang.registers, m.palette) && SameImage(q.image, m.image)
  }

  predicate SamePalette(registers: seq<Paint>, palette: seq<Manual.Rgb>) {
    |registers| == |palette| && forall i | 0 <= i < |palette| :: IsColour(registers[i], palette[i])
  }

  ghost predicate SameImage(image: Image, other: Manual.Image) {
    forall px: int, py: int :: IsPixel(image(px, py), other(px, py))
  }

  /** The painter stands where the manual's picture does, its pending command included. */
  ghost predicate Reads(m: Manual.Picture, p: Painter, command: bool) {
    && p.Valid() && SamePicture(m, FinishPending(p)) && RepeatCount(p.lang) == m.count
    && (p.lang.command != NoCommand ==> command)
  }

  // ---- Sixels ------------------------------------------------------------------------------------

  lemma {:induction false} BitsAgree(bits: nat)
    requires bits < 64
    ensures forall row: nat | row < 6 :: BitSet(bits as bv8, row) <==> Manual.Bit(bits, row)
    ensures bits as bv8 == 0 <==> bits == 0
  {
    MasksAgree(bits);
    forall row: nat | row < 6
      ensures BitSet(bits as bv8, row) <==> Manual.Bit(bits, row)
    {
      HalvedBits(bits);
    }
  }

  lemma {:induction false} HalvedBits(n: nat)
    requires n < 64
    ensures Manual.Bit(n, 0) <==> n % 2 == 1
    ensures Manual.Bit(n, 1) <==> n / 2 % 2 == 1
    ensures Manual.Bit(n, 2) <==> n / 4 % 2 == 1
    ensures Manual.Bit(n, 3) <==> n / 8 % 2 == 1
    ensures Manual.Bit(n, 4) <==> n / 16 % 2 == 1
    ensures Manual.Bit(n, 5) <==> n / 32 % 2 == 1
  {
  }

  lemma {:induction false} MasksAgree(n: nat)
    requires n < 64
    ensures var b := n as bv8;
            && (b & 1 != 0 <==> n % 2 == 1) && (b & 2 != 0 <==> n / 2 % 2 == 1)
            && (b & 4 != 0 <==> n / 4 % 2 == 1) && (b & 8 != 0 <==> n / 8 % 2 == 1)
            && (b & 16 != 0 <==> n / 16 % 2 == 1) && (b & 32 != 0 <==> n / 32 % 2 == 1)
    ensures n as bv8 == 0 <==> n == 0
  {
  }

  lemma {:induction false} DepthIsWidth(bits: nat)
    requires bits < 64
    ensures BitWidth(bits as bv8) == Manual.Depth(bits)
  {
    hide BitSet, Manual.Bit;
    BitsAgree(bits);
    HalvedBits(bits);
    DepthOf(bits);
    hide Manual.Depth;
  }

  lemma {:induction false} DepthOf(n: nat)
    requires n < 64
    ensures Manual.Depth(n) ==
      if n >= 32 then 6 else if n >= 16 then 5 else if n >= 8 then 4 else if n >= 4 then 3 else if n >= 2 then 2 else n
  {
    assert Manual.Depth(n) == if n == 0 then 0 else 1 + Manual.Depth(n / 2);
    assert Manual.Depth(n / 2) == if n / 2 == 0 then 0 else 1 + Manual.Depth(n / 2 / 2);
    assert Manual.Depth(n / 2 / 2) == if n / 2 / 2 == 0 then 0 else 1 + Manual.Depth(n / 2 / 2 / 2);
    assert Manual.Depth(n / 2 / 2 / 2) == if n / 2 / 2 / 2 == 0 then 0 else 1 + Manual.Depth(n / 2 / 2 / 2 / 2);
  }

  lemma {:induction false} StepsApart(a: nat, b: nat, d: nat)
    requires a < b
    ensures a * d + d <= b * d
  {
    ProductMonotone(a + 1, b, d);
    assert (a + 1) * d == a * d + d;
  }

  lemma {:induction false} BandRow(d: int, aspect: nat)
    requires 1 <= aspect && 0 <= d < 6 * aspect
    ensures BandIndex(d, aspect) == d / aspect < 6
  {
    BandIndexBounds(d, aspect);
    var i, q := BandIndex(d, aspect), d / aspect;
    assert d == q * aspect + d % aspect;
    if i < q {
      StepsApart(i, q, aspect);
    } else if q < i {
      StepsApart(q, i, aspect);
    }
  }

  lemma {:induction false} DrawnIsPainted(m: Manual.Picture, q: Painter, bits: nat)
    requires SamePicture(m, q) && 0 < bits < 64
    ensures SameImage(Draw(q, bits as bv8, m.count).image, Manual.Drawn(m, bits))
  {
    hide PaintSixel, IsPixel, BitSet, Manual.Bit, BandIndex, RowsBefore;
    BitsAgree(bits);
    var painted, drawn := Draw(q, bits as bv8, m.count).image, Manual.Drawn(m, bits);
    forall px: int, py: int
      ensures IsPixel(painted(px, py), drawn(px, py))
    {
      PaintSixelAt(q.image, q.x, q.y, q.lang.aspect, bits as bv8, m.count, q.lang.registers[q.lang.selected], SIXEL_ROWS, px, py);
      assert RowsBefore(SIXEL_ROWS, q.lang.aspect) == 6 * q.lang.aspect;
      if q.y <= py < q.y + 6 * q.lang.aspect {
        BandRow(py - q.y, q.lang.aspect);
      }
      assert IsColour(q.lang.registers[m.pen], m.palette[m.pen]);
    }
  }

  lemma {:induction false} DrawIsSame(m: Manual.Picture, q: Painter, bits: nat)
    requires SamePicture(m, q) && bits < 64
    ensures SamePicture(Manual.Draw(m, bits), Draw(q, bits as bv8, m.count))
  {
    hide PaintSixel, IsPixel, BitSet, BitWidth, Manual.Depth, Manual.Drawn;
    BitsAgree(bits);
    DepthIsWidth(bits);
    if bits != 0 {
      DrawnIsPainted(m, q, bits);
    }
  }

  // ---- Commands ---------------------------------------------------------------------------------------

  lemma {:induction false} RatioIsRoundedUp(n: nat, d: nat)
    requires d > 0
    ensures Max(1, (n + d - 1) / d) == Manual.RoundedUp(n, d)
    decreases n
  {
    if n > d {
      RatioIsRoundedUp(n - d, d);
      assert (n + d - 1) / d == (n - d + d - 1) / d + 1 by {
        OneMoreQuotient(n - 1, d);
      }
      assert (n - d + d - 1) / d >= 1 by {
        AtLeastOne(n - 1, d);
      }
    } else if n > 0 {
      JustOne(n + d - 1, d);
    } else {
      assert (d - 1) / d == 0;
    }
  }

  lemma {:induction false} OneMoreQuotient(a: nat, d: nat)
    requires d > 0
    ensures (a + d) / d == a / d + 1
  {
    assert a == a / d * d + a % d;
    QuotientIs(a + d, d, a / d + 1);
  }

  lemma {:induction false} AtLeastOne(a: nat, d: nat)
    requires 0 < d <= a
    ensures a / d >= 1
  {
    var q := a / d;
    assert a == q * d + a % d;
    assert q == 0 ==> q * d == 0;
  }

  lemma {:induction false} JustOne(a: nat, d: nat)
    requires 0 < d <= a < 2 * d
    ensures a / d == 1
  {
    QuotientIs(a, d, 1);
  }

  lemma {:induction false} QuotientIs(a: nat, d: nat, q: nat)
    requires 0 < d && q * d <= a < q * d + d
    ensures a / d == q
  {
    var r := a / d;
    assert a == r * d + a % d;
    if r < q {
      StepsApart(r, q, d);
    } else if q < r {
      StepsApart(q, r, d);
    }
  }

  /** A painter whose pending command has collected these fields. */
  ghost predicate Commanded(p: Painter, q: Painter, command: Command, fields: seq<seq<int>>) {
    && p.Valid() && q.Valid() && p == q.(lang := p.lang)
    && Collected(p.lang, StartCommand(q.lang, command), fields)
  }

  lemma {:induction false} RepeatIsSame(m: Manual.Picture, p: Painter, q: Painter, fields: seq<seq<int>>)
    requires SamePicture(m, q) && Commanded(p, q, Repeat, fields)
    ensures Reads(Manual.Step(m, Manual.Repeat(fields)), p, true)
  {
    hide SamePalette, SameImage;
  }

  lemma {:induction false} ColourIsSame(m: Manual.Picture, p: Painter, q: Painter, fields: seq<seq<int>>)
    requires SamePicture(m, q) && Commanded(p, q, ColorIntroducer, fields)
    ensures Reads(Manual.Step(m, Manual.Colour(fields)), p, true)
  {
    hide SameImage, IsPixel, ColorFromHls, ColorFromRgbPercent, Manual.FromHls, Manual.FromPercent, Manual.RgbOf;
    var x, y, z := Manual.Parameter(fields, 2), Manual.Parameter(fields, 3), Manual.Parameter(fields, 4);
    HlsIsColour(x, y, z);
    PercentIsColour(x, y, z);
  }

  lemma {:induction false} RasterIsSame(m: Manual.Picture, p: Painter, q: Painter, fields: seq<seq<int>>)
    requires SamePicture(m, q) && Commanded(p, q, RasterAttributes, fields)
    ensures Reads(Manual.Step(m, Manual.Raster(fields)), p, true)
  {
    hide SamePalette, SameImage;
    LanguageStaysValid(p.lang, 0);
    if Manual.Parameter(fields, 1) > 0 {
      RatioIsRoundedUp(Manual.Parameter(fields, 0), Manual.Parameter(fields, 1));
    }
  }

  /** A byte that no command takes as a parameter finishes the pending one. */
  lemma {:induction false} FinishesFirst(p: Painter, byte: int)
    requires p.Valid() && (p.lang.command == NoCommand || !IsParameterByte(byte))
    ensures FinishPending(p).Valid() && FinishPending(p).lang.command == NoCommand
    ensures PaintByte(p, byte) == Perform(FinishPending(p), byte, RepeatCount(p.lang))
  {
    LanguageStaysValid(p.lang, byte);
  }

  /** With no command pending, finishing changes nothing. */
  lemma {:induction false} NothingPending(q: Painter)
    requires q.Valid() && q.lang.command == NoCommand
    ensures FinishPending(q) == q && RepeatCount(q.lang) == 1
  {
  }

  function CommandOf(t: Manual.Token): Command
    requires t.IsCommand()
  {
    match t
    case Repeat(_) => Repeat
    case Colour(_) => ColorIntroducer
    case Raster(_) => RasterAttributes
  }

  /** A command and its fields are collected behind the finished picture. */
  lemma {:induction false} CommandIsCollected(p: Painter, t: Manual.Token)
    requires p.Valid() && t.IsCommand() && Manual.AreFields(t.fields)
    ensures FinishPending(p).Valid()
    ensures Commanded(PaintAll(p, Manual.TokenText(t)), FinishPending(p), CommandOf(t), t.fields)
  {
    var byte, text := Manual.TokenText(t)[0], Manual.FieldsText(t.fields);
    assert Manual.TokenText(t) == [byte] + text;
    FinishesFirst(p, byte);
    var q := FinishPending(p);
    LanguageStaysValid(q.lang, byte);
    PaintOne(p, byte);
    var started := q.(lang := StartCommand(q.lang, CommandOf(t)));
    assert PaintAll(p, [byte]) == started;
    PaintAllConcat(p, [byte], text);
    hide FinishPending, PaintByte, Perform;
    FieldsCollected(started.lang, t.fields);
    PaintsParameters(started, text);
  }

  /** One token: the painter follows the manual. */
  lemma {:induction false} TokenIsRead(m: Manual.Picture, p: Painter, before: seq<Manual.Token>, t: Manual.Token)
    requires m.Valid() && Reads(m, p, before != [] && before[|before| - 1].IsCommand())
    requires Manual.TokenOk(t) && Manual.MayFollow(before, t)
    ensures Reads(Manual.Step(m, t), PaintAll(p, Manual.TokenText(t)), t.IsCommand())
  {
    hide SamePicture, PaintAll, PaintByte, FinishPending, Manual.Step, Commanded;
    if t.IsCommand() {
      CommandIsCollected(p, t);
      var r := PaintAll(p, Manual.TokenText(t));
      match t
      case Repeat(fields) => RepeatIsSame(m, r, FinishPending(p), fields);
      case Colour(fields) => ColourIsSame(m, r, FinishPending(p), fields);
      case Raster(fields) => RasterIsSame(m, r, FinishPending(p), fields);
    } else {
      var byte := Manual.TokenText(t)[0];
      FinishesFirst(p, byte);
      PaintOne(p, byte);
      PlainIsRead(m, FinishPending(p), t);
    }
  }

  /** A byte that is a token of its own. */
  lemma {:induction false} PlainIsRead(m: Manual.Picture, q: Painter, t: Manual.Token)
    requires SamePicture(m, q) && q.lang.command == NoCommand && !t.IsCommand() && Manual.TokenOk(t)
    ensures Reads(Manual.Step(m, t), Perform(q, Manual.TokenText(t)[0], m.count), false)
  {
    hide SameImage, SamePalette, PaintSixel, Manual.Drawn, FinishPending, RepeatCount, BitWidth, Manual.Depth;
    var byte := Manual.TokenText(t)[0];
    match t
    case Sixel(bits) =>
      assert SixelBits(byte) == bits as bv8;
      DrawIsSame(m, q, bits);
      NothingPending(Draw(q, bits as bv8, m.count));
    case CarriageReturn =>
      NothingPending(q.(x := 0));
    case NewLine =>
      NothingPending(NextLine(q));
    case Other(_) =>
      NothingPending(q);
  }

  // ---- Whole strings ----------------------------------------------------------------------------------

  /** The bytes of a header that its parameters are made of. */
  function Kept(header: seq<int>): (r: seq<int>)
    ensures forall k | 0 <= k < |r| :: Manual.InField(r[k])
  {
    if header == [] then []
    else Kept(header[..|header| - 1]) + if Manual.InField(header[|header| - 1]) then [header[|header| - 1]] else []
  }

  lemma {:induction false} HeaderCollected(header: seq<int>)
    ensures forall k | 0 <= k < |Kept(header)| :: IsParameterByte(Kept(header)[k])
    ensures HeaderParameters(header) == CollectAll(FreshLanguage(), Kept(header))
  {
    hide CollectParameterByte;
    if header != [] {
      var front, byte := header[..|header| - 1], header[|header| - 1];
      HeaderCollected(front);
      if IsParameterByte(byte) {
        CollectOneMore(FreshLanguage(), Kept(front), byte);
      } else {
        assert Kept(header) == Kept(front);
      }
    }
  }

  lemma {:induction false} HeaderIsRead(header: seq<int>, fields: seq<seq<int>>)
    requires Manual.AreFields(fields) && Manual.FieldsText(fields) == Kept(header)
    ensures Reads(Manual.Begin(fields), Start(BeginLanguage(header)), false)
  {
    hide IsPixel, DefaultRegister, Manual.DefaultColour;
    HeaderCollected(header);
    FieldsCollected(FreshLanguage(), fields);
    forall i: nat | i < 256
      ensures IsColour(DefaultRegister(i), Manual.DefaultColour(i))
    {
      DefaultIsColour(i);
    }
    var p := Start(BeginLanguage(header));
    NothingPending(p);
    BlankIsPixel();
    hide CollectAll, HeaderParameters;
  }

  lemma {:induction false} BlankIsPixel()
    ensures IsPixel(0, Manual.None)
  {
  }

  /** The painter reads every string as the manual does. */
  lemma {:induction false} StringIsRead(header: seq<int>, fields: seq<seq<int>>, tokens: seq<Manual.Token>)
    requires Manual.AreFields(fields) && Manual.FieldsText(fields) == Kept(header) && Manual.Proper(tokens)
    ensures Reads(Manual.Meaning(fields, tokens), PaintAll(Start(BeginLanguage(header)), Manual.Text(tokens)),
                  tokens != [] && tokens[|tokens| - 1].IsCommand())
  {
    hide Reads, Manual.Step, PaintByte;
    if tokens == [] {
      HeaderIsRead(header, fields);
    } else {
      var front, last := tokens[..|tokens| - 1], tokens[|tokens| - 1];
      StringIsRead(header, fields, front);
      var p := PaintAll(Start(BeginLanguage(header)), Manual.Text(front));
      TokenIsRead(Manual.Meaning(fields, front), p, front, last);
      PaintAllConcat(Start(BeginLanguage(header)), Manual.Text(front), Manual.TokenText(last));
    }
  }

  /** What is published is what the manual shows. */
  lemma {:induction false} PublishedIsShown(m: Manual.Picture, q: Painter, px: int, py: int)
    requires SamePicture(m, q)
    ensures IsPixel(Published(q, px, py), Manual.Shown(m, px, py))
  {
    assert IsPixel(q.image(px, py), m.image(px, py));
    assert IsColour(q.lang.registers[0], m.palette[0]);
  }
}
