/** The sixel language as the decoder reads it (VT330/VT340 Programmer Reference
    Manual, volume 2, chapter 14): colour registers, command parameters and the
    part of a command's effect that does not touch the picture. The reference
    painter and the decoder share these definitions. */
module SixelLanguage {
  const PARAMETER_LIMIT := 32767
  const REGISTER_COUNT := 256
  const PARAMETER_COUNT := 5
  const DEFAULT_REGISTER := 15
  const SIXEL_ROWS := 6

  /** A pixel of a raster: 0 is a pixel no sixel has set. */
  type Color = nat

  /** A packed opaque colour. */
  type Paint = c: nat | c != 0 witness 1

  type Channel = c: nat | c < 256

  function Min(a: int, b: int): int { if a <= b then a else b }

  function Max(a: int, b: int): int { if a >= b then a else b }

  /** The number of pixels of a picture. */
  function Area(width: nat, height: nat): nat { width * height }

  /** The byte-ordered packing on a little-endian host. */
  function PackRgba8(red: Channel, green: Channel, blue: Channel): Paint {
    red + green * 0x100 + blue * 0x1_0000 + 0xff00_0000
  }

  function ChannelFromPercent(percent: nat): Channel {
    (Min(percent, 100) * 255 + 50) / 100
  }

  function ColorFromRgbPercent(red: nat, green: nat, blue: nat): Paint {
    PackRgba8(ChannelFromPercent(red), ChannelFromPercent(green), ChannelFromPercent(blue))
  }

  function RealMin(a: real, b: real): real { if a <= b then a else b }

  function RealMax(a: real, b: real): real { if a >= b then a else b }

  /** The usual HSL channel for lightness `l`, saturation `s` and the channel's
      position `k` on the twelve-part hue circle. */
  function HslChannel(l: real, s: real, k: real): (v: real)
    requires 0.0 <= l <= 1.0 && 0.0 <= s <= 1.0
    ensures 0.0 <= v <= 1.0
  {
    l - Scaled(Scaled(RealMin(l, 1.0 - l), s), HueWeight(k))
  }

  /** A product with a factor that does not enlarge. */
  function Scaled(a: real, m: real): (r: real)
    requires 0.0 <= a && -1.0 <= m <= 1.0
    ensures -a <= r <= a
    ensures 0.0 <= m ==> 0.0 <= r
  {
    NonNegativeProduct(a, 1.0 - m);
    NonNegativeProduct(a, 1.0 + m);
    assert a * (1.0 - m) == a - a * m;
    assert a * (1.0 + m) == a + a * m;
    a * m
  }

  lemma {:induction false} NonNegativeProduct(a: real, b: real)
    requires 0.0 <= a && 0.0 <= b
    ensures 0.0 <= a * b
  {
  }

  function HueWeight(k: real): (m: real)
    ensures -1.0 <= m <= 1.0
  {
    RealMax(-1.0, RealMin(RealMin(k - 3.0, 9.0 - k), 1.0))
  }

  function PercentAsReal(percent: nat): (r: real)
    ensures 0.0 <= r <= 1.0
  {
    Min(percent, 100) as real / 100.0
  }

  function RoundedChannel(v: real): Channel
    requires 0.0 <= v <= 1.0
  {
    (v * 255.0 + 0.5).Floor
  }

  /** One channel of a colour on DEC's hue circle, which has blue at 0 degrees;
      `n` is 0 for red, 8 for green and 4 for blue. */
  function HlsChannel(n: nat, hue: nat, lightness: nat, saturation: nat): Channel {
    var degrees := (hue % 360 + 240) % 360;
    var turn := n as real + degrees as real / 30.0;
    var k := if turn >= 12.0 then turn - 12.0 else turn;
    RoundedChannel(HslChannel(PercentAsReal(lightness), PercentAsReal(saturation), k))
  }

  function ColorFromHls(hue: nat, lightness: nat, saturation: nat): Paint {
    PackRgba8(
      HlsChannel(0, hue, lightness, saturation),
      HlsChannel(8, hue, lightness, saturation),
      HlsChannel(4, hue, lightness, saturation))
  }

  /** Red, green and blue shares, of 100, of a VT340's sixteen registers when it is reset. */
  const VT340_COLOR_MAP: seq<(nat, nat, nat)> := [
    (0, 0, 0), (20, 20, 80), (80, 13, 13), (20, 80, 20),
    (80, 20, 80), (20, 80, 80), (80, 80, 20), (53, 53, 53),
    (26, 26, 26), (33, 33, 60), (60, 26, 26), (33, 60, 33),
    (60, 33, 60), (33, 60, 60), (60, 60, 33), (80, 80, 80)]

  function DefaultRegister(index: nat): Paint {
    var c := VT340_COLOR_MAP[index % 16];
    ColorFromRgbPercent(c.0, c.1, c.2)
  }

  function DefaultRegisters(): (r: seq<Paint>)
    ensures |r| == REGISTER_COUNT
  {
    seq(REGISTER_COUNT, i requires 0 <= i => DefaultRegister(i))
  }

  function AspectFromMacroParameter(parameter: nat): nat {
    match parameter
    case 0 => 2
    case 1 => 2
    case 5 => 2
    case 6 => 2
    case 2 => 5
    case 3 => 3
    case 4 => 3
    case _ => 1
  }

  datatype Command = NoCommand | Repeat | ColorIntroducer | RasterAttributes

  datatype Language = Language(
    registers: seq<Paint>,
    selected: nat,
    command: Command,
    parameters: seq<nat>,
    parameterIndex: nat,
    aspect: nat,
    backgroundFill: bool,
    locked: bool,
    declaredWidth: nat,
    declaredHeight: nat)
  {
    predicate Valid() {
      && |registers| == REGISTER_COUNT
      && selected < REGISTER_COUNT
      && |parameters| == PARAMETER_COUNT
      && (forall i | 0 <= i < PARAMETER_COUNT :: parameters[i] <= PARAMETER_LIMIT)
      && parameterIndex <= PARAMETER_COUNT
      && 1 <= aspect <= PARAMETER_LIMIT
      && declaredWidth <= PARAMETER_LIMIT
      && declaredHeight <= PARAMETER_LIMIT
    }
  }

  /** The members' values before any image begins. */
  function FreshLanguage(): Language {
    Language(DefaultRegisters(), 0, NoCommand, [0, 0, 0, 0, 0], 0, 1, true, false, 0, 0)
  }

  /** The parameters a device control string's header carries. */
  function HeaderParameters(header: seq<int>): (l: Language)
    ensures l.Valid()
    decreases |header|
  {
    if header == [] then FreshLanguage()
    else
      var rest, byte := HeaderParameters(header[..|header| - 1]), header[|header| - 1];
      LanguageStaysValid(rest, byte);
      if IsParameterByte(byte) then CollectParameterByte(rest, byte) else rest
  }

  /** The language state in which an image begins. */
  function BeginLanguage(header: seq<int>): (l: Language)
    ensures l.Valid()
  {
    var p := HeaderParameters(header).parameters;
    Language(DefaultRegisters(), DEFAULT_REGISTER, NoCommand, [0, 0, 0, 0, 0], 0,
             AspectFromMacroParameter(p[0]), p[1] != 1, false, 0, 0)
  }

  predicate IsParameterByte(byte: int) {
    0x30 <= byte <= 0x39 || byte == 0x3b
  }

  predicate IsDataByte(byte: int) { 0x3f <= byte <= 0x7e }

  function SixelBits(byte: int): bv8
    requires IsDataByte(byte)
  {
    (byte - 0x3f) as bv8
  }

  function StartCommand(l: Language, command: Command): Language {
    l.(command := command, parameters := [0, 0, 0, 0, 0], parameterIndex := 0)
  }

  function CollectParameterByte(l: Language, byte: int): Language
    requires l.Valid() && IsParameterByte(byte)
  {
    if byte == 0x3b then
      l.(parameterIndex := Min(l.parameterIndex + 1, PARAMETER_COUNT))
    else if l.parameterIndex < PARAMETER_COUNT then
      var value := Min(l.parameters[l.parameterIndex] * 10 + (byte - 0x30), PARAMETER_LIMIT);
      l.(parameters := l.parameters[l.parameterIndex := value])
    else l
  }

  function ApplyColorIntroducer(l: Language): Language
    requires l.Valid()
  {
    var register := l.parameters[0] % REGISTER_COUNT;
    var x, y, z := l.parameters[2], l.parameters[3], l.parameters[4];
    var registers :=
      if l.parameterIndex > 0 && l.parameters[1] == 1 then l.registers[register := ColorFromHls(x, y, z)]
      else if l.parameterIndex > 0 && l.parameters[1] == 2 then l.registers[register := ColorFromRgbPercent(x, y, z)]
      else l.registers;
    l.(registers := registers, selected := register)
  }

  /** How often finishing the pending command makes the next sixel repeat. */
  function RepeatCount(l: Language): (r: nat)
    requires l.Valid()
    ensures 1 <= r <= PARAMETER_LIMIT
  {
    if l.command == Repeat then Max(l.parameters[0], 1) else 1
  }

  /** Whether finishing the pending command declares a raster. */
  predicate DeclaresRaster(l: Language) {
    l.command == RasterAttributes && !l.locked
  }

  function AspectFromRatio(l: Language): nat
    requires l.Valid()
  {
    var numerator, denominator := l.parameters[0], l.parameters[1];
    if denominator > 0 then Max(1, (numerator + denominator - 1) / denominator) else l.aspect
  }

  function DeclareRaster(l: Language): Language
    requires l.Valid()
  {
    l.(aspect := AspectFromRatio(l),
       declaredWidth := if l.parameters[2] > 0 then l.parameters[2] else l.declaredWidth,
       declaredHeight := if l.parameters[3] > 0 then l.parameters[3] else l.declaredHeight)
  }

  function FinishCommand(l: Language): Language
    requires l.Valid()
  {
    if l.command == ColorIntroducer then
      ApplyColorIntroducer(l).(command := NoCommand)
    else if DeclaresRaster(l) then
      DeclareRaster(l).(command := NoCommand)
    else
      l.(command := NoCommand)
  }

  /** The command a byte starts when it is neither a parameter nor a sixel. */
  function StartedBy(l: Language, byte: int): Language {
    if byte == 0x21 then StartCommand(l, Repeat)
    else if byte == 0x23 then StartCommand(l, ColorIntroducer)
    else if byte == 0x22 then StartCommand(l, RasterAttributes)
    else l
  }

  lemma {:induction false} LanguageStaysValid(l: Language, byte: int)
    requires l.Valid()
    ensures FinishCommand(l).Valid() && FinishCommand(l).locked == l.locked
    ensures FinishCommand(l).backgroundFill == l.backgroundFill
    ensures l.locked ==> FinishCommand(l).aspect == l.aspect
    ensures IsParameterByte(byte) ==> CollectParameterByte(l, byte).Valid()
    ensures StartedBy(l, byte).Valid()
  {
    hide ApplyColorIntroducer, DeclareRaster;
    ColorStaysValid(l);
    RasterStaysValid(l);
  }

  lemma {:induction false} ColorStaysValid(l: Language)
    requires l.Valid()
    ensures ApplyColorIntroducer(l).Valid()
    ensures var r := ApplyColorIntroducer(l); r == l.(registers := r.registers, selected := r.selected)
  {
    hide ColorFromHls, ColorFromRgbPercent;
  }

  lemma {:induction false} RasterStaysValid(l: Language)
    requires l.Valid()
    ensures DeclareRaster(l).Valid() && DeclareRaster(l).locked == l.locked
    ensures DeclareRaster(l).backgroundFill == l.backgroundFill
  {
    var n, d := l.parameters[0], l.parameters[1];
    if d > 0 {
      RoundedRatio(n, d);
    }
  }

  lemma {:induction false} RoundedRatio(n: nat, d: nat)
    requires 0 < d
    ensures (n + d - 1) / d <= n
  {
    var q := (n + d - 1) / d;
    assert q * d <= n + d - 1;
    AtMost(q, n, d);
  }

  lemma {:induction false} AtMost(q: nat, n: nat, d: nat)
    requires 0 < d && q * d <= n + d - 1
    ensures q <= n
  {
    if n < q {
      Above(q, n, d);
    }
  }

  lemma {:induction false} Above(q: nat, n: nat, d: nat)
    requires 0 < d && n < q
    ensures n + d <= q * d
  {
    ProductMonotone(n + 1, q, d);
    ProductMonotone(1, d, n);
    assert (n + 1) * d == n * d + d && d * n == n * d;
  }

  lemma {:induction false} ProductMonotone(a: nat, b: nat, c: nat)
    requires a <= b
    ensures a * c <= b * c
  {
  }

  // ---- The six bits of a sixel, least significant on top -------------------

  function BitMask(bit: nat): bv8
    requires bit < SIXEL_ROWS
  {
    if bit == 0 then 1 else if bit == 1 then 2 else if bit == 2 then 4
    else if bit == 3 then 8 else if bit == 4 then 16 else 32
  }

  predicate BitSet(bits: bv8, bit: nat)
    requires bit < SIXEL_ROWS
  {
    bits & BitMask(bit) != 0
  }

  /** How many of the lowest `count` bits are set. */
  function PopBelow(bits: bv8, count: nat): nat
    requires count <= SIXEL_ROWS
  {
    if count == 0 then 0 else PopBelow(bits, count - 1) + if BitSet(bits, count - 1) then 1 else 0
  }

  function PopCount(bits: bv8): nat { PopBelow(bits, SIXEL_ROWS) }

  /** std::bit_width of a sixel: one past its highest set bit. */
  function BitWidth(bits: bv8): (r: nat)
    ensures r <= SIXEL_ROWS
  {
    if BitSet(bits, 5) then 6 else if BitSet(bits, 4) then 5 else if BitSet(bits, 3) then 4
    else if BitSet(bits, 2) then 3 else if BitSet(bits, 1) then 2 else if BitSet(bits, 0) then 1 else 0
  }

  lemma {:induction false} UnionOfBits(a: bv8, b: bv8)
    ensures forall bit | 0 <= bit < SIXEL_ROWS :: BitSet(a | b, bit) <==> BitSet(a, bit) || BitSet(b, bit)
  {
    forall bit | 0 <= bit < SIXEL_ROWS
      ensures BitSet(a | b, bit) <==> BitSet(a, bit) || BitSet(b, bit)
    {
      var m := BitMask(bit);
      assert (a | b) & m == (a & m) | (b & m);
    }
  }

  /** The device rows of a set bit end where the sixel's drawn rows end or before. */
  lemma {:induction false} SetBitFits(bits: bv8, bit: nat, aspect: nat)
    requires bit < SIXEL_ROWS && BitSet(bits, bit) && 1 <= aspect
    ensures RowsBefore(bit, aspect) < RowsBefore(bit + 1, aspect) <= RowsBefore(BitWidth(bits), aspect)
  {
  }

  lemma {:induction false} SomeBitSet(byte: int)
    requires IsDataByte(byte)
    ensures byte == 0x3f <==> SixelBits(byte) == 0
    ensures SixelBits(byte) != 0 ==> BitWidth(SixelBits(byte)) >= 1
  {
    var bits := SixelBits(byte);
    assert bits < 64;
    assert bits == 0 || BitSet(bits, 0) || BitSet(bits, 1) || BitSet(bits, 2)
        || BitSet(bits, 3) || BitSet(bits, 4) || BitSet(bits, 5);
  }

  // ---- Device rows of a band ------------------------------------------------

  /** Which of a band's six sixel rows its device row `d` belongs to. */
  function BandIndex(d: int, aspect: nat): nat {
    if d < aspect then 0 else if d < 2 * aspect then 1 else if d < 3 * aspect then 2
    else if d < 4 * aspect then 3 else if d < 5 * aspect then 4 else 5
  }

  /** Whether device row `d` of a band is the first of its sixel row. */
  predicate FirstOfRow(d: int, aspect: nat) {
    d == 0 || d == aspect || d == 2 * aspect || d == 3 * aspect || d == 4 * aspect || d == 5 * aspect
  }

  /** `bit` rows of `aspect`, written so that every product is by a constant. */
  function RowsBefore(bit: nat, aspect: nat): (r: nat)
    requires bit <= SIXEL_ROWS
    ensures r == bit * aspect
  {
    if bit == 0 then 0 else if bit == 1 then aspect else if bit == 2 then 2 * aspect
    else if bit == 3 then 3 * aspect else if bit == 4 then 4 * aspect
    else if bit == 5 then 5 * aspect else 6 * aspect
  }

  lemma {:induction false} BandIndexBounds(d: int, aspect: nat)
    requires 0 <= d < 6 * aspect
    ensures BandIndex(d, aspect) < SIXEL_ROWS
    ensures RowsBefore(BandIndex(d, aspect), aspect) <= d < RowsBefore(BandIndex(d, aspect), aspect) + aspect
    ensures FirstOfRow(d, aspect) <==> d == RowsBefore(BandIndex(d, aspect), aspect)
  {
  }

  lemma {:induction false} FirstRowIndex(bit: nat, aspect: nat)
    requires bit < SIXEL_ROWS && 1 <= aspect
    ensures BandIndex(RowsBefore(bit, aspect), aspect) == bit
    ensures FirstOfRow(RowsBefore(bit, aspect), aspect)
    ensures RowsBefore(bit, aspect) + aspect == RowsBefore(bit + 1, aspect) <= 6 * aspect
  {
  }
}
