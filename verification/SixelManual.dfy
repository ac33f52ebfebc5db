/** What a sixel string means, told from the language alone (VT330/VT340 Programmer
    Reference Manual, volume 2, chapter 14): a string is a sequence of tokens, a command's
    parameters are decimal fields, and each token changes a picture. It shares no
    definition with the decoder. */
module SixelManual {
  datatype Option<T> = None | Some(value: T)

  /** Channels from 0 to 255. */
  datatype Rgb = Rgb(red: nat, green: nat, blue: nat)

  /** The fields of a command are the digits between its semicolons; a sixel is its six
      bits; any byte that is neither is without meaning. */
  datatype Token =
    | Repeat(fields: seq<seq<int>>)
    | Colour(fields: seq<seq<int>>)
    | Raster(fields: seq<seq<int>>)
    | Sixel(bits: nat)
    | CarriageReturn
    | NewLine
    | Other(byte: int)
  {
    predicate IsCommand() { Repeat? || Colour? || Raster? }
  }

  // ---- Tokens as bytes -------------------------------------------------------------

  predicate IsDigit(byte: int) { '0' as int <= byte <= '9' as int }

  predicate IsField(digits: seq<int>) {
    forall k | 0 <= k < |digits| :: IsDigit(digits[k])
  }

  predicate AreFields(fields: seq<seq<int>>) {
    fields != [] && forall k | 0 <= k < |fields| :: IsField(fields[k])
  }

  /** The fields with a semicolon between each two. */
  function FieldsText(fields: seq<seq<int>>): seq<int> {
    if |fields| <= 1 then (if fields == [] then [] else fields[0])
    else FieldsText(fields[..|fields| - 1]) + [';' as int] + fields[|fields| - 1]
  }

  function TokenText(t: Token): seq<int> {
    match t
    case Repeat(fields) => ['!' as int] + FieldsText(fields)
    case Colour(fields) => ['#' as int] + FieldsText(fields)
    case Raster(fields) => ['"' as int] + FieldsText(fields)
    case Sixel(bits) => ['?' as int + bits]
    case CarriageReturn => ['$' as int]
    case NewLine => ['-' as int]
    case Other(byte) => [byte]
  }

  function Text(tokens: seq<Token>): seq<int> {
    if tokens == [] then [] else Text(tokens[..|tokens| - 1]) + TokenText(tokens[|tokens| - 1])
  }

  predicate TokenOk(t: Token) {
    match t
    case Repeat(fields) => AreFields(fields)
    case Colour(fields) => AreFields(fields)
    case Raster(fields) => AreFields(fields)
    case Sixel(bits) => bits < 64
    case CarriageReturn => true
    case NewLine => true
    case Other(byte) =>
      && !('?' as int <= byte <= '~' as int)
      && byte !in {'!' as int, '#' as int, '"' as int, '$' as int, '-' as int}
  }

  predicate InField(byte: int) { IsDigit(byte) || byte == ';' as int }

  /** Digits and semicolons that follow a command are its parameters. */
  predicate MayFollow(before: seq<Token>, t: Token) {
    t.Other? && InField(t.byte) ==> before == [] || !before[|before| - 1].IsCommand()
  }

  predicate Proper(tokens: seq<Token>) {
    tokens == []
    || (Proper(tokens[..|tokens| - 1]) && TokenOk(tokens[|tokens| - 1])
        && MayFollow(tokens[..|tokens| - 1], tokens[|tokens| - 1]))
  }

  // ---- Numbers ------------------------------------------------------------------------

  function Number(digits: seq<int>): int {
    if digits == [] then 0 else Number(digits[..|digits| - 1]) * 10 + (digits[|digits| - 1] - '0' as int)
  }

  lemma {:induction false} NumberIsNat(digits: seq<int>)
    requires IsField(digits)
    ensures Number(digits) >= 0
  {
    if digits != [] {
      NumberIsNat(digits[..|digits| - 1]);
    }
  }

  /** Parameter `k` of a command, the first being 0: 0 when omitted, and at most 32767. */
  function Parameter(fields: seq<seq<int>>, k: nat): (r: nat)
    ensures r <= 32767
  {
    if k >= |fields| || Number(fields[k]) < 0 then 0
    else if Number(fields[k]) > 32767 then 32767
    else Number(fields[k])
  }

  function Decimal(n: nat): seq<int> {
    if n < 10 then ['0' as int + n] else Decimal(n / 10) + ['0' as int + n % 10]
  }

  /** The decimal digits of a number are read as that number. */
  lemma {:induction false} DecimalIsRead(n: nat)
    ensures IsField(Decimal(n)) && Number(Decimal(n)) == n
  {
    if n >= 10 {
      DecimalIsRead(n / 10);
      assert Decimal(n)[..|Decimal(n)| - 1] == Decimal(n / 10);
    } else {
      assert Decimal(n)[..0] == [];
    }
  }

  // ---- Colours --------------------------------------------------------------------------

  /** A percentage, at most 100, as a channel: the nearest of 256 levels. */
  function Level(percent: nat): (c: nat)
    ensures c <= 255 && 100 * c - 50 <= 255 * (if percent > 100 then 100 else percent) < 100 * c + 50
  {
    (255 * (if percent > 100 then 100 else percent) + 50) / 100
  }

  function FromPercent(red: nat, green: nat, blue: nat): Rgb {
    Rgb(Level(red), Level(green), Level(blue))
  }

  /** How far two hues are apart, at most 180 degrees. */
  function HueDistance(hue: nat, other: nat): nat
    requires other < 360
  {
    var turn := (hue + 360 - other) % 360;
    if turn <= 180 then turn else 360 - turn
  }

  /** The share of the chroma that a channel gets: all of it within 60 degrees of the
      channel's own hue, none from 120 on. */
  function ChromaShare(distance: nat): (r: real)
    ensures 0.0 <= r <= 1.0
  {
    if distance <= 60 then 1.0 else if distance >= 120 then 0.0 else 2.0 - distance as real / 60.0
  }

  function Fraction(percent: nat): (r: real)
    ensures 0.0 <= r <= 1.0
  {
    (if percent > 100 then 100 else percent) as real / 100.0
  }

  function Chroma(lightness: real, saturation: real): real {
    (if lightness <= 0.5 then 2.0 * lightness else 2.0 - 2.0 * lightness) * saturation
  }

  /** A channel of a double hexcone colour, whose own hue is `own`. */
  function HlsLevel(hue: nat, own: nat, lightness: nat, saturation: nat): int
    requires own < 360
  {
    var c := Chroma(Fraction(lightness), Fraction(saturation));
    ((Fraction(lightness) - c / 2.0 + c * ChromaShare(HueDistance(hue, own))) * 255.0 + 0.5).Floor
  }

  /** DEC's hue circle has blue at 0, red at 120 and green at 240 degrees. */
  function FromHls(hue: nat, lightness: nat, saturation: nat): (int, int, int) {
    (HlsLevel(hue, 120, lightness, saturation), HlsLevel(hue, 240, lightness, saturation), HlsLevel(hue, 0, lightness, saturation))
  }

  function Channel(v: int): nat { if v < 0 then 0 else v }

  function RgbOf(levels: (int, int, int)): Rgb {
    Rgb(Channel(levels.0), Channel(levels.1), Channel(levels.2))
  }

  /** Sixteen colours, which the colours after them repeat. */
  function DefaultColour(index: nat): Rgb {
    match index % 16
    case 0 => Rgb(0, 0, 0)
    case 1 => Rgb(51, 51, 204)
    case 2 => Rgb(204, 33, 33)
    case 3 => Rgb(51, 204, 51)
    case 4 => Rgb(204, 51, 204)
    case 5 => Rgb(51, 204, 204)
    case 6 => Rgb(204, 204, 51)
    case 7 => Rgb(135, 135, 135)
    case 8 => Rgb(66, 66, 66)
    case 9 => Rgb(84, 84, 153)
    case 10 => Rgb(153, 66, 66)
    case 11 => Rgb(84, 153, 84)
    case 12 => Rgb(153, 84, 153)
    case 13 => Rgb(84, 153, 153)
    case 14 => Rgb(153, 153, 84)
    case _ => Rgb(204, 204, 204)
  }

  // ---- Pictures ---------------------------------------------------------------------------

  type Image = (int, int) -> Option<Rgb>

  /** The picture so far: `count` is how often the next sixel is drawn, `drawn` whether
      sixels have begun. */
  datatype Picture = Picture(
    aspect: nat,
    fill: bool,
    palette: seq<Rgb>,
    pen: nat,
    count: nat,
    drawn: bool,
    x: nat,
    y: nat,
    width: nat,
    height: nat,
    declaredWidth: nat,
    declaredHeight: nat,
    image: Image)
  {
    predicate Valid() {
      |palette| == 256 && pen < 256 && aspect >= 1 && count >= 1
    }
  }

  function Larger(a: nat, b: nat): nat { if a >= b then a else b }

  /** The least whole number of at least 1 that is not less than `n / d`. */
  function RoundedUp(n: nat, d: nat): (r: nat)
    requires d > 0
    ensures r >= 1
    decreases n
  {
    if n <= d then 1 else 1 + RoundedUp(n - d, d)
  }

  /** Bit `row` of a sixel, the top row being the lowest bit. */
  predicate Bit(bits: nat, row: nat)
    decreases row
  {
    if row == 0 then bits % 2 == 1 else Bit(bits / 2, row - 1)
  }

  /** How many rows a sixel reaches down. */
  function Depth(bits: nat): nat {
    if bits == 0 then 0 else 1 + Depth(bits / 2)
  }

  /** A sixel row is `aspect` rows high. */
  predicate Covers(p: Picture, bits: nat, px: int, py: int)
    requires p.aspect >= 1
  {
    && p.x <= px < p.x + p.count && p.y <= py < p.y + 6 * p.aspect
    && Bit(bits, (py - p.y) / p.aspect)
  }

  /** The image with a sixel drawn `count` times from the cursor on. */
  function Drawn(p: Picture, bits: nat): Image
    requires p.Valid()
  {
    (px: int, py: int) => if Covers(p, bits, px, py) then Some(p.palette[p.pen]) else p.image(px, py)
  }

  function Define(p: Picture, fields: seq<seq<int>>): Picture
    requires p.Valid()
  {
    var register := Parameter(fields, 0) % 256;
    var x, y, z := Parameter(fields, 2), Parameter(fields, 3), Parameter(fields, 4);
    p.(pen := register,
       palette :=
         if |fields| < 2 then p.palette
         else if Parameter(fields, 1) == 1 then p.palette[register := RgbOf(FromHls(x, y, z))]
         else if Parameter(fields, 1) == 2 then p.palette[register := FromPercent(x, y, z)]
         else p.palette)
  }

  /** A raster is declared before the first sixel: its aspect ratio, when the denominator
      is not 0, then its width and its height, when they are not 0. */
  function Declare(p: Picture, fields: seq<seq<int>>): Picture
    requires p.Valid()
  {
    var wide, high := Parameter(fields, 2), Parameter(fields, 3);
    var declared := p.(
      aspect := if Parameter(fields, 1) == 0 then p.aspect else RoundedUp(Parameter(fields, 0), Parameter(fields, 1)),
      declaredWidth := if wide == 0 then p.declaredWidth else wide,
      declaredHeight := if high == 0 then p.declaredHeight else high);
    if p.drawn then p
    else if !p.fill then declared
    else declared.(width := Larger(p.width, declared.declaredWidth), height := Larger(p.height, declared.declaredHeight))
  }

  function Draw(p: Picture, bits: nat): Picture
    requires p.Valid()
  {
    p.(drawn := true, x := p.x + p.count,
       width := if bits == 0 then p.width else Larger(p.width, p.x + p.count),
       height := if bits == 0 then p.height else Larger(p.height, p.y + Depth(bits) * p.aspect),
       image := if bits == 0 then p.image else Drawn(p, bits))
  }

  /** What a token does to the picture; a repeat count is for the next token. */
  function Step(p: Picture, t: Token): (r: Picture)
    requires p.Valid()
    ensures r.Valid()
  {
    match t
    case Repeat(fields) => p.(count := Larger(Parameter(fields, 0), 1))
    case Colour(fields) => Define(p, fields).(count := 1)
    case Raster(fields) => Declare(p, fields).(count := 1)
    case Sixel(bits) => Draw(p, bits).(count := 1)
    case CarriageReturn => p.(x := 0, count := 1)
    case NewLine => p.(drawn := true, x := 0, y := p.y + 6 * p.aspect, count := 1)
    case Other(_) => p.(count := 1)
  }

  function Aspect(parameter: nat): nat {
    if parameter == 2 then 5
    else if parameter == 3 || parameter == 4 then 3
    else if parameter <= 6 then 2
    else 1
  }

  /** An image begins with its header's fields: the aspect ratio, and whether the pixels
      no sixel sets show the background. */
  function Begin(header: seq<seq<int>>): (r: Picture)
    ensures r.Valid()
  {
    Picture(Aspect(Parameter(header, 0)), Parameter(header, 1) != 1,
            seq(256, i requires 0 <= i => DefaultColour(i)), 15, 1, false, 0, 0, 0, 0, 0, 0, (_, _) => None)
  }

  /** The picture a string makes. */
  function Meaning(header: seq<seq<int>>, tokens: seq<Token>): (r: Picture)
    ensures r.Valid()
  {
    if tokens == [] then Begin(header) else Step(Meaning(header, tokens[..|tokens| - 1]), tokens[|tokens| - 1])
  }

  /** What the finished picture shows: the background is colour 0 as it is at the end. */
  function Shown(p: Picture, px: int, py: int): Option<Rgb>
    requires p.Valid()
  {
    if p.image(px, py).None? && p.fill then Some(p.palette[0]) else p.image(px, py)
  }

  // ---- Every string has tokens ----------------------------------------------------------------

  lemma {:induction false} MoreDigits(fields: seq<seq<int>>, byte: int)
    requires AreFields(fields) && IsDigit(byte)
    ensures var last := |fields| - 1; var more := fields[last := fields[last] + [byte]];
            AreFields(more) && FieldsText(more) == FieldsText(fields) + [byte]
  {
    var last := |fields| - 1;
    var more := fields[last := fields[last] + [byte]];
    assert more[..last] == fields[..last];
    if |fields| > 1 {
      var front := FieldsText(fields[..last]) + [';' as int];
      assert front + (fields[last] + [byte]) == front + fields[last] + [byte];
    }
  }

  lemma {:induction false} MoreFields(fields: seq<seq<int>>)
    requires AreFields(fields)
    ensures AreFields(fields + [[]]) && FieldsText(fields + [[]]) == FieldsText(fields) + [';' as int]
  {
    assert (fields + [[]])[..|fields|] == fields;
  }

  /** The digits and semicolons of any bytes are fields. */
  lemma {:induction false} SomeFields(bytes: seq<int>) returns (fields: seq<seq<int>>)
    requires forall k | 0 <= k < |bytes| :: InField(bytes[k])
    ensures AreFields(fields) && FieldsText(fields) == bytes
  {
    if bytes == [] {
      fields := [[]];
    } else {
      var front, byte := bytes[..|bytes| - 1], bytes[|bytes| - 1];
      fields := SomeFields(front);
      if IsDigit(byte) {
        MoreDigits(fields, byte);
        fields := fields[|fields| - 1 := fields[|fields| - 1] + [byte]];
      } else {
        MoreFields(fields);
        fields := fields + [[]];
      }
      assert bytes == front + [byte];
    }
  }

  function TokenOf(byte: int): Token {
    if byte == '!' as int then Repeat([[]])
    else if byte == '#' as int then Colour([[]])
    else if byte == '"' as int then Raster([[]])
    else if byte == '$' as int then CarriageReturn
    else if byte == '-' as int then NewLine
    else if '?' as int <= byte <= '~' as int then Sixel(byte - '?' as int)
    else Other(byte)
  }

  function WithFields(t: Token, fields: seq<seq<int>>): Token
    requires t.IsCommand()
  {
    match t
    case Repeat(_) => Repeat(fields)
    case Colour(_) => Colour(fields)
    case Raster(_) => Raster(fields)
  }

  lemma {:induction false} OneMoreToken(tokens: seq<Token>, t: Token)
    ensures Text(tokens + [t]) == Text(tokens) + TokenText(t)
    ensures Proper(tokens) && TokenOk(t) && MayFollow(tokens, t) ==> Proper(tokens + [t])
  {
    assert (tokens + [t])[..|tokens|] == tokens;
  }

  lemma {:induction false} TokenOfByte(byte: int)
    ensures TokenOk(TokenOf(byte)) && TokenText(TokenOf(byte)) == [byte]
    ensures TokenOf(byte).Other? ==> TokenOf(byte).byte == byte
  {
    assert AreFields([[]]) && FieldsText([[]]) == [];
  }

  /** Every string is the text of tokens. */
  lemma {:induction false} EveryStringHasTokens(bytes: seq<int>) returns (tokens: seq<Token>)
    ensures Proper(tokens) && Text(tokens) == bytes
  {
    hide TokenOf, TokenText, TokenOk, InField;
    if bytes == [] {
      tokens := [];
    } else {
      var front, byte := bytes[..|bytes| - 1], bytes[|bytes| - 1];
      assert bytes == front + [byte];
      tokens := EveryStringHasTokens(front);
      if tokens != [] && tokens[|tokens| - 1].IsCommand() && InField(byte) {
        tokens := LastCommandGrows(tokens, byte);
      } else {
        TokenOfByte(byte);
        OneMoreToken(tokens, TokenOf(byte));
        tokens := tokens + [TokenOf(byte)];
      }
    }
  }

  lemma {:induction false} LastCommandGrows(tokens: seq<Token>, byte: int) returns (more: seq<Token>)
    requires tokens != [] && Proper(tokens) && tokens[|tokens| - 1].IsCommand() && InField(byte)
    ensures Proper(more) && Text(more) == Text(tokens) + [byte]
  {
    var front, last := tokens[..|tokens| - 1], tokens[|tokens| - 1];
    var fields := last.fields;
    if IsDigit(byte) {
      MoreDigits(fields, byte);
      fields := fields[|fields| - 1 := fields[|fields| - 1] + [byte]];
    } else {
      MoreFields(fields);
      fields := fields + [[]];
    }
    var t := WithFields(last, fields);
    assert TokenText(t) == TokenText(last) + [byte];
    OneMoreToken(front, t);
    assert Text(front) + (TokenText(last) + [byte]) == Text(front) + TokenText(last) + [byte];
    more := front + [t];
  }

  // ---- Commands with numbers --------------------------------------------------------------------

  /** Numbers as the fields of a command. */
  function Decimals(numbers: seq<nat>): (r: seq<seq<int>>)
    ensures |r| == |numbers|
  {
    seq(|numbers|, k requires 0 <= k < |numbers| => Decimal(numbers[k]))
  }

  /** The numbers written after a command are its parameters, each at most 32767. */
  lemma {:induction false} NumbersAreRead(numbers: seq<nat>)
    requires numbers != []
    ensures AreFields(Decimals(numbers))
    ensures forall k: nat | k < |numbers| ::
      Parameter(Decimals(numbers), k) == if numbers[k] > 32767 then 32767 else numbers[k]
    ensures forall k: nat | k >= |numbers| :: Parameter(Decimals(numbers), k) == 0
  {
    forall k | 0 <= k < |numbers|
      ensures IsField(Decimals(numbers)[k]) && Number(Decimals(numbers)[k]) == numbers[k]
    {
      DecimalIsRead(numbers[k]);
    }
  }

  lemma {:induction false} OneToken(t: Token)
    requires TokenOk(t) && t.IsCommand()
    ensures Proper([t]) && Text([t]) == TokenText(t)
  {
    assert [t][..0] == [] && Proper([]);
  }

  /** A raster declared square and nothing drawn: with a background, a picture of exactly
      that width and height, empty. */
  lemma {:induction false} RasterAlone(wide: nat, high: nat)
    requires 1 <= wide <= 32767 && 1 <= high <= 32767
    ensures var tokens := [Raster(Decimals([1, 1, wide, high]))];
            && Proper(tokens)
            && Text(tokens) == ['"' as int, '1' as int, ';' as int, '1' as int, ';' as int] + Decimal(wide) + [';' as int] + Decimal(high)
            && Meaning([[]], tokens).width == wide && Meaning([[]], tokens).height == high
            && forall px, py :: Shown(Meaning([[]], tokens), px, py) == Some(Rgb(0, 0, 0))
  {
    var numbers := [1, 1, wide, high];
    var fields := Decimals(numbers);
    NumbersAreRead(numbers);
    OneToken(Raster(fields));
    RasterText(fields);
    assert Decimal(1) == ['1' as int];
    assert [Raster(fields)][..0] == [];
    assert Meaning([[]], [Raster(fields)]) == Step(Begin([[]]), Raster(fields));
    assert Parameter([[]], 0) == 0 && Parameter([[]], 1) == 0;
  }

  lemma {:induction false} RasterText(fields: seq<seq<int>>)
    requires |fields| == 4
    ensures FieldsText(fields) == fields[0] + [';' as int] + fields[1] + [';' as int] + fields[2] + [';' as int] + fields[3]
  {
    assert fields[..3][..2] == fields[..2] && fields[..2][..1] == fields[..1];
    assert FieldsText(fields[..1]) == fields[0];
    assert FieldsText(fields[..2]) == fields[0] + [';' as int] + fields[1];
    assert FieldsText(fields[..3]) == fields[0] + [';' as int] + fields[1] + [';' as int] + fields[2];
  }

  lemma {:induction false} MeaningOfMore(header: seq<seq<int>>, tokens: seq<Token>, t: Token)
    ensures Meaning(header, tokens + [t]) == Step(Meaning(header, tokens), t)
  {
    assert (tokens + [t])[..|tokens|] == tokens;
    hide Step;
  }

  /** `!` and a number before a sixel. */
  lemma {:induction false} RepeatText(header: seq<seq<int>>, before: seq<Token>, n: nat, bits: nat)
    requires Proper(before) && bits < 64
    ensures var tokens := before + [Repeat(Decimals([n]))] + [Sixel(bits)];
            && Proper(tokens) && Text(tokens) == Text(before) + (['!' as int] + Decimal(n)) + ['?' as int + bits]
            && Meaning(header, tokens) == Step(Step(Meaning(header, before), Repeat(Decimals([n]))), Sixel(bits))
  {
    hide Meaning, Step, Text, Proper, Parameter, Decimals, AreFields;
    NumbersAreRead([n]);
    OneMoreToken(before, Repeat(Decimals([n])));
    OneMoreToken(before + [Repeat(Decimals([n]))], Sixel(bits));
    MeaningOfMore(header, before, Repeat(Decimals([n])));
    MeaningOfMore(header, before + [Repeat(Decimals([n]))], Sixel(bits));
    OneField(n);
  }

  lemma {:induction false} OneField(n: nat)
    ensures FieldsText(Decimals([n])) == Decimal(n)
  {
  }

  /** It draws the sixel that often, its lowest bit on top, each row as high as the aspect
      ratio says, in the colour of the pen, and touches nothing else. */
  lemma {:induction false} RepeatedSixel(p: Picture, n: nat, bits: nat, px: int, row: nat, i: nat)
    requires p.Valid() && 1 <= n <= 32767 && 0 < bits < 64 && row < 6 && i < p.aspect
    ensures var m := Step(Step(p, Repeat(Decimals([n]))), Sixel(bits));
            && m.x == p.x + n && m.y == p.y
            && m.image(px, p.y + row * p.aspect + i) ==
                 (if p.x <= px < p.x + n && Bit(bits, row) then Some(p.palette[p.pen]) else p.image(px, p.y + row * p.aspect + i))
    ensures var m := Step(Step(p, Repeat(Decimals([n]))), Sixel(bits));
            forall py: int | py < p.y || p.y + 6 * p.aspect <= py :: m.image(px, py) == p.image(px, py)
  {
    NumbersAreRead([n]);
    assert Parameter(Decimals([n]), 0) == n;
    var q, py := p.(count := n), p.y + row * p.aspect + i;
    assert Step(p, Repeat(Decimals([n]))) == q;
    assert Step(q, Sixel(bits)).image == Drawn(q, bits);
    assert py - p.y == row * p.aspect + i;
    RowOf(row, i, p.aspect);
    assert Covers(q, bits, px, py) <==> p.x <= px < p.x + n && Bit(bits, row);
    assert forall other: int | other < p.y || p.y + 6 * p.aspect <= other :: !Covers(q, bits, px, other);
  }

  lemma {:induction false} RowOf(row: nat, i: nat, aspect: nat)
    requires row < 6 && i < aspect
    ensures (row * aspect + i) / aspect == row && 0 <= row * aspect + i < 6 * aspect
  {
    var d := row * aspect + i;
    var q := d / aspect;
    assert d == q * aspect + d % aspect;
    if q < row {
      RowsApart(q, row, aspect);
    } else if row < q {
      RowsApart(row, q, aspect);
    }
    RowsApart(row, 6, aspect);
  }

  lemma {:induction false} RowsApart(a: nat, b: nat, d: nat)
    requires a < b
    ensures a * d + d <= b * d
  {
    assert b * d == a * d + (b - a) * d;
    assert (b - a) * d == d + (b - a - 1) * d;
  }
}
