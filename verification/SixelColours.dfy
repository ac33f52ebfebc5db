/** The decoder's colours are the manual's: percentages, DEC's hue circle and the default
    registers, byte for byte of a packed pixel. */
module SixelColours {
  import opened SixelLanguage
  import Manual = SixelManual

  /** A packed pixel: its bytes from the lowest are red, green, blue and full opacity; a
      pixel never drawn is 0. */
  predicate IsPixel(color: Color, o: Manual.Option<Manual.Rgb>) {
    match o
    case None => color == 0
    case Some(c) =>
      c.red < 256 && c.green < 256 && c.blue < 256
      && color == 0xff00_0000 + c.blue * 0x1_0000 + c.green * 0x100 + c.red
  }

  predicate IsColour(color: Color, c: Manual.Rgb) {
    IsPixel(color, Manual.Some(c))
  }

  lemma {:induction false} PercentIsColour(red: nat, green: nat, blue: nat)
    ensures IsColour(ColorFromRgbPercent(red, green, blue), Manual.FromPercent(red, green, blue))
  {
  }

  /** The decoder's twelfths of a turn are the hue's degrees from the channel's own hue. */
  lemma {:induction false} TurnIsAngle(n: nat, own: nat, hue: nat)
    requires (n == 0 && own == 120) || (n == 8 && own == 240) || (n == 4 && own == 0)
    ensures var turn := n as real + ((hue % 360 + 240) % 360) as real / 30.0;
            var k := if turn >= 12.0 then turn - 12.0 else turn;
            k * 30.0 == ((hue + 360 - own) % 360) as real
  {
    var h, degrees := hue % 360, (hue % 360 + 240) % 360;
    assert (hue + 360 - own) % 360 == (h + 360 - own) % 360 by {
      assert hue == hue / 360 * 360 + h;
      SameRemainder(hue / 360, h + 360 - own);
      assert hue / 360 * 360 + (h + 360 - own) == hue + 360 - own;
    }
    assert degrees == if h < 120 then h + 240 else h - 120;
    var turn := n as real + degrees as real / 30.0;
    assert turn * 30.0 == (30 * n + degrees) as real;
  }

  lemma {:induction false} SameRemainder(q: nat, r: nat)
    ensures (q * 360 + r) % 360 == r % 360
  {
    if q > 0 {
      SameRemainder(q - 1, r);
      assert q * 360 + r == (q - 1) * 360 + r + 360;
    }
  }

  /** The hue's weight in one form is its chroma share in the other. */
  lemma {:induction false} WeightIsShare(k: real, angle: nat)
    requires k * 30.0 == angle as real && angle < 360
    ensures HueWeight(k) == 1.0 - 2.0 * Manual.ChromaShare(if angle <= 180 then angle else 360 - angle)
  {
    var d := if angle <= 180 then angle else 360 - angle;
    assert 0.0 <= k < 12.0;
    if angle <= 180 {
      assert d as real / 60.0 == k / 2.0;
    } else {
      assert d as real == 360.0 - angle as real;
      assert d as real / 60.0 == 6.0 - k / 2.0;
    }
  }

  lemma {:induction false} ChromaIs(l: real, s: real, w: real, t: real)
    requires 0.0 <= l <= 1.0 && 0.0 <= s <= 1.0 && -1.0 <= w <= 1.0 && w == 1.0 - 2.0 * t
    ensures var c := Manual.Chroma(l, s);
            l - Scaled(Scaled(RealMin(l, 1.0 - l), s), w) == l - c / 2.0 + c * t
  {
    var x := RealMin(l, 1.0 - l) * s;
    assert Manual.Chroma(l, s) == 2.0 * x;
    assert x * w == x - x * (2.0 * t);
    assert (2.0 * x) * t == x * (2.0 * t);
  }

  lemma {:induction false} HslIs(l: real, s: real, k: real, t: real)
    requires 0.0 <= l <= 1.0 && 0.0 <= s <= 1.0 && HueWeight(k) == 1.0 - 2.0 * t
    ensures HslChannel(l, s, k) == l - Manual.Chroma(l, s) / 2.0 + Manual.Chroma(l, s) * t
  {
    hide Scaled, Manual.Chroma, RealMin, HueWeight;
    ChromaIs(l, s, HueWeight(k), t);
  }

  lemma {:induction false} SameFraction(percent: nat)
    ensures PercentAsReal(percent) == Manual.Fraction(percent)
  {
  }

  /** Where on the twelve-part circle a channel reads its colour. */
  lemma {:induction false} TurnOf(n: nat, own: nat, hue: nat) returns (k: real)
    requires (n == 0 && own == 120) || (n == 8 && own == 240) || (n == 4 && own == 0)
    ensures HueWeight(k) == 1.0 - 2.0 * Manual.ChromaShare(Manual.HueDistance(hue, own))
    ensures var turn := n as real + ((hue % 360 + 240) % 360) as real / 30.0;
            k == if turn >= 12.0 then turn - 12.0 else turn
  {
    var turn := n as real + ((hue % 360 + 240) % 360) as real / 30.0;
    k := if turn >= 12.0 then turn - 12.0 else turn;
    TurnIsAngle(n, own, hue);
    WeightIsShare(k, (hue + 360 - own) % 360);
    hide HueWeight, Manual.ChromaShare;
  }

  lemma {:induction false} LevelIs(n: nat, own: nat, hue: nat, lightness: nat, saturation: nat)
    requires (n == 0 && own == 120) || (n == 8 && own == 240) || (n == 4 && own == 0)
    ensures HlsChannel(n, hue, lightness, saturation) == Manual.HlsLevel(hue, own, lightness, saturation)
  {
    hide PercentAsReal, Manual.Fraction, Manual.Chroma, HueWeight, Manual.ChromaShare, HslChannel, Manual.HueDistance;
    var k := TurnOf(n, own, hue);
    SameFraction(lightness);
    SameFraction(saturation);
    HslIs(PercentAsReal(lightness), PercentAsReal(saturation), k, Manual.ChromaShare(Manual.HueDistance(hue, own)));
    var v := HslChannel(PercentAsReal(lightness), PercentAsReal(saturation), k);
    assert HlsChannel(n, hue, lightness, saturation) == RoundedChannel(v);
    assert Manual.HlsLevel(hue, own, lightness, saturation) == (v * 255.0 + 0.5).Floor;
  }

  lemma {:induction false} HlsIsColour(hue: nat, lightness: nat, saturation: nat)
    ensures IsColour(ColorFromHls(hue, lightness, saturation), Manual.RgbOf(Manual.FromHls(hue, lightness, saturation)))
  {
    LevelIs(0, 120, hue, lightness, saturation);
    LevelIs(8, 240, hue, lightness, saturation);
    LevelIs(4, 0, hue, lightness, saturation);
    hide HlsChannel, Manual.HlsLevel;
  }

  lemma {:induction false} DefaultLevels()
    ensures Manual.Level(0) == 0 && Manual.Level(13) == 33 && Manual.Level(20) == 51 && Manual.Level(26) == 66
    ensures Manual.Level(33) == 84 && Manual.Level(53) == 135 && Manual.Level(60) == 153 && Manual.Level(80) == 204
  {
  }

  lemma {:induction false} DefaultIsColour(index: nat)
    ensures IsColour(DefaultRegister(index), Manual.DefaultColour(index))
  {
    hide ColorFromRgbPercent, IsPixel, Manual.Level;
    var c := VT340_COLOR_MAP[index % 16];
    DefaultLevels();
    PercentIsColour(c.0, c.1, c.2);
    assert Manual.FromPercent(c.0, c.1, c.2) == Manual.DefaultColour(index);
  }
}
