/**
 * The slot renderer of `onMessage`: the charge byte of a record chooses one
 * of three looks for its battery slot (empty holder, full, charging), which
 * fixes the wrapper's glow colour, the two bands of the fill gradient and
 * the charge and volt texts.
 */
module SlotRenderer {
  import opened Wrappers
  import opened FrameDecoder
  import Decimal

  datatype Presence = Empty | Full | Charging

  /** The named CSS colours of the fill gradient. */
  datatype Colour = Grey | Green | Red

  /** The centre colour of the wrapper's radial glow, `rgb(red, green, blue)`. */
  datatype Rgb = Rgb(red: int, green: int, blue: int)

  /**
   * The fill `linear-gradient(to top, lower 0% lowerEnd%, upper upperStart% 100%)`:
   * the lower band runs from the bottom to lowerEnd percent, the upper band
   * from upperStart percent to the top.
   */
  datatype Fill = Fill(lower: Colour, lowerEnd: int, upper: Colour, upperStart: int)

  /** Everything one message writes to one slot's four elements. */
  datatype SlotVisual = SlotVisual(presence: Presence, glow: Rgb, fill: Fill, chargeText: string, voltText: string)

  /** `lerp(a, b, t)`: the point a fraction t of the way from a to b. */
  function Lerp(a: real, b: real, t: real): real
  {
    a + (b - a) * t
  }

  /**
   * `Math.round(lerp(a, b, p / 100))` in exact arithmetic: the integer
   * nearest the interpolated value, half-way cases rounding up.
   */
  function RoundLerp(a: int, b: int, p: int): int
  {
    (100 * a + (b - a) * p + 50) / 100
  }

  /** RoundLerp is within one half of the exact interpolation, ties going up. */
  lemma RoundLerpNearest(a: int, b: int, p: int)
    ensures var r := RoundLerp(a, b, p);
      r as real - 0.5 <= Lerp(a as real, b as real, p as real / 100.0) < r as real + 0.5
  {
    var n := 100 * a + (b - a) * p;
    var r := (n + 50) / 100;
    assert 100 * r <= n + 50 < 100 * r + 100;
    assert Lerp(a as real, b as real, p as real / 100.0) == n as real / 100.0;
  }

  /** The red channel of a charging slot's glow: 128 at 0 %, fading to 0 at 100 %. */
  function WrapperRed(p: int): int
  {
    RoundLerp(128, 0, p)
  }

  /**
   * The exact value 128 * (1 - p / 100) is never within 0.02 of a half-way
   * point: it lies within 0.48 of the red channel. So no rounding tie
   * occurs, and the tiny error of the double computation cannot change
   * the rounded result.
   */
  lemma WrapperRedMargin(p: int)
    ensures 100 * WrapperRed(p) - 48 <= 12800 - 128 * p <= 100 * WrapperRed(p) + 48
  {
    var r := WrapperRed(p);
    var n := 12800 - 128 * p;
    assert r == (n + 50) / 100;
    assert 100 * r <= n + 50 < 100 * r + 100;
    var m := 3200 - 32 * p - 25 * r;
    assert n - 100 * r == 4 * m;
    assert -13 < m < 13;
  }

  /** The red channel never grows as the charge grows. */
  lemma WrapperRedAntitone(p: int, q: int)
    requires p <= q
    ensures WrapperRed(q) <= WrapperRed(p)
  {
    var np, nq := 12800 - 128 * p + 50, 12800 - 128 * q + 50;
    assert nq <= np;
    assert WrapperRed(p) == np / 100 && WrapperRed(q) == nq / 100;
  }

  /** For a charge strictly between 0 and 100 the red channel is between 1 and 127. */
  lemma WrapperRedRange(p: int)
    requires 1 <= p <= 99
    ensures 1 <= WrapperRed(p) <= 127
  {
    WrapperRedAntitone(1, p);
    WrapperRedAntitone(p, 99);
    assert WrapperRed(1) == 127 && WrapperRed(99) == 1;
  }

  /** The volt text of a present battery: `(v / 100).toFixed(2) + "V"`, and `"NaNV"` when v is missing. */
  function VoltText(volt: Option<Byte>): string
  {
    (match volt
     case Some(v) => Decimal.FixedTwo(v)
     case None => "NaN") + "V"
  }

  /**
   * The look of one slot. A charge of 0 is an empty holder, 100 a full
   * battery, and every other byte, 101 to 255 included, a charging one.
   */
  function Render(s: Sample): (r: SlotVisual)
    ensures r.presence == Empty <==> s.charge == 0
    ensures r.presence == Full <==> s.charge == 100
    ensures r.presence == Charging ==>
      r.glow.red + r.glow.green == 128 && r.glow.blue == 0 && r.glow.red == WrapperRed(s.charge)
  {
    if s.charge == 0 then
      SlotVisual(Empty, Rgb(48, 48, 48), Fill(Grey, 100, Grey, 100), "-", "")
    else if s.charge == 100 then
      SlotVisual(Full, Rgb(0, 200, 0), Fill(Green, 100, Red, 100), Decimal.NatToString(s.charge), VoltText(s.volt))
    else
      var red := WrapperRed(s.charge);
      SlotVisual(Charging, Rgb(red, 128 - red, 0), Fill(Green, s.charge - 1, Red, s.charge + 1),
                 Decimal.NatToString(s.charge), VoltText(s.volt))
  }

  /** An empty holder shows a grey glow, a grey fill, a dash and no volt text, whatever its volt byte. */
  lemma EmptyIgnoresVolt(slot: nat, v1: Option<Byte>, v2: Option<Byte>)
    ensures Render(Sample(slot, 0, v1)) == Render(Sample(slot, 0, v2))
    ensures var r := Render(Sample(slot, 0, v1));
      r.glow == Rgb(48, 48, 48) && r.fill.lower == r.fill.upper == Grey &&
      r.chargeText == "-" && r.voltText == ""
  {
  }

  /** A full battery glows green and its fill is green to the top: the red band is empty. */
  lemma FullIsAllGreen(s: Sample)
    requires s.charge == 100
    ensures Render(s).glow == Rgb(0, 200, 0)
    ensures Render(s).fill.lower == Green && Render(s).fill.lowerEnd == 100 == Render(s).fill.upperStart
    ensures Render(s).chargeText == "100"
  {
  }

  /**
   * A charging slot's fill is green below and red above a seam exactly 2
   * percent wide centred on the charge.
   */
  lemma ChargingSeam(s: Sample)
    requires s.charge != 0 && s.charge != 100
    ensures var f := Render(s).fill;
      f.lower == Green && f.upper == Red &&
      f.upperStart - f.lowerEnd == 2 && f.lowerEnd + f.upperStart == 2 * s.charge
  {
  }

  /**
   * A charging slot's glow is round(lerp(128, 0, p / 100)) red and the rest
   * of 128 green; between 1 and 99 percent both channels lie in 1..127.
   */
  lemma ChargingGlow(s: Sample)
    requires s.charge != 0 && s.charge != 100
    ensures var g := Render(s).glow;
      g.red as real - 0.5 <= Lerp(128.0, 0.0, s.charge as real / 100.0) < g.red as real + 0.5 &&
      g.green == 128 - g.red && g.blue == 0
    ensures s.charge < 100 ==> 1 <= Render(s).glow.red <= 127 && 1 <= Render(s).glow.green <= 127
  {
    RoundLerpNearest(128, 0, s.charge);
    if s.charge < 100 {
      WrapperRedRange(s.charge);
    }
  }

  /** A present battery's charge text is the numeral of its charge byte, read back to the same number. */
  lemma ChargeTextRoundTrip(s: Sample)
    requires s.charge != 0
    ensures Decimal.IsDigits(Render(s).chargeText)
    ensures Decimal.ValueOf(Render(s).chargeText) == s.charge
  {
    Decimal.NatToStringRoundTrip(s.charge);
  }

  /**
   * A present battery's volt text is the voltage with two decimals followed
   * by "V": the whole volts, a point and two digits that read back to the
   * volt byte in hundredths.
   */
  lemma VoltTextRoundTrip(s: Sample, v: Byte)
    requires s.charge != 0 && s.volt == Some(v)
    ensures var t := Render(s).voltText;
      |t| == 5 && t[|t| - 1] == 'V' && t[|t| - 4] == '.' &&
      Decimal.IsDigits(t[..|t| - 4]) && Decimal.IsDigits(t[|t| - 3..|t| - 1]) &&
      Decimal.ValueOf(t[..|t| - 4]) * 100 + Decimal.ValueOf(t[|t| - 3..|t| - 1]) == v
  {
    var t := Render(s).voltText;
    var f := Decimal.FixedTwo(v);
    assert t == f + "V";
    Decimal.FixedTwoRoundTrip(v);
    assert t[..|t| - 4] == f[..|f| - 3];
    assert t[|t| - 3..|t| - 1] == f[|f| - 2..];
  }

  /** A present battery whose volt byte is missing (the frame's trailing byte) shows "NaNV". */
  lemma MissingVoltIsNaN(s: Sample)
    requires s.charge != 0 && s.volt == None
    ensures Render(s).voltText == "NaNV"
  {
  }

  /** The look of each slot of a frame, in slot order. */
  function RenderFrame(view: seq<Byte>): (visuals: seq<SlotVisual>)
    ensures |visuals| == |Decode(view)|
  {
    var samples := Decode(view);
    seq(|samples|, k requires 0 <= k < |samples| => Render(samples[k]))
  }

  /**
   * Slot k + 1 of a frame is rendered from bytes 2k + 1 and 2k + 2 alone:
   * no other byte, and no other slot, affects it.
   */
  lemma RenderFrameAt(view: seq<Byte>, k: nat)
    requires k < |RenderFrame(view)|
    ensures 2 * k + 1 < |view|
    ensures RenderFrame(view)[k] ==
      Render(Sample(k + 1, view[2 * k + 1], if 2 * k + 2 < |view| then Some(view[2 * k + 2]) else None))
  {
    DecodeAt(view, k);
  }

  /**
   * Two telemetry updates that agree on the two bytes of slot k + 1 render
   * that slot alike, whatever their other bytes and lengths.
   */
  lemma SlotsAreIndependent(view1: seq<Byte>, view2: seq<Byte>, k: nat)
    requires k < |RenderFrame(view1)| && k < |RenderFrame(view2)|
    requires 2 * k + 1 < |view1| && 2 * k + 1 < |view2| && view1[2 * k + 1] == view2[2 * k + 1]
    requires 2 * k + 2 < |view1| <==> 2 * k + 2 < |view2|
    requires 2 * k + 2 < |view1| ==> view1[2 * k + 2] == view2[2 * k + 2]
    ensures RenderFrame(view1)[k] == RenderFrame(view2)[k]
  {
    RenderFrameAt(view1, k);
    RenderFrameAt(view2, k);
  }

  /**
   * A frame whose first byte is not the telemetry opcode, or an empty
   * frame, renders no slot.
   */
  lemma OtherFramesRenderNothing(view: seq<Byte>)
    requires |view| == 0 || view[0] != TelemetryUpdate
    ensures RenderFrame(view) == []
  {
  }

  /**
   * The frame [0, 0, 0, 100, 144, 50, 250] (144 being 400 mod 256) holds
   * three records: an empty slot 1, a full slot 2 at 144 hundredths of a
   * volt and slot 3 at 50 % and 250 hundredths.
   */
  lemma ThreeSlotDecode()
    ensures Decode([0, 0, 0, 100, 144, 50, 250]) ==
      [Sample(1, 0, Some(0)), Sample(2, 100, Some(144)), Sample(3, 50, Some(250))]
  {
    var view: seq<Byte> := [0, 0, 0, 100, 144, 50, 250];
    DecodeLength(view);
    DecodeAt(view, 0);
    DecodeAt(view, 1);
    DecodeAt(view, 2);
  }

  /** The full battery at 144 hundredths shows "100" and "1.44V" under a green glow. */
  lemma FullExample()
    ensures Render(Sample(2, 100, Some(144))) ==
      SlotVisual(Full, Rgb(0, 200, 0), Fill(Green, 100, Red, 100), "100", "1.44V")
  {
    assert Decimal.NatToString(100) == "100";
    assert Decimal.FixedTwo(144) == "1.44";
  }

  /** A battery at 50 % and 250 hundredths glows an even 64/64 and shows "50" and "2.50V". */
  lemma HalfChargedExample()
    ensures Render(Sample(3, 50, Some(250))) ==
      SlotVisual(Charging, Rgb(64, 64, 0), Fill(Green, 49, Red, 51), "50", "2.50V")
  {
    assert WrapperRed(50) == 64;
    assert Decimal.NatToString(50) == "50";
    assert Decimal.FixedTwo(250) == "2.50";
  }
}
