/** The picker's state record and its edit transitions
    (src/components/ColorPicker.js, lines 4-9 and 88-129, and the slider and preset handlers).
    Each React handler becomes one pure transition that returns the next state and the
    string, if any, passed to `onColorChange`. The HSL effect is a transition of its own. */
module Picker {
  import opened Wrappers
  import opened Colour
  import opened Hex
  import opened HslConvert

  /** The five `useState` cells the conversions touch. */
  datatype PickerState = PickerState(hue: int, saturation: int, lightness: int, hex: string, rgb: Rgb)

  /** The state after a transition, and the argument of the `onColorChange` call it made. */
  datatype Step = Step(state: PickerState, notified: Option<string>)

  /** The `useState` defaults. */
  const Initial := PickerState(249, 78, 73, "#667eea", Rgb(102, 126, 234))

  /** The preset swatches, as written (upper case). */
  const Presets: seq<string> := [
    "#FF6B6B", "#4ECDC4", "#45B7D1", "#FFA07A",
    "#98D8C8", "#F7DC6F", "#BB8FCE", "#85C1E2",
    "#F1948A", "#52BE80", "#F39C12", "#8E44AD"
  ]

  /** `/^#[0-9A-Fa-f]{0,6}$/`: a '#' and up to six hex digits, the text a user may be typing.
      At full length it is exactly a '#'-led text that `hexToRgb` accepts. */
  predicate IsPartialHex(v: string): (b: bool)
    ensures |v| == 7 ==> (b <==> v[0] == '#' && IsHexColourText(v))
  {
    1 <= |v| <= 7 && v[0] == '#' && AllHexDigits(v[1..])
  }

  /** Typing goes through partial hex one character at a time: cutting the last character off
      a longer partial hex leaves partial hex, and adding a hex digit to a shorter one gives
      partial hex. */
  lemma PartialHexPrefixes(v: string, d: char)
    ensures IsPartialHex(v) && 2 <= |v| ==> IsPartialHex(v[..|v| - 1])
    ensures IsPartialHex(v) && |v| < 7 && IsHexDigit(d) ==> IsPartialHex(v + [d])
  {
    if IsPartialHex(v) && 2 <= |v| {
      assert v[..|v| - 1][1..] == v[1..][..|v| - 2];
    }
    if IsPartialHex(v) && |v| < 7 && IsHexDigit(d) {
      assert (v + [d])[1..] == v[1..] + [d];
    }
  }

  /** The three views agree the way the HSL effect leaves them. */
  predicate Settled(st: PickerState) {
    st.rgb == HslToRgb(st.hue, st.saturation, st.lightness) && st.hex == RgbToHex(st.rgb)
  }

  /** What every reachable state satisfies: HSL inside the slider ranges, RGB channels in
      [0, 255], and hex text the hex box would accept. */
  predicate WellFormed(st: PickerState) {
    && 0 <= st.hue <= 360 && 0 <= st.saturation <= 100 && 0 <= st.lightness <= 100
    && ValidRgb(st.rgb)
    && IsPartialHex(st.hex)
  }

  /** A complete hex text in the box always parses, so the `if (newRgb)` guard of the hex
      handler never fails. */
  lemma CompleteHexAlwaysParses(v: string)
    requires IsPartialHex(v) && |v| == 7
    ensures HexToRgb(v).Some?
  {
    assert IsHexColourText(v);
  }

  // ---------------------------------------------------------------------------
  // The HSL effect
  // ---------------------------------------------------------------------------

  /** The effect on `[hue, saturation, lightness, onColorChange]`: recompute RGB and hex from
      HSL and report the hex. */
  function ResyncFromHsl(st: PickerState): (r: Step)
    ensures r.state.hue == st.hue && r.state.saturation == st.saturation
    ensures r.state.lightness == st.lightness
    ensures Settled(r.state)
    ensures r.notified == Some(r.state.hex)
    ensures Settled(st) ==> r.state == st
    ensures 0 <= st.saturation <= 100 && 0 <= st.lightness <= 100 ==>
      IsLowerHexColour(r.state.hex) && HexToRgb(r.state.hex) == Some(r.state.rgb)
    ensures WellFormed(st) ==> WellFormed(r.state)
  {
    var rgb := HslToRgb(st.hue, st.saturation, st.lightness);
    var hex := RgbToHex(rgb);
    assert ValidRgb(rgb) ==> HexToRgb(hex) == Some(rgb) && IsPartialHex(hex) by {
      if ValidRgb(rgb) {
        HexRoundTrip(rgb);
        LowerColourIsPartialHex(hex);
      }
    }
    Step(st.(rgb := rgb, hex := hex), Some(hex))
  }

  lemma LowerColourIsPartialHex(t: string)
    requires IsLowerHexColour(t)
    ensures IsPartialHex(t)
  {
  }

  // ---------------------------------------------------------------------------
  // Edit handlers
  // ---------------------------------------------------------------------------

  /** `handleHexChange`: text that is not partial hex is ignored; partial hex is stored as
      typed; a complete colour also sets RGB and HSL and is reported as typed. */
  function HandleHexChange(st: PickerState, value: string): (r: Step)
    ensures !IsPartialHex(value) ==> r == Step(st, None)
    ensures IsPartialHex(value) && |value| < 7 ==> r == Step(st.(hex := value), None)
    ensures r.notified.Some? <==> IsPartialHex(value) && |value| == 7
    ensures r.notified.Some? ==>
      && r.notified == Some(value)
      && r.state.hex == value
      && HexToRgb(value) == Some(r.state.rgb)
      && Hsl(r.state.hue, r.state.saturation, r.state.lightness) == RgbToHsl(r.state.rgb)
    ensures WellFormed(st) ==> WellFormed(r.state)
  {
    if !IsPartialHex(value) then Step(st, None)
    else if |value| == 7 then
      CompleteHexAlwaysParses(value);
      match HexToRgb(value)
      case Some(rgb) =>
        var hsl := RgbToHsl(rgb);
        Step(st.(hex := value, rgb := rgb, hue := hsl.h, saturation := hsl.s, lightness := hsl.l),
             Some(value))
      case None => Step(st.(hex := value), None)
    else Step(st.(hex := value), None)
  }

  /** `parseInt(value) || 0`: a failed parse (NaN, the only other falsy result besides 0)
      gives 0. The parse itself is the caller's: `parsed` is its result, `None` standing for NaN. */
  function ParsedOrZero(parsed: Option<int>): (n: int)
    ensures parsed.Some? ==> n == parsed.value
    ensures parsed.None? ==> n == 0
  {
    match parsed
    case Some(v) => v
    case None => 0
  }

  /** `Math.min(255, Math.max(0, n))` */
  function ClampChannel(n: int): (v: int)
    ensures 0 <= v <= 255
    ensures 0 <= n <= 255 ==> v == n
    ensures n > 255 ==> v == 255
    ensures n < 0 ==> v == 0
  {
    var atLeastZero := if n > 0 then n else 0;
    if atLeastZero < 255 then atLeastZero else 255
  }

  /** `handleRgbChange(component, value)`: set one channel to the clamped parse and recompute
      HSL and hex from the new RGB. */
  function HandleRgbChange(st: PickerState, ch: Channel, parsed: Option<int>): (r: Step)
    requires ValidRgb(st.rgb)
    ensures ChannelOf(r.state.rgb, ch) == ClampChannel(ParsedOrZero(parsed))
    ensures forall other :: other != ch ==> ChannelOf(r.state.rgb, other) == ChannelOf(st.rgb, other)
    ensures ValidRgb(r.state.rgb)
    ensures Hsl(r.state.hue, r.state.saturation, r.state.lightness) == RgbToHsl(r.state.rgb)
    ensures IsLowerHexColour(r.state.hex) && HexToRgb(r.state.hex) == Some(r.state.rgb)
    ensures r.notified == Some(r.state.hex)
    ensures WellFormed(st) ==> WellFormed(r.state)
  {
    var value := ClampChannel(ParsedOrZero(parsed));
    var rgb := WithChannel(st.rgb, ch, value);
    assert ValidRgb(rgb) by {
      assert forall k :: 0 <= ChannelOf(rgb, k) <= 255;
    }
    var hsl := RgbToHsl(rgb);
    var hex := RgbToHex(rgb);
    HexRoundTrip(rgb);
    LowerColourIsPartialHex(hex);
    Step(st.(rgb := rgb, hue := hsl.h, saturation := hsl.s, lightness := hsl.l, hex := hex), Some(hex))
  }

  /** The preset button's `onClick` for the swatch at `index`. */
  function PresetClick(st: PickerState, index: nat): (r: Step)
    requires index < |Presets|
    ensures r.notified == Some(Presets[index])
    ensures r.state.hex == Presets[index] && HexToRgb(r.state.hex) == Some(r.state.rgb)
    ensures Hsl(r.state.hue, r.state.saturation, r.state.lightness) == RgbToHsl(r.state.rgb)
    ensures WellFormed(st) ==> WellFormed(r.state)
  {
    var preset := Presets[index];
    PresetsAreCompleteHex(index);
    match HexToRgb(preset)
    case Some(rgb) =>
      var hsl := RgbToHsl(rgb);
      Step(st.(rgb := rgb, hex := preset, hue := hsl.h, saturation := hsl.s, lightness := hsl.l),
           Some(preset))
    case None => Step(st, None)
  }

  /** Every preset is a complete hex text the hex box would accept. */
  lemma PresetsAreCompleteHex(index: nat)
    requires index < |Presets|
    ensures IsPartialHex(Presets[index]) && |Presets[index]| == 7
    ensures HexToRgb(Presets[index]).Some?
  {
    var p := Presets[index];
    assert AllHexDigits(p[1..]) by {
      forall i | 0 <= i < |p[1..]|
        ensures IsHexDigit(p[1..][i])
      {
        assert p[1..][i] == p[i + 1];
      }
    }
    CompleteHexAlwaysParses(p);
  }

  /** Clicking a preset does exactly what typing that preset into the hex box does. */
  lemma PresetClickIsCompleteHexEdit(st: PickerState, index: nat)
    requires index < |Presets|
    ensures PresetClick(st, index) == HandleHexChange(st, Presets[index])
  {
    PresetsAreCompleteHex(index);
  }

  /** Typing the same text twice leaves the state where typing it once did. */
  lemma HexEditIdempotent(st: PickerState, value: string)
    ensures var once := HandleHexChange(st, value);
      HandleHexChange(once.state, value) == once
  {
  }

  // ---------------------------------------------------------------------------
  // Sliders and whole sessions
  // ---------------------------------------------------------------------------

  /** The three range inputs. */
  datatype Slider = HueSlider | SaturationSlider | LightnessSlider

  /** The `max` attribute of each range input; every `min` is 0. */
  function SliderMax(s: Slider): int {
    match s
    case HueSlider => 360
    case SaturationSlider => 100
    case LightnessSlider => 100
  }

  /** A slider's `onChange`: store the (already in-range) slider value. */
  function SlideTo(st: PickerState, s: Slider, v: int): (r: Step)
    requires 0 <= v <= SliderMax(s)
    ensures r.notified.None?
    ensures s == HueSlider ==> r.state == st.(hue := v)
    ensures s == SaturationSlider ==> r.state == st.(saturation := v)
    ensures s == LightnessSlider ==> r.state == st.(lightness := v)
    ensures r.state.rgb == st.rgb && r.state.hex == st.hex
    ensures WellFormed(st) ==> WellFormed(r.state)
  {
    match s
    case HueSlider => Step(st.(hue := v), None)
    case SaturationSlider => Step(st.(saturation := v), None)
    case LightnessSlider => Step(st.(lightness := v), None)
  }

  /** One thing that can happen to the picker. */
  datatype Event =
    | Slid(slider: Slider, value: int)
    | HexTyped(text: string)
    | RgbTyped(channel: Channel, parsed: Option<int>)
    | PresetClicked(index: nat)
    | HslEffectRan

  /** The browser only produces slider values in range and clicks on existing presets. */
  predicate PossibleEvent(e: Event) {
    match e
    case Slid(s, v) => 0 <= v <= SliderMax(s)
    case PresetClicked(i) => i < |Presets|
    case _ => true
  }

  function Apply(st: PickerState, e: Event): (r: Step)
    requires WellFormed(st) && PossibleEvent(e)
    ensures WellFormed(r.state)
  {
    match e
    case Slid(s, v) => SlideTo(st, s, v)
    case HexTyped(t) => HandleHexChange(st, t)
    case RgbTyped(ch, p) => HandleRgbChange(st, ch, p)
    case PresetClicked(i) => PresetClick(st, i)
    case HslEffectRan => ResyncFromHsl(st)
  }

  /** The state after a sequence of events, in order. */
  function Run(st: PickerState, events: seq<Event>): (final: PickerState)
    requires WellFormed(st)
    requires forall e <- events :: PossibleEvent(e)
    ensures WellFormed(final)
    decreases |events|
  {
    if |events| == 0 then st
    else
      var next := Apply(st, events[0]).state;
      assert forall e <- events[1..] :: e in events;
      Run(next, events[1..])
  }

  /** Every state reachable from the defaults is well formed: in particular its RGB channels
      are in [0, 255], which the RGB handler's call to `rgbToHsl` relies on. */
  lemma ReachableStatesWellFormed(events: seq<Event>)
    requires forall e <- events :: PossibleEvent(e)
    ensures WellFormed(Run(Initial, events))
  {
    InitialWellFormed();
  }

  lemma InitialWellFormed()
    ensures WellFormed(Initial)
  {
    assert AllHexDigits(Initial.hex[1..]) by {
      assert Initial.hex[1..] == "667eea";
    }
  }

  // ---------------------------------------------------------------------------
  // Consequences worth knowing
  // ---------------------------------------------------------------------------

  /** The defaults disagree with each other: hsl(249, 78, 73) is rgb(149, 132, 240), not the
      stored rgb(102, 126, 234). The effect at mount overwrites RGB and hex with #9584f0. */
  lemma InitialStateInconsistent()
    ensures WellFormed(Initial) && !Settled(Initial)
    ensures ResyncFromHsl(Initial).state.rgb == Rgb(149, 132, 240)
    ensures ResyncFromHsl(Initial).notified == Some("#9584f0")
  {
    InitialWellFormed();
    DefaultHslColour();
    DefaultHexText();
  }

  lemma DefaultHexText()
    ensures RgbToHex(Rgb(149, 132, 240)) == "#9584f0"
  {
    assert ByteToHex(149) == "95" by {
      assert ByteToHex(149) == [LowerDigit(9), LowerDigit(5)];
    }
    assert ByteToHex(132) == "84" by {
      assert ByteToHex(132) == [LowerDigit(8), LowerDigit(4)];
    }
    assert ByteToHex(240) == "f0" by {
      assert ByteToHex(240) == [LowerDigit(15), LowerDigit(0)];
    }
    RgbToHexIsPairs(Rgb(149, 132, 240));
  }

  /** A typed complete hex does not survive the effect when its HSL falls back to a different
      colour: #ff0001 gives hue 360, and the effect then writes black. */
  lemma TypedHexLostAfterResync(st: PickerState)
    ensures var typed := HandleHexChange(st, "#ff0001");
      && typed.state.hue == 360 && typed.notified == Some("#ff0001")
      && ResyncFromHsl(typed.state).state.hex == "#000000"
  {
    HexOfRedWithBlueOne();
    HexRoundTrip(Rgb(255, 0, 1));
    Hue360CollapsesToBlack();
    assert RgbToHex(Rgb(0, 0, 0)) == "#000000";
  }

  /** The effect also runs when an edit leaves the HSL cells as they were, because the reported
      colour gives the parent a new `onColorChange`: `#fe0000` typed over hsl(0, 100, 50) keeps
      the HSL, and the effect then writes `#ff0000` back. */
  lemma UnchangedHslStillResyncs(st: PickerState)
    requires st.hue == 0 && st.saturation == 100 && st.lightness == 50
    ensures var typed := HandleHexChange(st, "#fe0000");
      && typed.state.hue == st.hue && typed.state.saturation == st.saturation
      && typed.state.lightness == st.lightness
      && typed.notified == Some("#fe0000") && typed.state.hex == "#fe0000"
      && ResyncFromHsl(typed.state).state.hex == "#ff0000"
  {
    HexOfNearRed();
    NearRedConverts();
    HexOfRed();
  }

  lemma HexOfNearRed()
    ensures IsPartialHex("#fe0000") && HexToRgb("#fe0000") == Some(Rgb(254, 0, 0))
  {
    assert ByteToHex(254) == "fe" by {
      assert ByteToHex(254) == [LowerDigit(15), LowerDigit(14)];
    }
    assert ByteToHex(0) == "00" by {
      assert ByteToHex(0) == [LowerDigit(0), LowerDigit(0)];
    }
    RgbToHexIsPairs(Rgb(254, 0, 0));
    assert RgbToHex(Rgb(254, 0, 0)) == "#fe0000";
    HexRoundTrip(Rgb(254, 0, 0));
    assert "#fe0000"[1..] == "fe0000";
  }

  lemma HexOfRed()
    ensures RgbToHex(Rgb(255, 0, 0)) == "#ff0000"
  {
    assert ByteToHex(255) == "ff" by {
      assert ByteToHex(255) == [LowerDigit(15), LowerDigit(15)];
    }
    assert ByteToHex(0) == "00" by {
      assert ByteToHex(0) == [LowerDigit(0), LowerDigit(0)];
    }
    RgbToHexIsPairs(Rgb(255, 0, 0));
  }

  lemma HexOfRedWithBlueOne()
    ensures RgbToHex(Rgb(255, 0, 1)) == "#ff0001"
    ensures IsPartialHex("#ff0001")
  {
    assert "#ff0001"[1..] == "ff0001";
  }

  /** The same for an RGB edit: setting blue to 1 on pure red gives hue 360, and the effect
      then turns the colour black. */
  lemma RgbEditLostAfterResync(st: PickerState)
    requires st.rgb == Rgb(255, 0, 0)
    ensures var edited := HandleRgbChange(st, Blue, Some(1));
      && edited.state.rgb == Rgb(255, 0, 1) && edited.state.hue == 360
      && ResyncFromHsl(edited.state).state.rgb == Rgb(0, 0, 0)
  {
    Hue360CollapsesToBlack();
  }

  /** An out-of-range channel text: 999 typed into red clamps to 255; the other channels stay. */
  lemma RgbEditClamps(st: PickerState)
    requires ValidRgb(st.rgb)
    ensures HandleRgbChange(st, Red, Some(999)).state.rgb == Rgb(255, st.rgb.g, st.rgb.b)
  {
    var a := HandleRgbChange(st, Red, Some(999)).state.rgb;
    assert ChannelOf(a, Green) == st.rgb.g && ChannelOf(a, Blue) == st.rgb.b;
  }

  /** Channel text that is not a number sets the channel to 0; the other channels stay. */
  lemma RgbEditUnparsableIsZero(st: PickerState)
    requires ValidRgb(st.rgb)
    ensures HandleRgbChange(st, Green, None).state.rgb == Rgb(st.rgb.r, 0, st.rgb.b)
  {
    var b := HandleRgbChange(st, Green, None).state.rgb;
    assert ChannelOf(b, Red) == st.rgb.r && ChannelOf(b, Blue) == st.rgb.b;
  }

  /** A half-typed colour is stored as text only and reported to no one. */
  lemma PartialHexStoredOnly(st: PickerState)
    ensures HandleHexChange(st, "#4") == Step(st.(hex := "#4"), None)
    ensures HandleHexChange(st, "#4g") == Step(st, None)
  {
    assert IsPartialHex("#4") by {
      assert "#4"[1..] == "4";
    }
    assert !IsPartialHex("#4g") by {
      assert "#4g"[1..][1] == 'g';
    }
  }
}
