# Colour picker: conversions and state updates

This project models the colour engine of the `ColorPicker` React component
(`src/components/ColorPicker.js`). It proves properties of that model in Dafny. It covers:

- the four conversions `hslToRgb`, `rgbToHex`, `hexToRgb` and `rgbToHsl`;
- the five `useState` cells that hold hue, saturation, lightness, hex text and RGB;
- the transitions that change those cells:
  - the HSL `useEffect`;
  - `handleHexChange`;
  - `handleRgbChange`;
  - the three sliders' `onChange`;
  - the preset swatches' `onClick`.

Modules:

- `JsMath`: `Math.round`, `Math.abs`, `Math.max`/`Math.min` and JavaScript's `% 2`. They work on exact reals.
- `Colour`: the `{r, g, b}` and `{h, s, l}` records and the channel keys.
- `Hex`: `rgbToHex` (through `Number.prototype.toString(16)`) and `hexToRgb`. The case-insensitive
  pattern `/^#?([a-f\d]{2})([a-f\d]{2})([a-f\d]{2})$/i` is modelled with its optional, backtracking `#`.
- `HslConvert`: `hslToRgb` and `rgbToHsl`, with the six-sector if-chain and the `switch (max)`.
- `Picker`: the state record and one pure transition per handler. Each transition returns the next
  state and the argument of the `onColorChange` call it makes, if any. The effect is its own
  transition, `ResyncFromHsl`. `Run` applies a sequence of events.

Behaviour the model reproduces and proves, as the code has it:

- The defaults are inconsistent. hsl(249, 78, 73) is rgb(149, 132, 240), which is `#9584f0`, not the
  stored rgb(102, 126, 234) / `#667eea`. The effect at mount replaces them.
- `rgbToHsl` can answer hue 360, for example for rgb(255, 0, 1). `hslToRgb` treats any hue outside
  [0, 360) as no sector, which gives a grey: here black.
- HSL → RGB → HSL and RGB → HSL → RGB are not identities. rgb(2, 0, 0) comes back as black.
- The effect re-runs whenever a report changes the parent's colour, even when the HSL cells keep
  their values. A complete hex edit, an RGB edit and a preset click each report a colour through
  `onColorChange`. When that colour differs from the one `App` holds (src/App.js:6-10), `App` stores
  it and renders again. That render passes a new `handleColorChange` function, so the effect's
  dependency `onColorChange` changes. A report of the colour `App` already holds changes nothing
  there, and then the effect runs only if the HSL cells changed. For example,
  typing `#fe0000` into the settled state hsl(0, 100, 50) / `#ff0000` leaves the HSL cells as they
  were, yet the effect writes `#ff0000` back. The typed hex is therefore replaced by the hex of the
  rounded HSL, which can be a different colour.
- The `if (newRgb)` guard in `handleHexChange` never fails. Text of length 7 that passed the
  partial-hex test always parses.

## Model

| member | source | states |
|---|---|---|
| JsMath.Abs | src/components/ColorPicker.js:16-17 | `Math.abs` is non-negative and is its argument or its negation |
| JsMath.Round | src/components/ColorPicker.js:34-36 | `Math.round` lands within half a unit of its argument, a half rounding up |
| JsMath.RemainderTwo | src/components/ColorPicker.js:17 | `% 2` differs from the dividend by a whole multiple of 2, keeps the dividend's sign, stays below 2 in magnitude, and is the identity on [0, 2) |
| JsMath.Max3 | src/components/ColorPicker.js:64 | `Math.max` is at least every argument and equals one of them |
| JsMath.Min3 | src/components/ColorPicker.js:65 | `Math.min` is at most every argument and equals one of them |
| Colour.WithChannel | src/components/ColorPicker.js:120 | the spread update sets the named channel and keeps the other two |
| Hex.HexValue | src/components/ColorPicker.js:53-55 | `parseInt(…, 16)` of k hex digits is a number below 16^k |
| Hex.JsHexString | src/components/ColorPicker.js:44 | `x.toString(16)` is the shortest lower-case digits worth x for x ≥ 0 (one digit exactly below 16, no leading zero), and '-' then digits worth -x for x < 0 |
| Hex.ToBase16 | src/components/ColorPicker.js:44 | `toString(16)` of a non-negative number is non-empty lower-case digits, one digit exactly below 16, no leading zero |
| Hex.ToBase16Value | src/components/ColorPicker.js:44 | the digits `toString(16)` writes read back, base 16, as the number |
| Hex.ByteToHex | src/components/ColorPicker.js:43-46 | a channel in [0, 255] becomes exactly two lower-case digits, high nibble first, padded with '0' |
| Hex.RgbToHex | src/components/ColorPicker.js:42-47 | an in-range colour becomes '#' and six lower-case hex digits |
| Hex.RgbToHexChannels | src/components/ColorPicker.js:42-47 | characters 1-2, 3-4 and 5-6 of the hex read back as red, green and blue |
| Hex.ExecColourPatternMatches | src/components/ColorPicker.js:51 | `ExecColourPattern`, the model of the `.exec` call, matches exactly '#' plus six hex digits or six hex digits alone, either case, and captures the last six characters in pairs |
| Hex.HexToRgb | src/components/ColorPicker.js:50-57 | a colour comes back exactly when the text has that shape; each channel is its pair's base-16 value, in [0, 255] |
| Hex.HexRoundTrip | src/components/ColorPicker.js:42-57 | reading back the hex of an in-range colour gives the same colour |
| Hex.ParsedHexRewritten | src/components/ColorPicker.js:42-57 | parsing a colour text and writing it again gives '#' and its six digits lower-cased |
| HslConvert.Chroma | src/components/ColorPicker.js:16 | the chroma is `2l·s` up to half lightness and `(2 - 2l)·s` above it; for fractions in [0, 1] it is non-negative and `l ± c/2` stays in [0, 1] |
| HslConvert.SecondComponent | src/components/ColorPicker.js:17 | for a non-negative hue the second component is the chroma times the sector ramp: `(h mod 60)/60` when `h div 60` is even, `(60 - h mod 60)/60` when it is odd; it lies between 0 and the chroma |
| HslConvert.SlopeIsRamp | src/components/ColorPicker.js:17 | JavaScript's `1 - \|(h / 60) % 2 - 1\|` on a non-negative whole hue equals the sector ramp, which lies in [0, 1] |
| HslConvert.ToChannel | src/components/ColorPicker.js:34-36 | an offset component in [0, 1] rounds to a channel in [0, 255] |
| HslConvert.SectorComponents | src/components/ColorPicker.js:21-33 | inside [0, 360) the three components are the chroma, the second component and 0 in some order; which channel takes the chroma and which takes 0 follows the 60-degree sector; outside, all three stay 0 |
| HslConvert.HslToRgb | src/components/ColorPicker.js:13-39 | saturation and lightness in [0, 100] give channels in [0, 255]; zero saturation gives the grey `round(l·255/100)`; a hue outside [0, 360) gives a grey |
| HslConvert.HslToRgbSpread | src/components/ColorPicker.js:13-39 | inside [0, 360), largest plus smallest channel is within one of `2·l·255/100`, and largest minus smallest within one of the chroma times 255 |
| HslConvert.SectorOrdersChannels | src/components/ColorPicker.js:21-33 | inside [0, 360) each 60-degree sector fixes which channel is largest and which smallest |
| HslConvert.SectorHueRange | src/components/ColorPicker.js:74-76 | each `switch` formula (`SectorHue`), when its channel holds the maximum, gives a fraction of a turn in that channel's part of the wheel |
| HslConvert.TiedSectorsAgree | src/components/ColorPicker.js:73-78 | when two channels tie for the maximum their `switch` formulas agree, so the case order cannot change the hue |
| HslConvert.Saturation | src/components/ColorPicker.js:72 | for a non-grey colour the saturation fraction lies in (0, 1] |
| HslConvert.HueFraction | src/components/ColorPicker.js:73-78 | the hue fraction is in [0, 1) and equals the formula of every channel holding the maximum; the `default` branch is never taken |
| HslConvert.RgbToHsl | src/components/ColorPicker.js:60-86 | hue in [0, 360], saturation and lightness in [0, 100]; lightness is `round((max + min)·100/510)` of the integer channels; a grey has hue and saturation 0; otherwise saturation is `round((max - min)·100/d)`, with d = 510 - max - min when max + min > 255 and d = max + min otherwise, and the hue is the rounded formula of any maximal channel |
| HslConvert.HueMatchesDominantChannel | src/components/ColorPicker.js:73-82 | red largest gives a hue in [0, 60] or [300, 360], green in [60, 180], blue in [180, 300] |
| HslConvert.GreyStaysGrey | src/components/ColorPicker.js:13-86 | a grey converts to zero saturation and back to a grey |
| HslConvert.Hue360CollapsesToBlack | src/components/ColorPicker.js:13-86 | rgb(255, 0, 1) converts to hue 360, and hsl(360, 100, 50) converts to black |
| HslConvert.RoundTripExceedsOneUnit | src/components/ColorPicker.js:13-86 | rgb(2, 0, 0) converts to hsl(0, 100, 0) and back to black |
| HslConvert.NearRedConverts | src/components/ColorPicker.js:13-86 | rgb(254, 0, 0) converts to hsl(0, 100, 50), which converts to rgb(255, 0, 0) |
| HslConvert.ZeroLightnessIsBlack | src/components/ColorPicker.js:13-39 | lightness 0 gives black for every hue and every saturation in [0, 100] |
| HslConvert.LightnessCorners | src/components/ColorPicker.js:13-39 | hsl(0, 0, 0) is black and hsl(0, 0, 100) is white |
| HslConvert.MagentaRoundTrip | src/components/ColorPicker.js:13-86 | rgb(255, 0, 255) converts to hsl(300, 100, 50) and back to the same colour |
| HslConvert.DefaultHslColour | src/components/ColorPicker.js:5-39 | the default hsl(249, 78, 73) converts to rgb(149, 132, 240) |
| Picker.IsPartialHex | src/components/ColorPicker.js:100 | text of length 7 passes the partial-hex test exactly when it is '#' and six hex digits, the shape `hexToRgb` accepts |
| Picker.PartialHexPrefixes | src/components/ColorPicker.js:100 | dropping the last character of partial hex longer than '#' leaves partial hex; adding a hex digit to partial hex shorter than 7 gives partial hex |
| Picker.CompleteHexAlwaysParses | src/components/ColorPicker.js:100-104 | seven characters that pass the partial-hex test always parse, so the `null` branch is dead |
| Picker.ResyncFromHsl | src/components/ColorPicker.js:89-95 | the effect keeps HSL, makes RGB and hex agree with it, reports the new hex, changes nothing in a settled state, and keeps states well formed |
| Picker.HandleHexChange | src/components/ColorPicker.js:98-114 | text that is not partial hex is ignored; partial hex only sets the text; a complete colour sets text, RGB and the HSL of that RGB, and is reported as typed |
| Picker.HexEditIdempotent | src/components/ColorPicker.js:98-114 | typing the same text again changes nothing more |
| Picker.ParsedOrZero | src/components/ColorPicker.js:118 | `parseInt(value) \|\| 0` is the parsed number, or 0 when nothing parsed |
| Picker.ClampChannel | src/components/ColorPicker.js:119 | the clamp lies in [0, 255], keeps in-range values, and sends values above to 255 and below to 0 |
| Picker.HandleRgbChange | src/components/ColorPicker.js:117-129 | the edited channel becomes the clamped parse and the others stay; HSL is the HSL of the new RGB; the hex reads back as the new RGB and is reported |
| Picker.RgbEditClamps | src/components/ColorPicker.js:117-120 | 999 typed into red gives 255 and the other channels stay |
| Picker.RgbEditUnparsableIsZero | src/components/ColorPicker.js:117-120 | text that is not a number typed into green gives 0 and the other channels stay |
| Picker.PresetsAreCompleteHex | src/components/ColorPicker.js:314-318 | every preset is '#' and six hex digits, and parses |
| Picker.PresetClick | src/components/ColorPicker.js:323-333 | a preset click stores and reports the preset as written, its RGB and the HSL of that RGB |
| Picker.PresetClickIsCompleteHexEdit | src/components/ColorPicker.js:98-333 | a preset click has the same effect as typing the preset into the hex box |
| Picker.SlideTo | src/components/ColorPicker.js:175-229 | the moved slider's HSL cell becomes the slider's value and every other cell stays; nothing is reported; states stay well formed |
| Picker.Apply | src/components/ColorPicker.js:89-333 | every possible event keeps a state well formed |
| Picker.Run | src/components/ColorPicker.js:89-333 | any sequence of possible events keeps a state well formed |
| Picker.InitialWellFormed | src/components/ColorPicker.js:5-9 | the defaults are in range and the hex default is accepted hex text |
| Picker.ReachableStatesWellFormed | src/components/ColorPicker.js:5-333 | every state reachable from the defaults has channels in [0, 255], HSL within the slider ranges and acceptable hex text |
| Picker.InitialStateInconsistent | src/components/ColorPicker.js:5-95 | the defaults are not settled; the mount effect gives rgb(149, 132, 240) and reports `#9584f0` |
| Picker.TypedHexLostAfterResync | src/components/ColorPicker.js:89-114 | typing `#ff0001` gives hue 360 and reports `#ff0001`; the following effect writes `#000000` |
| Picker.RgbEditLostAfterResync | src/components/ColorPicker.js:89-129 | setting blue to 1 on pure red gives hue 360; the following effect turns the colour black |
| Picker.UnchangedHslStillResyncs | src/components/ColorPicker.js:89-114 | typing `#fe0000` over hsl(0, 100, 50) keeps the HSL cells and reports `#fe0000`; the effect that the report triggers writes `#ff0000` |
| Picker.PartialHexStoredOnly | src/components/ColorPicker.js:98-114 | `#4` only sets the text and reports nothing; `#4g` is ignored |

## Left out

- JSX rendering, CSS classes, slider gradients, the colour swatch and the `copied` state: presentation only.
- `copyToClipboard` (lines 132-136): it calls the clipboard API and a timer, not the colour state.
- React scheduling. The effect is a separate event, `HslEffectRan` (transition `ResyncFromHsl`), and
  `Run` accepts it after any event. This covers both causes of an effect run: a change of hue,
  saturation or lightness, and a new `onColorChange` function after the parent stored a reported
  colour. Which runs React actually performs, and the batching of `set…` calls, are not modelled.
- The parent `App.js` beyond that: its `color` state and the `color` prop, which the component never
  reads.
- IEEE-754 floating point. The arithmetic is exact. `Math.round` is taken as `floor(x + 1/2)`, and
  ties that floating point would break differently are not modelled.
- `parseInt` on the text typed into an RGB box is the caller's. `HandleRgbChange` receives its result,
  with `None` standing for `NaN`.
- `parseInt(e.target.value)` of a slider is the slider's value. The browser keeps it within the
  slider's `min`/`max`, and `PossibleEvent` demands this.
- HslConvert.RgbToHsl: requires channels in [0, 255]. Outside that range the JavaScript can divide by
  zero: max + min can be 0, or 2 - max - min can be 0, while max ≠ min. Every caller passes a parsed
  or clamped colour.
- Picker.HandleRgbChange: requires the stored RGB to be in [0, 255], as `rgbToHsl` needs.
  `ReachableStatesWellFormed` proves every reachable state meets this.
- Picker.PresetClick: takes an index into the preset list, because only those twelve texts can be clicked.
