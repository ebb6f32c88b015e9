/** The textual side of the picker: `rgbToHex` and `hexToRgb`
    (src/components/ColorPicker.js, lines 41-57). */
module Hex {
  import opened Wrappers
  import opened Colour

  /** A character of the class `[0-9A-Fa-f]` (or `[a-f\d]` matched case-insensitively). */
  predicate IsHexDigit(ch: char) {
    '0' <= ch <= '9' || 'a' <= ch <= 'f' || 'A' <= ch <= 'F'
  }

  /** A digit as `Number.prototype.toString(16)` writes it. */
  predicate IsLowerHexDigit(ch: char) {
    '0' <= ch <= '9' || 'a' <= ch <= 'f'
  }

  predicate AllHexDigits(t: string) {
    forall i :: 0 <= i < |t| ==> IsHexDigit(t[i])
  }

  predicate AllLowerHexDigits(t: string) {
    forall i :: 0 <= i < |t| ==> IsLowerHexDigit(t[i])
  }

  /** The value of one base-16 digit, either case. */
  function DigitValue(ch: char): (v: nat)
    requires IsHexDigit(ch)
    ensures v < 16
  {
    if '0' <= ch <= '9' then ch as int - '0' as int
    else if 'a' <= ch <= 'f' then ch as int - 'a' as int + 10
    else ch as int - 'A' as int + 10
  }

  /** The lower-case digit for a value below 16. */
  function LowerDigit(n: nat): (ch: char)
    requires n < 16
    ensures IsLowerHexDigit(ch)
    ensures DigitValue(ch) == n
  {
    if n < 10 then ('0' as int + n) as char else ('a' as int + n - 10) as char
  }

  /** Lower-cases a hex digit; other characters are left alone. */
  function ToLowerDigit(ch: char): char {
    if 'A' <= ch <= 'F' then (ch as int - 'A' as int + 'a' as int) as char else ch
  }

  function ToLowerDigits(t: string): (u: string)
    ensures |u| == |t|
    ensures forall i :: 0 <= i < |t| ==> u[i] == ToLowerDigit(t[i])
  {
    if |t| == 0 then [] else [ToLowerDigit(t[0])] + ToLowerDigits(t[1..])
  }

  /** `16` to the power `k`. */
  function Pow16(k: nat): nat {
    if k == 0 then 1 else 16 * Pow16(k - 1)
  }

  /** `parseInt(t, 16)` for a string made only of hex digits: most significant digit first,
      so `k` digits spell a number below `16^k`. */
  function HexValue(t: string): (n: nat)
    requires AllHexDigits(t)
    ensures n < Pow16(|t|)
  {
    if |t| == 0 then 0 else 16 * HexValue(t[..|t| - 1]) + DigitValue(t[|t| - 1])
  }

  /** `n.toString(16)` for a non-negative integer: lower-case digits, no leading zero. */
  function ToBase16(n: nat): (t: string)
    ensures 1 <= |t|
    ensures AllLowerHexDigits(t)
    ensures |t| == 1 <==> n < 16
    ensures |t| > 1 ==> t[0] != '0'
  {
    if n < 16 then [LowerDigit(n)] else ToBase16(n / 16) + [LowerDigit(n % 16)]
  }

  /** `toString(16)` and `parseInt(_, 16)` are inverse: the digits read back as the number. */
  lemma {:induction false} ToBase16Value(n: nat)
    ensures AllHexDigits(ToBase16(n)) && HexValue(ToBase16(n)) == n
  {
    var t := ToBase16(n);
    if n >= 16 {
      ToBase16Value(n / 16);
      assert t[..|t| - 1] == ToBase16(n / 16);
    }
  }

  /** `x.toString(16)` for any integer: a negative number gets a leading minus sign. */
  function JsHexString(x: int): (t: string)
    ensures x >= 0 ==> AllLowerHexDigits(t) && HexValue(t) == x
    ensures x >= 0 ==> (|t| == 1 <==> x < 16) && (|t| > 1 ==> t[0] != '0')
    ensures x < 0 ==> 2 <= |t| && t[0] == '-' && AllLowerHexDigits(t[1..]) && HexValue(t[1..]) == -x
  {
    if x < 0 then
      ToBase16Value(-x);
      assert ("-" + ToBase16(-x))[1..] == ToBase16(-x);
      "-" + ToBase16(-x)
    else
      ToBase16Value(x);
      ToBase16(x)
  }

  /** One channel of `rgbToHex`: the hex string, given a leading '0' when it has one character. */
  function ByteToHex(x: int): (t: string)
    ensures 0 <= x <= 255 ==> t == [LowerDigit(x / 16), LowerDigit(x % 16)]
  {
    var digits := JsHexString(x);
    assert 16 <= x <= 255 ==> ToBase16(x / 16) == [LowerDigit(x / 16)];
    if |digits| == 1 then "0" + digits else digits
  }

  /** A canonical colour text: '#' followed by six lower-case hex digits. */
  predicate IsLowerHexColour(t: string) {
    |t| == 7 && t[0] == '#' && AllLowerHexDigits(t[1..])
  }

  /** `rgbToHex(r, g, b)` */
  function RgbToHex(c: Rgb): (t: string)
    ensures ValidRgb(c) ==> IsLowerHexColour(t)
  {
    var red, green, blue := ByteToHex(c.r), ByteToHex(c.g), ByteToHex(c.b);
    assert ValidRgb(c) ==> IsLowerHexColour("#" + red + green + blue) by {
      if ValidRgb(c) {
        ByteHexDigits(c.r);
        ByteHexDigits(c.g);
        ByteHexDigits(c.b);
        LowerColourOfPairs(red, green, blue);
      }
    }
    "#" + red + green + blue
  }

  /** A byte is written as exactly two lower-case digits. */
  lemma ByteHexDigits(x: int)
    requires 0 <= x <= 255
    ensures |ByteToHex(x)| == 2 && AllLowerHexDigits(ByteToHex(x))
  {
  }

  /** Three pairs of lower-case digits behind a '#' make a canonical colour text. */
  lemma LowerColourOfPairs(red: string, green: string, blue: string)
    requires |red| == 2 && |green| == 2 && |blue| == 2
    requires AllLowerHexDigits(red) && AllLowerHexDigits(green) && AllLowerHexDigits(blue)
    ensures IsLowerHexColour("#" + red + green + blue)
  {
    LowerDigitsConcat(red, green);
    LowerDigitsConcat(red + green, blue);
    assert ("#" + red + green + blue)[1..] == red + green + blue;
  }

  lemma LowerDigitsConcat(a: string, b: string)
    requires AllLowerHexDigits(a) && AllLowerHexDigits(b)
    ensures AllLowerHexDigits(a + b)
  {
  }

  /** The value of a two-digit string. */
  lemma TwoDigitValue(t: string)
    requires |t| == 2 && AllHexDigits(t)
    ensures HexValue(t) == 16 * DigitValue(t[0]) + DigitValue(t[1])
    ensures HexValue(t) <= 255
  {
    var front := t[..1];
    assert front[..0] == [] && front[0] == t[0];
    assert HexValue(front) == DigitValue(t[0]);
  }

  /** The two digits written for a byte read back as that byte. */
  lemma ByteHexValue(x: int)
    requires 0 <= x <= 255
    ensures AllHexDigits(ByteToHex(x)) && HexValue(ByteToHex(x)) == x
  {
    var t := ByteToHex(x);
    assert t == [LowerDigit(x / 16), LowerDigit(x % 16)];
    TwoDigitValue(t);
  }

  /** Each channel of an in-range colour is written as two lower-case digits that read back
      as that channel. */
  lemma RgbToHexChannels(c: Rgb)
    requires ValidRgb(c)
    ensures var t := RgbToHex(c);
      && IsLowerHexColour(t)
      && AllHexDigits(t[1..3]) && AllHexDigits(t[3..5]) && AllHexDigits(t[5..])
      && HexValue(t[1..3]) == c.r && HexValue(t[3..5]) == c.g && HexValue(t[5..]) == c.b
  {
    var red, green, blue := ByteToHex(c.r), ByteToHex(c.g), ByteToHex(c.b);
    var t := RgbToHex(c);
    RgbToHexIsPairs(c);
    ByteHexDigits(c.r);
    ByteHexDigits(c.g);
    ByteHexDigits(c.b);
    assert t[1..3] == red;
    assert t[3..5] == green;
    assert t[5..] == blue;
    ByteHexValue(c.r);
    ByteHexValue(c.g);
    ByteHexValue(c.b);
  }

  /** The text `hexToRgb` accepts: an optional '#' and then exactly six hex digits of either case. */
  predicate IsHexColourText(s: string) {
    || (|s| == 7 && s[0] == '#' && AllHexDigits(s[1..]))
    || (|s| == 6 && AllHexDigits(s))
  }

  /** The three capture groups of `([a-f\d]{2})([a-f\d]{2})([a-f\d]{2})$` anchored at the start of `t`. */
  function SixDigitGroups(t: string): Option<(string, string, string)> {
    if |t| == 6 && AllHexDigits(t) then Some((t[0..2], t[2..4], t[4..6])) else None
  }

  /** `/^#?([a-f\d]{2})([a-f\d]{2})([a-f\d]{2})$/i.exec(s)`: the optional '#' is first tried
      consumed and, when the rest does not match, left unconsumed. */
  function ExecColourPattern(s: string): Option<(string, string, string)> {
    var consumed := if 1 <= |s| && s[0] == '#' then SixDigitGroups(s[1..]) else None;
    if consumed.Some? then consumed else SixDigitGroups(s)
  }

  /** The pattern matches exactly the colour texts, and its groups are the last six characters
      taken two at a time, each a byte. */
  lemma ExecColourPatternMatches(s: string)
    ensures ExecColourPattern(s).Some? <==> IsHexColourText(s)
    ensures ExecColourPattern(s).Some? ==> var k := |s| - 6;
      && k >= 0
      && ExecColourPattern(s).value == (s[k..k + 2], s[k + 2..k + 4], s[k + 4..])
      && AllHexDigits(s[k..k + 2]) && HexValue(s[k..k + 2]) <= 255
      && AllHexDigits(s[k + 2..k + 4]) && HexValue(s[k + 2..k + 4]) <= 255
      && AllHexDigits(s[k + 4..]) && HexValue(s[k + 4..]) <= 255
  {
    if |s| == 7 && s[0] == '#' && AllHexDigits(s[1..]) {
      assert s[1..][0..2] == s[1..3];
      assert s[1..][2..4] == s[3..5];
      assert s[1..][4..6] == s[5..];
      GroupDigits(s[1..]);
    } else if 1 <= |s| && s[0] == '#' {
      assert SixDigitGroups(s[1..]).None?;
      assert !IsHexDigit(s[0]);
    } else if |s| == 6 && AllHexDigits(s) {
      assert s[4..6] == s[4..];
      GroupDigits(s);
    }
  }

  /** `hexToRgb(hex)`: `null` becomes `None`. */
  function HexToRgb(s: string): (r: Option<Rgb>)
    ensures r.Some? <==> IsHexColourText(s)
    ensures r.Some? ==> ValidRgb(r.value)
    ensures r.Some? ==> var k := |s| - 6;
      && AllHexDigits(s[k..k + 2]) && r.value.r == HexValue(s[k..k + 2])
      && AllHexDigits(s[k + 2..k + 4]) && r.value.g == HexValue(s[k + 2..k + 4])
      && AllHexDigits(s[k + 4..]) && r.value.b == HexValue(s[k + 4..])
  {
    ExecColourPatternMatches(s);
    var groups := ExecColourPattern(s);
    if groups.None? then None
    else
      Some(Rgb(HexValue(groups.value.0), HexValue(groups.value.1), HexValue(groups.value.2)))
  }

  /** Six hex digits split into three pairs, each pair a byte. */
  lemma GroupDigits(d: string)
    requires |d| == 6 && AllHexDigits(d)
    ensures AllHexDigits(d[0..2]) && HexValue(d[0..2]) <= 255
    ensures AllHexDigits(d[2..4]) && HexValue(d[2..4]) <= 255
    ensures AllHexDigits(d[4..6]) && HexValue(d[4..6]) <= 255
  {
    TwoDigitValue(d[0..2]);
    TwoDigitValue(d[2..4]);
    TwoDigitValue(d[4..6]);
  }

  /** Writing an in-range colour and reading it back gives the same colour. */
  lemma HexRoundTrip(c: Rgb)
    requires ValidRgb(c)
    ensures HexToRgb(RgbToHex(c)) == Some(c)
  {
    RgbToHexChannels(c);
    var t := RgbToHex(c);
    assert IsHexColourText(t);
    var r := HexToRgb(t);
    assert r.value.r == c.r && r.value.g == c.g && r.value.b == c.b;
  }

  /** A digit's value written back as a lower-case digit is the digit lower-cased. */
  lemma LowerDigitOfValue(ch: char)
    requires IsHexDigit(ch)
    ensures LowerDigit(DigitValue(ch)) == ToLowerDigit(ch)
  {
  }

  /** Reading a colour text and writing it again gives back its six digits, lower-cased,
      behind a '#' (whether or not the text had one). */
  lemma {:induction false} ParsedHexRewritten(s: string)
    requires IsHexColourText(s)
    ensures HexToRgb(s).Some?
    ensures RgbToHex(HexToRgb(s).value) == "#" + ToLowerDigits(s[|s| - 6..])
  {
    var k := |s| - 6;
    var digits := s[k..];
    var red, green, blue := s[k..k + 2], s[k + 2..k + 4], s[k + 4..];
    assert digits == red + green + blue;
    var c := HexToRgb(s).value;
    assert c == Rgb(HexValue(red), HexValue(green), HexValue(blue));
    PairsRewritten(red, green, blue);
  }

  /** Three two-digit bytes, read and written again, are the six digits lower-cased. */
  lemma PairsRewritten(red: string, green: string, blue: string)
    requires |red| == 2 && AllHexDigits(red)
    requires |green| == 2 && AllHexDigits(green)
    requires |blue| == 2 && AllHexDigits(blue)
    ensures RgbToHex(Rgb(HexValue(red), HexValue(green), HexValue(blue)))
         == "#" + ToLowerDigits(red + green + blue)
  {
    var c := Rgb(HexValue(red), HexValue(green), HexValue(blue));
    RgbToHexIsPairs(c);
    PairRewritten(red);
    PairRewritten(green);
    PairRewritten(blue);
    LowerDigitsDistribute(red, green);
    LowerDigitsDistribute(red + green, blue);
  }

  /** `rgbToHex` joins the three channels' texts behind a '#'. */
  lemma RgbToHexIsPairs(c: Rgb)
    ensures RgbToHex(c) == "#" + ByteToHex(c.r) + ByteToHex(c.g) + ByteToHex(c.b)
  {
  }

  lemma LowerDigitsDistribute(a: string, b: string)
    ensures ToLowerDigits(a + b) == ToLowerDigits(a) + ToLowerDigits(b)
  {
  }

  /** A two-digit byte, read and written again, is the pair lower-cased. */
  lemma PairRewritten(p: string)
    requires |p| == 2 && AllHexDigits(p)
    ensures HexValue(p) <= 255
    ensures ByteToHex(HexValue(p)) == ToLowerDigits(p)
  {
    TwoDigitValue(p);
    var v := HexValue(p);
    assert v / 16 == DigitValue(p[0]) && v % 16 == DigitValue(p[1]);
    LowerDigitOfValue(p[0]);
    LowerDigitOfValue(p[1]);
  }
}
