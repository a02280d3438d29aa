/**
 * `rgbaToHex(r, g, b, a = 1)`: a CSS hex colour from integer channels and a real
 * alpha, `#rrggbb` when the clamped alpha is 1 and `#rrggbbaa` otherwise.
 */
module Color {
  import opened Outcomes

  predicate InChannelRange(x: int) {
    0 <= x <= 255
  }

  /** One lowercase hexadecimal digit, as `Number.prototype.toString(16)` writes it. */
  function HexDigit(d: nat): (c: char)
    requires d < 16
    ensures IsHexDigit(c)
  {
    if d < 10 then ('0' as int + d) as char else ('a' as int + d - 10) as char
  }

  predicate IsHexDigit(c: char) {
    '0' <= c <= '9' || 'a' <= c <= 'f'
  }

  function HexValue(c: char): (d: nat)
    requires IsHexDigit(c)
    ensures d < 16 && HexDigit(d) == c
  {
    if c <= '9' then c as int - '0' as int else c as int - 'a' as int + 10
  }

  /** `n.toString(16)`: hexadecimal without leading zeros. */
  function ToHex(n: nat): (s: string)
    ensures |s| >= 1 && forall i :: 0 <= i < |s| ==> IsHexDigit(s[i])
    decreases n
  {
    if n < 16 then [HexDigit(n)] else ToHex(n / 16) + [HexDigit(n % 16)]
  }

  /** `s.padStart(2, "0")`. */
  function PadStart2(s: string): string {
    if |s| >= 2 then s else seq(2 - |s|, _ => '0') + s
  }

  /** The value of a string of hexadecimal digits. */
  function ParseHex(s: string): nat
    requires forall i :: 0 <= i < |s| ==> IsHexDigit(s[i])
    decreases |s|
  {
    if s == [] then 0 else ParseHex(s[..|s| - 1]) * 16 + HexValue(s[|s| - 1])
  }

  /** A channel value written as exactly two lowercase hex digits. */
  function Hex2(n: nat): (s: string)
    requires n < 256
    ensures |s| == 2 && IsHexDigit(s[0]) && IsHexDigit(s[1])
    ensures ParseHex(s) == n
  {
    var s := PadStart2(ToHex(n));
    if n < 16 then
      assert s == ['0', HexDigit(n)] && s[..1] == ['0'] && ['0'][..0] == [];
      assert ParseHex(['0']) == 0;
      s
    else
      assert ToHex(n / 16) == [HexDigit(n / 16)];
      assert s == [HexDigit(n / 16), HexDigit(n % 16)] && s[..1] == [HexDigit(n / 16)];
      s
  }

  /** The alpha after clamping into [0, 1]. */
  function ClampAlpha(a: real): (c: real)
    ensures 0.0 <= c <= 1.0
    ensures 0.0 <= a <= 1.0 ==> c == a
    ensures a < 0.0 ==> c == 0.0
    ensures a > 1.0 ==> c == 1.0
  {
    if a < 0.0 then 0.0 else if a > 1.0 then 1.0 else a
  }

  /** `Math.round` for non-negative arguments. */
  function Round(x: real): int {
    (x + 0.5).Floor
  }

  /** The alpha byte: `Math.round(a * 255)` of the clamped alpha, always a byte. */
  function AlphaByte(a: real): (n: nat)
    requires 0.0 <= a <= 1.0
    ensures n <= 255
  {
    Round(a * 255.0)
  }

  datatype ColorError = InvalidRgb

  /** `rgbaToHex(r, g, b, a)`; `a` defaults to 1 as in the source. */
  function RgbaToHex(r: int, g: int, b: int, a: real := 1.0): (s: Result<string, ColorError>)
    ensures s.Err? <==> !(InChannelRange(r) && InChannelRange(g) && InChannelRange(b))
    ensures s.Ok? ==> |s.value| >= 7 && s.value[0] == '#' && (|s.value| == 7 <==> ClampAlpha(a) == 1.0)
    ensures s.Ok? && ClampAlpha(a) != 1.0 ==> |s.value| == 9
  {
    if r < 0 || r > 255 || g < 0 || g > 255 || b < 0 || b > 255 then Err(InvalidRgb)
    else
      var alpha := ClampAlpha(a);
      var rgb := "#" + Hex2(r) + Hex2(g) + Hex2(b);
      if alpha == 1.0 then Ok(rgb) else Ok(rgb + Hex2(AlphaByte(alpha)))
  }

  /** Reading the hex pairs of a result back gives the channels, and the alpha byte when there is one. */
  lemma HexPairsParseBack(r: int, g: int, b: int, a: real)
    requires InChannelRange(r) && InChannelRange(g) && InChannelRange(b)
    ensures var s := RgbaToHex(r, g, b, a).value;
            && s[1..3] == Hex2(r) && s[3..5] == Hex2(g) && s[5..7] == Hex2(b)
            && ParseHex(s[1..3]) == r && ParseHex(s[3..5]) == g && ParseHex(s[5..7]) == b
            && (|s| == 9 ==> s[7..9] == Hex2(AlphaByte(ClampAlpha(a))) && ParseHex(s[7..9]) == AlphaByte(ClampAlpha(a)))
  {
    var rgb := "#" + Hex2(r) + Hex2(g) + Hex2(b);
    var s := RgbaToHex(r, g, b, a).value;
    assert rgb[1..3] == Hex2(r) && rgb[3..5] == Hex2(g) && rgb[5..7] == Hex2(b);
    if ClampAlpha(a) == 1.0 {
      assert s == rgb;
    } else {
      var tail := Hex2(AlphaByte(ClampAlpha(a)));
      assert s == rgb + tail;
      assert s[..7] == rgb && s[7..9] == tail;
    }
  }

  /** Without an alpha the result is the opaque `#rrggbb`. */
  lemma DefaultAlphaIsOpaque(r: int, g: int, b: int)
    requires InChannelRange(r) && InChannelRange(g) && InChannelRange(b)
    ensures |RgbaToHex(r, g, b).value| == 7
  {
  }

  /** Every two-digit output is lowercase hex. */
  lemma OutputIsLowercaseHex(r: int, g: int, b: int, a: real)
    requires InChannelRange(r) && InChannelRange(g) && InChannelRange(b)
    ensures var s := RgbaToHex(r, g, b, a).value;
            forall i :: 1 <= i < |s| ==> IsHexDigit(s[i])
  {
  }
}
