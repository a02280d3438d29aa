/**
 * Bytes, decimal rendering of integers (JavaScript's `Number.prototype.toString()`
 * for integers) and the Latin-1 view of a JavaScript string, where one UTF-16
 * code unit below 256 stands for one byte.
 */
module Text {

  type byte = x: int | 0 <= x < 256

  function DigitChar(d: nat): (c: char)
    requires d < 10
    ensures '0' <= c <= '9'
  {
    ('0' as int + d) as char
  }

  predicate IsDigits(s: string) {
    forall i :: 0 <= i < |s| ==> '0' <= s[i] <= '9'
  }

  /** Decimal rendering of a natural number, without leading zeros. */
  function NatToString(n: nat): (s: string)
    ensures |s| >= 1 && IsDigits(s)
    ensures s[0] == '0' ==> n == 0
    decreases n
  {
    if n < 10 then [DigitChar(n)] else NatToString(n / 10) + [DigitChar(n % 10)]
  }

  /** Decimal rendering of an integer, with a leading '-' when it is negative. */
  function IntToString(i: int): (s: string)
    ensures |s| >= 1 && IsLatin1(s)
    ensures i >= 0 <==> s[0] != '-'
  {
    if i < 0 then "-" + NatToString(-i) else NatToString(i)
  }

  /** The value of a string of decimal digits (the empty string reads as 0). */
  function ParseNat(s: string): nat
    requires IsDigits(s)
    decreases |s|
  {
    if s == [] then 0 else ParseNat(s[..|s| - 1]) * 10 + (s[|s| - 1] as int - '0' as int)
  }

  /** Reading back a rendered natural number gives the number. */
  lemma {:induction false} ParseNatToString(n: nat)
    ensures ParseNat(NatToString(n)) == n
    decreases n
  {
    var s := NatToString(n);
    if n >= 10 {
      ParseNatToString(n / 10);
      assert s[..|s| - 1] == NatToString(n / 10);
    }
  }

  /** Numbers below 100 render as one or two digits. */
  lemma {:induction false} SmallNatLength(n: nat)
    requires n < 100
    ensures 1 <= |NatToString(n)| <= 2
    ensures |NatToString(n)| == 1 <==> n < 10
  {
    if n >= 10 {
      assert NatToString(n) == NatToString(n / 10) + [DigitChar(n % 10)];
      assert |NatToString(n / 10)| == 1;
    }
  }

  predicate IsLatin1(s: string) {
    forall i :: 0 <= i < |s| ==> s[i] as int < 256
  }

  lemma Latin1Concat(a: string, b: string)
    requires IsLatin1(a) && IsLatin1(b)
    ensures IsLatin1(a + b)
  {
    forall i | 0 <= i < |a + b|
      ensures (a + b)[i] as int < 256
    {
      if i >= |a| {
        assert (a + b)[i] == b[i - |a|];
      }
    }
  }

  /** `String.fromCharCode.apply(null, bytes)`: one code unit per byte. */
  function FromCharCodes(b: seq<byte>): (s: string)
    ensures |s| == |b| && IsLatin1(s)
    ensures forall i :: 0 <= i < |b| ==> s[i] as int == b[i]
  {
    seq(|b|, i requires 0 <= i < |b| => b[i] as char)
  }

  /** The byte view of a Latin-1 string (`charCodeAt` of every position). */
  function CharCodes(s: string): (b: seq<byte>)
    requires IsLatin1(s)
    ensures |b| == |s|
    ensures forall i :: 0 <= i < |s| ==> b[i] == s[i] as int
  {
    seq(|s|, i requires 0 <= i < |s| => s[i] as int)
  }

  /** Turning bytes into code units and back loses nothing. */
  lemma CharCodesFromCharCodes(b: seq<byte>)
    ensures CharCodes(FromCharCodes(b)) == b
  {
  }

  /** A Latin-1 string survives the trip through its bytes. */
  lemma FromCharCodesOfCharCodes(s: string)
    requires IsLatin1(s)
    ensures FromCharCodes(CharCodes(s)) == s
  {
  }

  /** `Buffer.concat(chunks)`: the chunks' bytes one after the other. */
  function Concat(chunks: seq<seq<byte>>): seq<byte>
    decreases |chunks|
  {
    if chunks == [] then [] else Concat(chunks[..|chunks| - 1]) + chunks[|chunks| - 1]
  }

  /** A UTF-16 code unit: JavaScript strings are sequences of these, and `length` counts them. */
  type CodeUnit = x: int | 0 <= x < 0x1_0000

  /** The code units of one character: itself below U+10000, otherwise a surrogate pair. */
  function Units(c: char): (u: seq<CodeUnit>)
    ensures |u| == if c as int < 0x1_0000 then 1 else 2
  {
    if c as int < 0x1_0000 then [c as int]
    else
      var v := c as int - 0x1_0000;
      [0xD800 + v / 0x400, 0xDC00 + v % 0x400]
  }

  /** The JavaScript string holding the text `s`. */
  function Utf16(s: string): (u: seq<CodeUnit>)
    ensures |s| <= |u| <= 2 * |s|
    decreases |s|
  {
    if s == [] then [] else Utf16(s[..|s| - 1]) + Units(s[|s| - 1])
  }

  /** Text made only of characters above U+FFFF is twice as long in JavaScript. */
  lemma {:induction false} Utf16OfSupplementary(s: string)
    requires forall i :: 0 <= i < |s| ==> s[i] as int >= 0x1_0000
    ensures |Utf16(s)| == 2 * |s|
    decreases |s|
  {
    if s != [] {
      Utf16OfSupplementary(s[..|s| - 1]);
    }
  }
}
