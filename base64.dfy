/**
 * Base64 as defined in section 4 of RFC 4648 (alphabet A-Z a-z 0-9 + /, '='
 * padding), used for every value written to and read from the device.
 * Encoding follows the RFC; decoding follows Node's `Buffer.from(s, 'base64')`,
 * which never fails: characters outside the alphabet (padding included) are
 * skipped and trailing bits that do not fill a byte are dropped.
 */
module Base64 {
  import opened Text

  type sextet = x: int | 0 <= x < 64

  /** Table 1 of RFC 4648: the character for a 6-bit value. */
  function Symbol(x: sextet): (c: char)
    ensures c != '='
  {
    if x < 26 then ('A' as int + x) as char
    else if x < 52 then ('a' as int + (x - 26)) as char
    else if x < 62 then ('0' as int + (x - 52)) as char
    else if x == 62 then '+'
    else '/'
  }

  predicate IsSymbol(c: char) {
    'A' <= c <= 'Z' || 'a' <= c <= 'z' || '0' <= c <= '9' || c == '+' || c == '/'
  }

  /** The 6-bit value of an alphabet character (Table 1 read backwards). */
  function SymbolValue(c: char): (x: sextet)
    requires IsSymbol(c)
    ensures Symbol(x) == c
  {
    if 'A' <= c <= 'Z' then c as int - 'A' as int
    else if 'a' <= c <= 'z' then c as int - 'a' as int + 26
    else if '0' <= c <= '9' then c as int - '0' as int + 52
    else if c == '+' then 62
    else 63
  }

  lemma SymbolValueOfSymbol(x: sextet)
    ensures IsSymbol(Symbol(x)) && SymbolValue(Symbol(x)) == x
  {
  }

  /** The characters for a sequence of 6-bit values. */
  function Symbols(v: seq<sextet>): (s: string)
    ensures |s| == |v|
    ensures forall i :: 0 <= i < |v| ==> s[i] == Symbol(v[i])
  {
    seq(|v|, i requires 0 <= i < |v| => Symbol(v[i]))
  }

  /** The 6-bit values of one group of 1 to 3 bytes (section 4 of RFC 4648, before padding). */
  function GroupSextets(b: seq<byte>): (v: seq<sextet>)
    requires 1 <= |b| <= 3
    ensures |v| == |b| + 1
  {
    if |b| == 1 then [b[0] / 4, (b[0] % 4) * 16]
    else if |b| == 2 then [b[0] / 4, (b[0] % 4) * 16 + b[1] / 16, (b[1] % 16) * 4]
    else [b[0] / 4, (b[0] % 4) * 16 + b[1] / 16, (b[1] % 16) * 4 + b[2] / 64, b[2] % 64]
  }

  /** Section 4 of RFC 4648: each 3-byte group becomes 4 characters; a final group of 1 or 2 bytes is padded with '='. */
  function Encode(b: seq<byte>): (s: string)
    ensures |s| == 4 * ((|b| + 2) / 3)
    decreases |b|
  {
    if |b| == 0 then ""
    else if |b| == 1 then Symbols(GroupSextets(b)) + "=="
    else if |b| == 2 then Symbols(GroupSextets(b)) + "="
    else
      assert (|b| + 2) / 3 == (|b| - 3 + 2) / 3 + 1;
      Symbols(GroupSextets(b[..3])) + Encode(b[3..])
  }

  /** The 6-bit values of the alphabet characters of `s`, in order; every other character is skipped. */
  function Sextets(s: string): (v: seq<sextet>)
    ensures |v| <= |s|
    decreases |s|
  {
    if s == [] then []
    else (if IsSymbol(s[0]) then [SymbolValue(s[0])] else []) + Sextets(s[1..])
  }

  /** Regroups 6-bit values into bytes, four values to three bytes; a leftover of 2 or 3 values gives 1 or 2 bytes. */
  function Regroup(v: seq<sextet>): (b: seq<byte>)
    ensures |b| == |v| * 3 / 4
    decreases |v|
  {
    if |v| < 2 then []
    else
      var first: byte := v[0] as int * 4 + v[1] as int / 16;
      if |v| == 2 then [first]
      else
        var second: byte := (v[1] as int % 16) * 16 + v[2] as int / 4;
        if |v| == 3 then [first, second]
        else
          var third: byte := (v[2] as int % 4) * 64 + v[3] as int;
          [first, second, third] + Regroup(v[4..])
  }

  /** `Buffer.from(s, 'base64')`. */
  function Decode(s: string): (b: seq<byte>)
    ensures |b| == |Sextets(s)| * 3 / 4 && |b| <= |s| * 3 / 4
  {
    Regroup(Sextets(s))
  }

  lemma {:induction false} SextetsAppend(x: string, y: string)
    ensures Sextets(x + y) == Sextets(x) + Sextets(y)
    decreases |x|
  {
    if x != [] {
      var head: seq<sextet> := if IsSymbol(x[0]) then [SymbolValue(x[0])] else [];
      assert (x + y)[0] == x[0];
      assert (x + y)[1..] == x[1..] + y;
      SextetsAppend(x[1..], y);
      calc {
        Sextets(x + y);
        head + Sextets(x[1..] + y);
        head + (Sextets(x[1..]) + Sextets(y));
        (head + Sextets(x[1..])) + Sextets(y);
        Sextets(x) + Sextets(y);
      }
    } else {
      assert x + y == y;
    }
  }

  /** The four characters of a full group decode to the three bytes they encode. */
  lemma GroupRoundTrip(x: byte, y: byte, z: byte)
    ensures var v1 := (x % 4) * 16 + y / 16;
            var v2 := (y % 16) * 4 + z / 64;
            (x / 4) * 4 + v1 / 16 == x && (v1 % 16) * 16 + v2 / 4 == y && (v2 % 4) * 64 + z % 64 == z
  {
    var v1 := (x % 4) * 16 + y / 16;
    var v2 := (y % 16) * 4 + z / 64;
    assert v1 / 16 == x % 4 && v1 % 16 == y / 16;
    assert v2 / 4 == y % 16 && v2 % 4 == z / 64;
  }

  lemma PairRoundTrip(x: byte, y: byte)
    ensures var v1 := (x % 4) * 16 + y / 16;
            (x / 4) * 4 + v1 / 16 == x && (v1 % 16) * 16 + ((y % 16) * 4) / 4 == y
  {
    var v1 := (x % 4) * 16 + y / 16;
    assert v1 / 16 == x % 4 && v1 % 16 == y / 16;
  }

  lemma RegroupPair(v: seq<sextet>)
    requires |v| == 3
    ensures Regroup(v) == [v[0] as int * 4 + v[1] as int / 16, (v[1] as int % 16) * 16 + v[2] as int / 4]
  {
  }

  lemma {:induction false} SextetsOfSymbols(v: seq<sextet>)
    ensures Sextets(Symbols(v)) == v
    decreases |v|
  {
    if v != [] {
      SymbolValueOfSymbol(v[0]);
      assert Symbols(v)[1..] == Symbols(v[1..]);
      SextetsOfSymbols(v[1..]);
    }
  }

  lemma SextetsOfPadding(s: string)
    requires forall i :: 0 <= i < |s| ==> s[i] == '='
    ensures Sextets(s) == []
    decreases |s|
  {
    if s != [] {
      SextetsOfPadding(s[1..]);
    }
  }

  lemma SextetsOfEncodeOne(b: seq<byte>)
    requires |b| == 1
    ensures Sextets(Encode(b)) == GroupSextets(b)
  {
    var v := GroupSextets(b);
    assert Encode(b) == Symbols(v) + "==";
    SextetsAppend(Symbols(v), "==");
    SextetsOfSymbols(v);
    SextetsOfPadding("==");
    assert v + [] == v;
  }

  lemma RegroupOne(b: seq<byte>)
    requires |b| == 1
    ensures Regroup(GroupSextets(b)) == b
  {
    var x := b[0];
    var v := GroupSextets(b);
    assert v == [x / 4, (x % 4) * 16];
    assert ((x % 4) * 16) / 16 == x % 4;
    assert (x / 4) * 4 + x % 4 == x;
    assert Regroup(v) == [(x / 4) * 4 + ((x % 4) * 16) / 16];
  }

  lemma DecodeEncodeOne(b: seq<byte>)
    requires |b| == 1
    ensures Decode(Encode(b)) == b
  {
    SextetsOfEncodeOne(b);
    RegroupOne(b);
  }

  lemma SextetsOfEncodeTwo(b: seq<byte>)
    requires |b| == 2
    ensures Sextets(Encode(b)) == GroupSextets(b)
  {
    var v := GroupSextets(b);
    assert Encode(b) == Symbols(v) + "=";
    SextetsAppend(Symbols(v), "=");
    SextetsOfSymbols(v);
    SextetsOfPadding("=");
    assert v + [] == v;
  }

  lemma RegroupTwo(b: seq<byte>)
    requires |b| == 2
    ensures Regroup(GroupSextets(b)) == b
  {
    var x, y := b[0], b[1];
    var v := GroupSextets(b);
    assert v == [x / 4, (x % 4) * 16 + y / 16, (y % 16) * 4];
    RegroupPair(v);
    PairRoundTrip(x, y);
    assert Regroup(v) == [x, y];
  }

  lemma DecodeEncodeTwo(b: seq<byte>)
    requires |b| == 2
    ensures Decode(Encode(b)) == b
  {
    SextetsOfEncodeTwo(b);
    RegroupTwo(b);
  }

  /** A full group followed by more sextets regroups into its three bytes followed by the rest. */
  lemma RegroupGroup(b: seq<byte>, rest: seq<sextet>)
    requires |b| == 3
    ensures Regroup(GroupSextets(b) + rest) == b + Regroup(rest)
  {
    var v := GroupSextets(b);
    GroupRoundTrip(b[0], b[1], b[2]);
    assert (v + rest)[4..] == rest;
    assert b == [b[0], b[1], b[2]];
  }

  /** Decoding what section 4 of RFC 4648 encodes gives back the bytes. */
  lemma {:induction false} DecodeEncode(b: seq<byte>)
    ensures Decode(Encode(b)) == b
    decreases |b|
  {
    if |b| == 1 {
      DecodeEncodeOne(b);
    } else if |b| == 2 {
      DecodeEncodeTwo(b);
    } else if |b| >= 3 {
      var v := GroupSextets(b[..3]);
      var tail := Encode(b[3..]);
      SextetsAppend(Symbols(v), tail);
      SextetsOfSymbols(v);
      DecodeEncode(b[3..]);
      RegroupGroup(b[..3], Sextets(tail));
      assert b == b[..3] + b[3..];
    }
  }

  /** A non-empty byte sequence never encodes to the empty (falsy) string. */
  lemma EncodeNonEmpty(b: seq<byte>)
    ensures Encode(b) == "" <==> b == []
  {
  }
}
