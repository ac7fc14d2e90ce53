/**
 * Byte-level encodings used when framing a git blob: `TextEncoder`'s UTF-8,
 * the UTF-16 code units behind `charCodeAt`, decimal rendering of a length
 * (`${n}`) and the two-digit lowercase hex rendering of a digest byte
 * (`b.toString(16).padStart(2, "0")`).
 */
module Encoding {
  import opened Wrappers

  type byte = x: int | 0 <= x < 256

  /** The UTF-8 encoding of one scalar value. */
  function CharBytes(c: char): (r: seq<byte>)
    ensures 1 <= |r| <= 4
    ensures |r| == 1 <==> c as int < 0x80
    ensures |r| == 1 ==> r[0] == c as int
  {
    var n := c as int;
    if n < 0x80 then [n]
    else if n < 0x800 then [0xC0 + n / 0x40, 0x80 + n % 0x40]
    else if n < 0x10000 then [0xE0 + n / 0x1000, 0x80 + (n / 0x40) % 0x40, 0x80 + n % 0x40]
    else [0xF0 + n / 0x40000, 0x80 + (n / 0x1000) % 0x40, 0x80 + (n / 0x40) % 0x40, 0x80 + n % 0x40]
  }

  /** `new TextEncoder().encode(s)`. */
  function Utf8Encode(s: string): (r: seq<byte>)
    ensures |r| >= |s|
  {
    if s == [] then [] else CharBytes(s[0]) + Utf8Encode(s[1..])
  }

  lemma {:induction false} Utf8EncodeAppend(a: string, b: string)
    ensures Utf8Encode(a + b) == Utf8Encode(a) + Utf8Encode(b)
  {
    if a == [] {
      assert a + b == b;
    } else {
      assert (a + b)[1..] == a[1..] + b;
      Utf8EncodeAppend(a[1..], b);
    }
  }

  predicate IsAscii(s: string) {
    forall i :: 0 <= i < |s| ==> s[i] as int < 0x80
  }

  /** An ASCII string encodes to its own code points, one byte each. */
  lemma {:induction false} AsciiEncoding(s: string)
    requires IsAscii(s)
    ensures |Utf8Encode(s)| == |s|
    ensures forall i :: 0 <= i < |s| ==> Utf8Encode(s)[i] == s[i] as int
  {
    if s != [] {
      AsciiEncoding(s[1..]);
    }
  }

  /** The UTF-16 code units of a string, as `charCodeAt` reads them. */
  function Utf16Units(s: string): (r: seq<int>)
    ensures |r| >= |s|
    ensures forall i :: 0 <= i < |r| ==> 0 <= r[i] < 0x10000
  {
    if s == [] then []
    else
      var n := s[0] as int;
      var head := if n < 0x10000 then [n]
                  else [0xD800 + (n - 0x10000) / 0x400, 0xDC00 + (n - 0x10000) % 0x400];
      head + Utf16Units(s[1..])
  }

  /** `Uint8Array.from(units)`: each number is reduced modulo 256. */
  function LowBytes(units: seq<int>): (r: seq<byte>)
    ensures |r| == |units|
    ensures forall i :: 0 <= i < |r| ==> r[i] == units[i] % 256
  {
    seq(|units|, i requires 0 <= i < |units| => units[i] % 256)
  }

  // ---------------------------------------------------------------- decimal

  function DigitChar(d: nat): char
    requires d < 10
  {
    ('0' as int + d) as char
  }

  predicate IsDigit(c: char) { '0' <= c <= '9' }

  /** `${n}` for a non-negative integer: its decimal digits, no leading zero. */
  function DecimalString(n: nat): (r: string)
    ensures |r| >= 1
    ensures forall i :: 0 <= i < |r| ==> IsDigit(r[i])
    ensures |r| > 1 ==> r[0] != '0'
  {
    if n < 10 then [DigitChar(n)] else DecimalString(n / 10) + [DigitChar(n % 10)]
  }

  /** Reads a string of decimal digits back as a number. */
  function ParseDecimal(s: string): Option<nat> {
    if s == [] then None
    else if exists i :: 0 <= i < |s| && !IsDigit(s[i]) then None
    else Some(DigitsValue(s))
  }

  function DigitsValue(s: string): nat
    requires forall i :: 0 <= i < |s| ==> IsDigit(s[i])
  {
    if s == [] then 0
    else
      assert IsDigit(s[|s| - 1]);
      DigitsValue(s[..|s| - 1]) * 10 + (s[|s| - 1] as int - '0' as int)
  }

  /** The decimal rendering of a length reads back as that length. */
  lemma {:induction false} DecimalRoundTrip(n: nat)
    ensures ParseDecimal(DecimalString(n)) == Some(n)
  {
    DigitsOfDecimal(n);
  }

  lemma {:induction false} DigitsOfDecimal(n: nat)
    ensures DigitsValue(DecimalString(n)) == n
  {
    var s := DecimalString(n);
    if n >= 10 {
      DigitsOfDecimal(n / 10);
      assert s[..|s| - 1] == DecimalString(n / 10);
    }
  }

  // -------------------------------------------------------------------- hex

  /** The lowercase hex digit of a value below 16. */
  function HexDigit(k: nat): (c: char)
    requires k < 16
    ensures HexValue(c) == Some(k)
  {
    if k < 10 then ('0' as int + k) as char else ('a' as int + k - 10) as char
  }

  predicate IsHexDigit(c: char) { '0' <= c <= '9' || 'a' <= c <= 'f' }

  predicate IsLowerHex(s: string) {
    forall i :: 0 <= i < |s| ==> IsHexDigit(s[i])
  }

  /** `b.toString(16).padStart(2, "0")`. */
  function HexByte(b: byte): (r: string)
    ensures |r| == 2 && IsLowerHex(r)
  {
    [HexDigit(b / 16), HexDigit(b % 16)]
  }

  /** `Array.from(digest).map(hexByte).join("")`. */
  function HexString(d: seq<byte>): (r: string)
    ensures |r| == 2 * |d|
    ensures IsLowerHex(r)
  {
    if d == [] then [] else HexByte(d[0]) + HexString(d[1..])
  }

  function HexValue(c: char): Option<nat> {
    if '0' <= c <= '9' then Some(c as int - '0' as int)
    else if 'a' <= c <= 'f' then Some(c as int - 'a' as int + 10)
    else None
  }

  /** Reads a lowercase hex rendering back into bytes. */
  function ParseHex(s: string): Option<seq<byte>>
    decreases |s|
  {
    if s == [] then Some([])
    else if |s| == 1 then None
    else match (HexValue(s[0]), HexValue(s[1]), ParseHex(s[2..]))
      case (Some(hi), Some(lo), Some(rest)) =>
        if hi < 16 && lo < 16 then Some([hi * 16 + lo] + rest) else None
      case _ => None
  }

  /** The hex rendering is lossless: it parses back to the digest. */
  lemma {:induction false} HexRoundTrip(d: seq<byte>)
    ensures ParseHex(HexString(d)) == Some(d)
  {
    if d != [] {
      var s := HexString(d);
      assert s[2..] == HexString(d[1..]);
      HexRoundTrip(d[1..]);
      var b := d[0];
      assert s[0] == HexDigit(b / 16) && s[1] == HexDigit(b % 16);
      assert (b / 16) * 16 + b % 16 == b;
      assert HexValue(s[0]) == Some(b / 16) && HexValue(s[1]) == Some(b % 16);
      assert ParseHex(s) == Some([b] + d[1..]);
      assert [b] + d[1..] == d;
    }
  }
}
