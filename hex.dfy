/** Hexadecimal text as the decoders read and write it: the two-character
    slices parsed with `toInt(16)` / `toIntOrNull(16)`, the `%04X` rendering,
    and the clean-up `replace(" ", "").replace(">", "")`. */
module Hex {
  import opened Wrappers
  import Text

  predicate IsHexDigit(c: char)
  {
    ('0' <= c <= '9') || ('a' <= c <= 'f') || ('A' <= c <= 'F')
  }

  predicate IsUpperHexDigit(c: char)
  {
    ('0' <= c <= '9') || ('A' <= c <= 'F')
  }

  function DigitValue(c: char): (v: nat)
    requires IsHexDigit(c)
    ensures v < 16
  {
    if c <= '9' then c as int - '0' as int
    else if c <= 'F' then c as int - 'A' as int + 10
    else c as int - 'a' as int + 10
  }

  /** The byte two hex digits denote, the first one high. */
  function PairValue(hi: char, lo: char): (v: nat)
    requires IsHexDigit(hi) && IsHexDigit(lo)
    ensures v < 256
  {
    16 * DigitValue(hi) + DigitValue(lo)
  }

  /** A two-character slice read as a byte: both characters hex digits, or
      failure (the NumberFormatException / null of the source). */
  function ParseByte(s: string): (r: Option<nat>)
    requires |s| == 2
    ensures r.Some? <==> IsHexDigit(s[0]) && IsHexDigit(s[1])
    ensures r.Some? ==> r.value < 256
  {
    if IsHexDigit(s[0]) && IsHexDigit(s[1]) then Some(PairValue(s[0], s[1])) else None
  }

  /** The number four hex digits denote, most significant digit first. */
  function Value4(s: string): (v: nat)
    requires |s| == 4 && forall k :: 0 <= k < 4 ==> IsHexDigit(s[k])
    ensures v < 0x1_0000
  {
    256 * PairValue(s[0], s[1]) + PairValue(s[2], s[3])
  }

  const UPPER_DIGITS := "0123456789ABCDEF"

  /** The upper-case digit for `d`, as `%X` prints it. */
  function UpperDigit(d: nat): (c: char)
    requires d < 16
    ensures IsUpperHexDigit(c) && IsHexDigit(c) && DigitValue(c) == d
  {
    UPPER_DIGITS[d]
  }

  /** A byte as two upper-case hex digits. */
  function Hex2(b: nat): (s: string)
    requires b < 256
    ensures |s| == 2 && IsUpperHexDigit(s[0]) && IsUpperHexDigit(s[1])
    ensures ParseByte(s) == Some(b)
  {
    [UpperDigit(b / 16), UpperDigit(b % 16)]
  }

  /** The upper-case form of a character (only the letters a to f matter here). */
  function ToUpper(c: char): (u: char)
    ensures IsHexDigit(c) ==> IsUpperHexDigit(u)
    ensures IsUpperHexDigit(c) ==> u == c
  {
    if 'a' <= c <= 'f' then (c as int - 'a' as int + 'A' as int) as char else c
  }

  /** A hex digit of either case denotes the value whose upper-case digit is
      that digit upper-cased. */
  lemma DigitRoundTrip(c: char)
    requires IsHexDigit(c)
    ensures UpperDigit(DigitValue(c)) == ToUpper(c)
  {
    var d := DigitValue(c);
    if c <= '9' {
      assert d == c as int - '0' as int;
    } else if c <= 'F' {
      assert d == c as int - 'A' as int + 10;
    } else {
      assert d == c as int - 'a' as int + 10;
    }
    assert UPPER_DIGITS[d] as int == if d < 10 then '0' as int + d else 'A' as int + d - 10 by {
      assert forall k | 0 <= k < 16 ::
        UPPER_DIGITS[k] as int == if k < 10 then '0' as int + k else 'A' as int + k - 10;
    }
  }

  /** The value of a parsed pair is the byte whose `%02X` rendering is the
      pair upper-cased: parsing fixes the value, not only its range. */
  lemma ParseByteRoundTrip(s: string)
    requires |s| == 2
    ensures ParseByte(s).Some? ==> Hex2(ParseByte(s).value) == [ToUpper(s[0]), ToUpper(s[1])]
  {
    if ParseByte(s).Some? {
      var hi, lo := DigitValue(s[0]), DigitValue(s[1]);
      var b := 16 * hi + lo;
      assert ParseByte(s) == Some(b);
      Split16(hi, lo);
      assert b / 16 == hi && b % 16 == lo;
      assert Hex2(b) == [UpperDigit(hi), UpperDigit(lo)];
      DigitRoundTrip(s[0]);
      DigitRoundTrip(s[1]);
    }
  }

  lemma Split16(hi: nat, lo: nat)
    requires lo < 16
    ensures (16 * hi + lo) / 16 == hi && (16 * hi + lo) % 16 == lo
  {
  }

  /** `String.format("%04X", n)` for `n` below 0x10000: four upper-case,
      zero-padded hex digits denoting `n`. */
  function Hex4(n: nat): (s: string)
    requires n < 0x1_0000
    ensures |s| == 4
    ensures forall k :: 0 <= k < 4 ==> IsUpperHexDigit(s[k]) && IsHexDigit(s[k])
    ensures Value4(s) == n
  {
    Hex2(n / 256) + Hex2(n % 256)
  }

  /** `response.replace(" ", "").replace(">", "")`. */
  function CleanHex(response: string): (hex: string)
    ensures ' ' !in hex && '>' !in hex
    ensures |hex| <= |response|
  {
    Text.Remove(Text.Remove(response, ' '), '>')
  }

  /** The clean-up works piece by piece. */
  lemma CleanHexAppend(a: string, b: string)
    ensures CleanHex(a + b) == CleanHex(a) + CleanHex(b)
  {
    Text.RemoveAppend(a, b, ' ');
    Text.RemoveAppend(Text.Remove(a, ' '), Text.Remove(b, ' '), '>');
  }

  /** Text without spaces and prompts passes the clean-up unchanged. */
  lemma CleanHexKeeps(s: string)
    requires ' ' !in s && '>' !in s
    ensures CleanHex(s) == s
  {
    Text.RemoveAbsent(s, ' ');
    Text.RemoveAbsent(s, '>');
  }
}
