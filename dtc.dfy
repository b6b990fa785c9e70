/** `readDtcs`: a service $03 reply turned into trouble-code strings such as
    "P0301". The reply is scanned after the first four hex characters in
    groups of four; each group is two bytes. */
module DtcDecoder {
  import opened Wrappers
  import Hex
  import Text

  const NO_DATA := "NO DATA"
  /** The reply the source treats as "zero codes stored". */
  const ZERO_COUNT := "43 00"
  /** Hex characters skipped before the first group. */
  const HEADER_LENGTH := 4
  /** The system letters, indexed by the top two bits of the first byte. */
  const CATEGORIES := "PCBU"

  /** `when (byte1 shr 6)`: 0, 1, 2, 3 give P, C, B, U; the source's `else`
      branch cannot be taken for a byte. */
  function Category(b1: nat): (c: char)
    requires b1 < 256
    ensures c in CATEGORIES && CategoryIndex(c) == b1 / 64
  {
    CATEGORIES[b1 / 64]
  }

  /** `((byte1 and 0x3F) shl 8) or byte2`: the low six bits of the first byte
      above the second byte. */
  function CodeNumber(b1: nat, b2: nat): (n: nat)
    requires b1 < 256 && b2 < 256
    ensures n < 0x4000
  {
    (b1 % 64) * 256 + b2
  }

  /** The arithmetic of `Category` and `CodeNumber` is the source's bit
      arithmetic on 16-bit words holding a byte. */
  lemma BitOperations(x: bv16, y: bv16)
    requires x < 256 && y < 256
    ensures x >> 6 == x / 64
    ensures ((x & 0x3F) << 8) | y == (x % 64) * 256 + y
  {
  }

  /** What every emitted code looks like: a system letter and four upper-case
      hex digits. */
  predicate WellFormed(code: string)
  {
    |code| == 5 && code[0] in CATEGORIES && forall k :: 1 <= k < 5 ==> Hex.IsUpperHexDigit(code[k])
  }

  /** `String.format("%s%04X", firstChar, number)` for the group's two bytes. */
  function Format(b1: nat, b2: nat): (code: string)
    requires b1 < 256 && b2 < 256
    ensures WellFormed(code)
    ensures code[0] == CATEGORIES[b1 / 64]
    ensures code[1..] == Hex.Hex4(CodeNumber(b1, b2))
  {
    [Category(b1)] + Hex.Hex4(CodeNumber(b1, b2))
  }

  function CategoryIndex(c: char): nat
  {
    if c == 'P' then 0 else if c == 'C' then 1 else if c == 'B' then 2 else 3
  }

  /** The two bytes a code string stands for, when it is a code at all. */
  function Bytes(code: string): Option<(nat, nat)>
  {
    if |code| == 5 && code[0] in CATEGORIES && forall k :: 1 <= k < 5 ==> Hex.IsHexDigit(code[k]) then
      var n := Hex.Value4(code[1..]);
      if n < 0x4000 then Some((64 * CategoryIndex(code[0]) + n / 256, n % 256)) else None
    else None
  }

  /** No information is lost in formatting: the bytes come back. */
  lemma FormatBytes(b1: nat, b2: nat)
    requires b1 < 256 && b2 < 256
    ensures Bytes(Format(b1, b2)) == Some((b1, b2))
  {
    var n := CodeNumber(b1, b2);
    var digits := Hex.Hex4(n);
    assert Format(b1, b2) == [CATEGORIES[b1 / 64]] + digits;
    BytesOf(CATEGORIES[b1 / 64], digits);
    var q := b1 / 64;
    assert CategoryIndex(CATEGORIES[q]) == q;
    Split(b1 % 64, b2);
    assert 64 * q + n / 256 == b1;
  }

  /** `Bytes` of a letter followed by four hex digits. */
  lemma BytesOf(c: char, digits: string)
    requires c in CATEGORIES && |digits| == 4
    requires forall k :: 0 <= k < 4 ==> Hex.IsHexDigit(digits[k])
    ensures var n := Hex.Value4(digits);
      Bytes([c] + digits) == if n < 0x4000 then Some((64 * CategoryIndex(c) + n / 256, n % 256)) else None
  {
    var code := [c] + digits;
    assert code[1..] == digits;
    forall k | 1 <= k < 5 ensures Hex.IsHexDigit(code[k]) { assert code[k] == digits[k - 1]; }
  }

  /** The quotient and remainder of a number written in base 256. */
  lemma Split(hi: nat, lo: nat)
    requires lo < 256
    ensures (hi * 256 + lo) / 256 == hi && (hi * 256 + lo) % 256 == lo
  {
  }

  /** Bytes 03 01 make the code P0301. */
  lemma FormatExample()
    ensures Format(0x03, 0x01) == "P0301"
  {
    assert CodeNumber(0x03, 0x01) == 0x0301;
    assert Hex.Hex2(0x03) == "03" && Hex.Hex2(0x01) == "01";
    assert Hex.Hex4(0x0301) == "0301";
  }

  /** The two bytes of the group `hex` starts with, if both parse. */
  function GroupAt(hex: string): (g: Option<(nat, nat)>)
    requires |hex| >= 4
    ensures g.Some? ==> g.value.0 < 256 && g.value.1 < 256
  {
    match (Hex.ParseByte(hex[..2]), Hex.ParseByte(hex[2..4]))
    case (Some(b1), Some(b2)) => Some((b1, b2))
    case _ => None
  }

  /** The codes the loop appends while scanning `hex` (the part of the reply
      from the loop index on): it stops when fewer than four characters
      remain, at a group that is not hex, and at the group 0000. */
  function Walk(hex: string): (codes: seq<string>)
    ensures forall k :: 0 <= k < |codes| ==> WellFormed(codes[k])
    ensures 4 * |codes| <= |hex|
  {
    if |hex| >= 4 then
      match GroupAt(hex)
      case Some((b1, b2)) =>
        if b1 == 0 && b2 == 0 then [] else [Format(b1, b2)] + Walk(hex[4..])
      case None => []
    else []
  }

  /** One step of the walk over a group that decodes to a code. */
  lemma WalkStep(hex: string, b1: nat, b2: nat)
    requires |hex| >= 4 && GroupAt(hex) == Some((b1, b2)) && !(b1 == 0 && b2 == 0)
    ensures Walk(hex) == [Format(b1, b2)] + Walk(hex[4..])
  {
  }

  /** The walk ends at a short tail, a group that does not parse, or 0000. */
  lemma WalkStops(hex: string)
    requires |hex| < 4 || GroupAt(hex).None? || GroupAt(hex) == Some((0, 0))
    ensures Walk(hex) == []
  {
  }

  /** The group at loop index `i` is the group the rest of the reply starts with. */
  lemma SliceOfSuffix(hex: string, i: nat)
    requires i + 4 <= |hex|
    ensures hex[i..][..2] == hex[i..i + 2] && hex[i..][2..4] == hex[i + 2..i + 4]
    ensures hex[i..][4..] == hex[i + 4..]
  {
  }

  /** The list `readDtcs` returns for the trimmed reply `response`. */
  function Decode(response: string): (codes: seq<string>)
    ensures Text.Contains(response, NO_DATA) || Text.Contains(response, ZERO_COUNT) ==> codes == []
    ensures forall k :: 0 <= k < |codes| ==> WellFormed(codes[k])
    ensures codes == [] || |codes| <= (|Hex.CleanHex(response)| - HEADER_LENGTH) / 4
  {
    var hex := Hex.CleanHex(response);
    if Text.Contains(response, NO_DATA) || Text.Contains(response, ZERO_COUNT) then []
    else if |hex| < HEADER_LENGTH then []
    else Walk(hex[HEADER_LENGTH..])
  }

  /** `readDtcs` on the trimmed reply `response`. */
  method Parse(response: string) returns (dtcList: seq<string>)
    ensures dtcList == Decode(response)
  {
    var hex := Hex.CleanHex(response);
    if Text.Contains(response, NO_DATA) || Text.Contains(response, ZERO_COUNT) {
      return [];
    }
    if |hex| < HEADER_LENGTH {
      return [];
    }
    dtcList := Scan(hex);
  }

  /** The loop of `readDtcs`, index `i` advancing by four from the header
      until a `break`. */
  method Scan(hex: string) returns (dtcList: seq<string>)
    requires HEADER_LENGTH <= |hex|
    ensures dtcList == Walk(hex[HEADER_LENGTH..])
  {
    dtcList := [];
    var i := HEADER_LENGTH;
    while i + 3 < |hex|
      invariant HEADER_LENGTH <= i <= |hex|
      invariant dtcList + Walk(hex[i..]) == Walk(hex[HEADER_LENGTH..])
      decreases |hex| - i
    {
      var byte1 := Hex.ParseByte(hex[i..i + 2]);
      if byte1.None? {
        StopsAt(hex, i);
        break;
      }
      var byte2 := Hex.ParseByte(hex[i + 2..i + 4]);
      if byte2.None? {
        StopsAt(hex, i);
        break;
      }
      if byte1.value == 0 && byte2.value == 0 {
        StopsAt(hex, i);
        break;
      }
      var dtc := Format(byte1.value, byte2.value);
      StepsAt(hex, i, byte1.value, byte2.value, dtcList);
      dtcList := dtcList + [dtc];
      i := i + 4;
    }
    if i + 3 >= |hex| {
      WalkStops(hex[i..]);
    }
  }

  /** The loop's three `break`s at index `i` are where the walk ends. */
  lemma StopsAt(hex: string, i: nat)
    requires i + 4 <= |hex|
    requires || Hex.ParseByte(hex[i..i + 2]).None?
             || Hex.ParseByte(hex[i + 2..i + 4]).None?
             || (Hex.ParseByte(hex[i..i + 2]) == Some(0) && Hex.ParseByte(hex[i + 2..i + 4]) == Some(0))
    ensures Walk(hex[i..]) == []
  {
    SliceOfSuffix(hex, i);
    WalkStops(hex[i..]);
  }

  /** A code found at index `i` is the next one of the walk. */
  lemma StepsAt(hex: string, i: nat, b1: nat, b2: nat, found: seq<string>)
    requires i + 4 <= |hex|
    requires Hex.ParseByte(hex[i..i + 2]) == Some(b1) && Hex.ParseByte(hex[i + 2..i + 4]) == Some(b2)
    requires !(b1 == 0 && b2 == 0)
    ensures b1 < 256 && b2 < 256
    ensures found + Walk(hex[i..]) == (found + [Format(b1, b2)]) + Walk(hex[i + 4..])
  {
    SliceOfSuffix(hex, i);
    WalkStep(hex[i..], b1, b2);
  }

  /** Two bytes as the four hex characters of one group. */
  function Group(b1: nat, b2: nat): (g: string)
    requires b1 < 256 && b2 < 256
  {
    Hex.Hex2(b1) + Hex.Hex2(b2)
  }

  predicate ValidPairs(pairs: seq<(nat, nat)>)
  {
    forall k :: 0 <= k < |pairs| ==> pairs[k].0 < 256 && pairs[k].1 < 256 && pairs[k] != (0, 0)
  }

  /** The groups of a list of byte pairs, in order. */
  function Encode(pairs: seq<(nat, nat)>): (hex: string)
    requires ValidPairs(pairs)
    ensures |hex| == 4 * |pairs|
  {
    if pairs == [] then [] else Group(pairs[0].0, pairs[0].1) + Encode(pairs[1..])
  }

  lemma GroupAtGroup(b1: nat, b2: nat, rest: string)
    requires b1 < 256 && b2 < 256
    ensures GroupAt(Group(b1, b2) + rest) == Some((b1, b2))
    ensures (Group(b1, b2) + rest)[4..] == rest
  {
    var s := Group(b1, b2) + rest;
    assert s[..2] == Hex.Hex2(b1) && s[2..4] == Hex.Hex2(b2);
  }

  /** The codes of a list of byte pairs, in order. */
  function Render(pairs: seq<(nat, nat)>): (codes: seq<string>)
    requires ValidPairs(pairs)
    ensures |codes| == |pairs|
  {
    if pairs == [] then [] else [Format(pairs[0].0, pairs[0].1)] + Render(pairs[1..])
  }

  /** Groups are decoded in order, one code per nonzero pair, and whatever
      follows them is read as if it stood alone. */
  lemma {:induction false} WalkEncode(pairs: seq<(nat, nat)>, tail: string)
    requires ValidPairs(pairs)
    ensures Walk(Encode(pairs) + tail) == Render(pairs) + Walk(tail)
  {
    if pairs == [] {
      assert Encode(pairs) + tail == tail;
    } else {
      var (b1, b2) := pairs[0];
      var g, rest := Group(b1, b2), Encode(pairs[1..]) + tail;
      assert Encode(pairs) + tail == g + rest;
      GroupAtGroup(b1, b2, rest);
      WalkStep(g + rest, b1, b2);
      WalkEncode(pairs[1..], tail);
    }
  }

  /** The group 0000 ends the list: nothing after it is decoded. */
  lemma SentinelEndsWalk(pairs: seq<(nat, nat)>, rest: string)
    requires ValidPairs(pairs)
    ensures Walk(Encode(pairs) + ("0000" + rest)) == Render(pairs)
  {
    var t := "0000" + rest;
    WalkEncode(pairs, t);
    assert t[..2] == "00" && t[2..4] == "00";
    assert Hex.ParseByte("00") == Some(0);
    WalkStops(t);
  }

  /** A whole reply: no marker, four characters of header, then the groups.
      The codes come out in reply order, one per group. */
  lemma DecodeReply(response: string, header: string, pairs: seq<(nat, nat)>, tail: string)
    requires !Text.Contains(response, NO_DATA) && !Text.Contains(response, ZERO_COUNT)
    requires ValidPairs(pairs) && |header| == HEADER_LENGTH
    requires Hex.CleanHex(response) == header + Encode(pairs) + tail
    ensures Decode(response) == Render(pairs) + Walk(tail)
  {
    var hex := Hex.CleanHex(response);
    assert hex[HEADER_LENGTH..] == Encode(pairs) + tail;
    WalkEncode(pairs, tail);
  }
}
