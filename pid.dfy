/** `readPid`: a service $01 reply turned into a reading, with the fixed
    character offsets of the source (payload bytes at positions 6..8 and
    8..10 of the cleaned reply). */
module PidDecoder {
  import opened Wrappers
  import Hex

  const RPM := "010C"
  const SPEED := "010D"
  const COOLANT := "0105"

  /** The byte in hex characters `i` and `i + 1`: `hex.substring(i, i + 2).toInt(16)`. */
  function ByteAt(hex: string, i: nat): (b: Option<nat>)
    requires i + 2 <= |hex|
    ensures b.Some? <==> Hex.IsHexDigit(hex[i]) && Hex.IsHexDigit(hex[i + 1])
    ensures b.Some? ==> b.value < 256
  {
    Hex.ParseByte(hex[i..i + 2])
  }

  /** The value `readPid(pid)` returns for the trimmed reply `response`.
      Every anomaly (reply too short, unknown PID, a slice that is not hex)
      gives 0; nothing is ever thrown. */
  function Decode(pid: string, response: string): (v: int)
    ensures pid == RPM ==> 0 <= v <= 16383
    ensures pid == SPEED ==> 0 <= v <= 255
    ensures pid == COOLANT ==> -40 <= v <= 215
    ensures pid != RPM && pid != SPEED && pid != COOLANT ==> v == 0
    ensures |Hex.CleanHex(response)| < 8 ==> v == 0
    ensures pid == RPM && |Hex.CleanHex(response)| < 10 ==> v == 0
    ensures |Hex.CleanHex(response)| >= 8 && ByteAt(Hex.CleanHex(response), 6).None? ==> v == 0
    ensures pid == RPM && |Hex.CleanHex(response)| >= 10 && ByteAt(Hex.CleanHex(response), 8).None? ==> v == 0
  {
    var hex := Hex.CleanHex(response);
    if pid == RPM then
      if |hex| >= 10 then
        match (ByteAt(hex, 6), ByteAt(hex, 8))
        case (Some(a), Some(b)) => (256 * a + b) / 4
        case _ => 0
      else 0
    else if pid == SPEED then
      if |hex| >= 8 then
        match ByteAt(hex, 6)
        case Some(a) => a
        case None => 0
      else 0
    else if pid == COOLANT then
      if |hex| >= 8 then
        match ByteAt(hex, 6)
        case Some(a) => a - 40
        case None => 0
      else 0
    else 0
  }

  /** Whatever the reply, a decoded value lies between -40 and 16383. */
  lemma DecodeTotal(pid: string, response: string)
    ensures -40 <= Decode(pid, response) <= 16383
  {
  }

  /** The formulas on the cleaned reply itself: whenever the slices at the
      source's offsets parse (upper- or lower-case digits, or a pair the
      clean-up joined across a blank), engine speed is (256 * A + B) / 4,
      vehicle speed is A and coolant temperature is A - 40. */
  lemma DecodeByBytes(response: string)
    ensures var hex := Hex.CleanHex(response);
      |hex| >= 10 && ByteAt(hex, 6).Some? && ByteAt(hex, 8).Some? ==>
        Decode(RPM, response) == (256 * ByteAt(hex, 6).value + ByteAt(hex, 8).value) / 4
    ensures var hex := Hex.CleanHex(response);
      |hex| >= 8 && ByteAt(hex, 6).Some? ==>
        && Decode(SPEED, response) == ByteAt(hex, 6).value
        && Decode(COOLANT, response) == ByteAt(hex, 6).value - 40
  {
  }

  /** The pieces of a reply: six characters of header after clean-up, then the
      payload bytes, separated by anything the clean-up deletes. */
  lemma {:induction false} CleanPayload(front: string, a: nat, mid: string, b: nat, back: string)
    requires |Hex.CleanHex(front)| == 6 && Hex.CleanHex(mid) == []
    requires a < 256 && b < 256
    ensures var hex := Hex.CleanHex(front + Hex.Hex2(a) + mid + Hex.Hex2(b) + back);
      && |hex| >= 10 && ByteAt(hex, 6) == Some(a) && ByteAt(hex, 8) == Some(b)
  {
    var ha, hb := Hex.Hex2(a), Hex.Hex2(b);
    var f := Hex.CleanHex(front);
    var hex := Hex.CleanHex(front + ha + mid + hb + back);
    Hex.CleanHexKeeps(ha);
    Hex.CleanHexKeeps(hb);
    CleanPieces(front, ha, mid, hb, back);
    assert hex == f + ha + hb + Hex.CleanHex(back);
    assert hex[6..8] == ha;
    assert hex[8..10] == hb;
  }

  /** Cleaning the pieces of a reply one by one: the payload pairs survive,
      the separator between them vanishes. */
  lemma CleanPieces(front: string, ha: string, mid: string, hb: string, back: string)
    requires Hex.CleanHex(ha) == ha && Hex.CleanHex(hb) == hb && Hex.CleanHex(mid) == []
    ensures Hex.CleanHex(front + ha + mid + hb + back)
      == Hex.CleanHex(front) + ha + hb + Hex.CleanHex(back)
  {
    var f := Hex.CleanHex(front);
    var upToA := front + ha;
    Hex.CleanHexAppend(front, ha);
    var upToMid := upToA + mid;
    Hex.CleanHexAppend(upToA, mid);
    assert Hex.CleanHex(upToMid) == f + ha;
    var upToB := upToMid + hb;
    Hex.CleanHexAppend(upToMid, hb);
    Hex.CleanHexAppend(upToB, back);
  }

  /** An RPM reply whose payload bytes A and B sit at the source's offsets
      decodes to (256 * A + B) / 4 with integer division. */
  lemma RpmFormula(front: string, a: nat, mid: string, b: nat, back: string)
    requires |Hex.CleanHex(front)| == 6 && Hex.CleanHex(mid) == []
    requires a < 256 && b < 256
    ensures Decode(RPM, front + Hex.Hex2(a) + mid + Hex.Hex2(b) + back) == (256 * a + b) / 4
  {
    CleanPayload(front, a, mid, b, back);
  }

  /** A speed reply decodes to its byte A, a coolant reply to A - 40, which is
      negative exactly when A is below 40. */
  lemma {:induction false} SingleByteFormula(front: string, a: nat, back: string)
    requires |Hex.CleanHex(front)| == 6
    requires a < 256
    ensures Decode(SPEED, front + Hex.Hex2(a) + back) == a
    ensures Decode(COOLANT, front + Hex.Hex2(a) + back) == a - 40
    ensures Decode(COOLANT, front + Hex.Hex2(a) + back) < 0 <==> a < 40
  {
    var ha := Hex.Hex2(a);
    Hex.CleanHexKeeps(ha);
    Hex.CleanHexAppend(front + ha, back);
    Hex.CleanHexAppend(front, ha);
    var hex := Hex.CleanHex(front + ha + back);
    assert hex == Hex.CleanHex(front) + ha + Hex.CleanHex(back);
    assert hex[6..8] == ha;
  }

  /** The standard headers-off RPM reply, "41 0C" followed by the bytes A and
      B, has only eight hex characters, so the source's offsets read it as 0. */
  lemma StandardRpmReplyReadsZero(a: nat, b: nat)
    requires a < 256 && b < 256
    ensures Decode(RPM, "410C" + Hex.Hex2(a) + Hex.Hex2(b)) == 0
  {
    var s := "410C" + Hex.Hex2(a) + Hex.Hex2(b);
    assert forall k :: 0 <= k < |s| ==> s[k] != ' ' && s[k] != '>';
    Hex.CleanHexKeeps(s);
  }

  /** The same reply as the adapter ends it, two carriage returns and the
      prompt: trimming keeps the returns (the prompt is not whitespace), the
      clean-up keeps them too, and the engine-speed branch then reads them
      as its second byte, which is not hex, so the value is 0. */
  lemma PromptedRpmReplyReadsZero(a: nat, b: nat)
    requires a < 256 && b < 256
    ensures Decode(RPM, "410C" + Hex.Hex2(a) + Hex.Hex2(b) + "\r\r>") == 0
  {
    var s := "410C" + Hex.Hex2(a) + Hex.Hex2(b) + "\r\r";
    assert forall k :: 0 <= k < |s| ==> s[k] != ' ' && s[k] != '>';
    Hex.CleanHexKeeps(s);
    Hex.CleanHexAppend(s, ">");
    assert Hex.CleanHex(">") == [];
    assert "410C" + Hex.Hex2(a) + Hex.Hex2(b) + "\r\r>" == s + ">";
    assert |s| == 10 && s[8] == '\r' && s[9] == '\r';
    assert ByteAt(s, 8).None?;
  }
}
