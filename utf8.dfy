/**
 * Strict UTF-8 decoding, as Python's `bytes.decode('utf-8')` performs it:
 * shortest forms only, no surrogate code points, nothing above U+10FFFF.
 * The parser uses it for keys and for string values; only whether it
 * succeeds, and the characters it yields, matter there.
 */
module Utf8 {
  import opened Bytes

  predicate IsContinuation(b: byte)
  {
    0x80 <= b <= 0xBF
  }

  /** The range the second byte of a three-byte sequence must lie in, by lead byte. */
  predicate SecondOfThree(lead: int, b: byte)
  {
    if lead == 0xE0 then 0xA0 <= b <= 0xBF
    else if lead == 0xED then 0x80 <= b <= 0x9F
    else IsContinuation(b)
  }

  /** The range the second byte of a four-byte sequence must lie in, by lead byte. */
  predicate SecondOfFour(lead: int, b: byte)
  {
    if lead == 0xF0 then 0x90 <= b <= 0xBF
    else if lead == 0xF4 then 0x80 <= b <= 0x8F
    else IsContinuation(b)
  }

  /** Prepends c to a decoded rest, or fails with it. */
  function Prepend(c: char, rest: Option<string>): Option<string>
  {
    match rest
    case None => None
    case Some(cs) => Some([c] + cs)
  }

  /** The characters b encodes, or None when b is not well-formed UTF-8. */
  function Decode(b: seq<byte>): (r: Option<string>)
    ensures r.Some? ==> |r.value| <= |b|
    decreases |b|, 1
  {
    if |b| == 0 then Some([]) else DecodeChar(b)
  }

  /** Decodes the first character of a non-empty b, then the rest. */
  function DecodeChar(b: seq<byte>): (r: Option<string>)
    requires |b| > 0
    ensures r.Some? ==> |r.value| <= |b|
    decreases |b|, 0
  {
    var lead: int := b[0];
    if lead < 0x80 then
      Prepend(lead as char, Decode(b[1..]))
    else if 0xC2 <= lead <= 0xDF then
      if |b| >= 2 && IsContinuation(b[1]) then
        Prepend(((lead - 0xC0) * 0x40 + (b[1] as int - 0x80)) as char, Decode(b[2..]))
      else None
    else if 0xE0 <= lead <= 0xEF then
      if |b| >= 3 && SecondOfThree(lead, b[1]) && IsContinuation(b[2]) then
        var cp := (lead - 0xE0) * 0x1000 + (b[1] as int - 0x80) * 0x40 + (b[2] as int - 0x80);
        Prepend(cp as char, Decode(b[3..]))
      else None
    else if 0xF0 <= lead <= 0xF4 then
      if |b| >= 4 && SecondOfFour(lead, b[1]) && IsContinuation(b[2]) && IsContinuation(b[3]) then
        var cp := (lead - 0xF0) * 0x40000 + (b[1] as int - 0x80) * 0x1000 + (b[2] as int - 0x80) * 0x40 + (b[3] as int - 0x80);
        Prepend(cp as char, Decode(b[4..]))
      else None
    else
      None
  }

  /** ASCII bytes decode one character per byte, to the same code points. */
  lemma {:induction false} DecodeAscii(b: seq<byte>)
    requires forall i :: 0 <= i < |b| ==> b[i] < 0x80
    ensures Decode(b).Some?
    ensures |Decode(b).value| == |b|
    ensures forall i :: 0 <= i < |b| ==> Decode(b).value[i] as int == b[i]
  {
    if b != [] {
      DecodeAscii(b[1..]);
    }
  }
}
