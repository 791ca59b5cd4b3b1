/**
 * The hex serialiser of frontend/src/Util.mjs: the `byteToHex` table the
 * module builds when it loads, and `hex(arrayBuffer)`, which turns bytes
 * into the lowercase hex string the viewer hands to the parser. The
 * parser's `bytes.fromhex` reads such a string back two digits at a time;
 * FromHex models that pairwise reading.
 */
module HexUtil {
  import opened Bytes

  /** The characters `Number.prototype.toString(16)` writes: 0-9 and a-f. */
  predicate IsLowerHexDigit(c: char)
  {
    '0' <= c <= '9' || 'a' <= c <= 'f'
  }

  /** The lowercase digit of a value below 16. */
  function HexDigit(d: nat): (c: char)
    requires d < 16
    ensures IsLowerHexDigit(c)
  {
    if d < 10 then ('0' as int + d) as char else ('a' as int + d - 10) as char
  }

  /** The value of a hex digit of either case, as `bytes.fromhex` accepts it. */
  function DigitValue(c: char): (r: Option<nat>)
    ensures r.Some? ==> r.value < 16
  {
    if '0' <= c <= '9' then Some(c as int - '0' as int)
    else if 'a' <= c <= 'f' then Some(c as int - 'a' as int + 10)
    else if 'A' <= c <= 'F' then Some(c as int - 'A' as int + 10)
    else None
  }

  /** Each lowercase digit reads back as its value. */
  lemma DigitValueOfHexDigit(d: nat)
    requires d < 16
    ensures DigitValue(HexDigit(d)) == Some(d)
  {
  }

  /** The value of a run of hex digits, most significant first. */
  function DigitsValue(s: string): nat
  {
    if s == [] then 0
    else
      var last := DigitValue(s[|s| - 1]);
      16 * DigitsValue(s[..|s| - 1]) + if last.Some? then last.value else 0
  }

  /** `n.toString(16)`: the base-16 digits of n, most significant first, with no leading zero. */
  function ToString16(n: nat): (r: string)
    ensures 1 <= |r|
    ensures |r| == 1 <==> n < 16
    ensures r[0] != '0' || n == 0
    ensures forall i :: 0 <= i < |r| ==> IsLowerHexDigit(r[i])
    decreases n
  {
    if n < 16 then [HexDigit(n)]
    else ToString16(n / 16) + [HexDigit(n % 16)]
  }

  /** The digits ToString16 writes read back as the number. */
  lemma {:induction false} ToString16Value(n: nat)
    ensures DigitsValue(ToString16(n)) == n
  {
    var r := ToString16(n);
    DigitValueOfHexDigit(n % 16);
    if n >= 16 {
      ToString16Value(n / 16);
      assert r[..|r| - 1] == ToString16(n / 16);
    }
  }

  /** `s.padStart(len, fill)`: s with copies of fill in front, up to len characters. */
  function PadStart(s: string, len: nat, fill: char): (r: string)
    ensures |r| == if |s| >= len then |s| else len
    ensures r[|r| - |s|..] == s
    ensures forall i :: 0 <= i < |r| - |s| ==> r[i] == fill
  {
    if |s| >= len then s else seq(len - |s|, _ => fill) + s
  }

  /** The two-character form of a byte: the high nibble's digit, then the low nibble's. */
  function HexOctet(n: byte): (r: string)
  {
    [HexDigit(n / 16), HexDigit(n % 16)]
  }

  /**
   * `n.toString(16).padStart(2, "0")` is the octet form of n: below 16 the
   * single digit is padded with the digit of a zero high nibble; from 16 on
   * there are two digits already.
   */
  lemma OctetDigits(n: byte)
    ensures PadStart(ToString16(n), 2, '0') == HexOctet(n)
  {
    var digits := ToString16(n);
    var padded := PadStart(digits, 2, '0');
    if n < 16 {
      assert digits == [HexDigit(n)];
      assert |padded| == 2 && padded[0] == '0' && padded[1..] == digits;
      assert HexDigit(n / 16) == '0' && n % 16 == n;
    } else {
      assert digits == ToString16(n / 16) + [HexDigit(n % 16)];
      assert ToString16(n / 16) == [HexDigit(n / 16)];
      assert padded == digits;
    }
  }

  /** One entry of the table: `n.toString(16).padStart(2, "0")`. */
  method ByteToHexEntry(n: byte) returns (hexOctet: string)
    ensures hexOctet == HexOctet(n)
  {
    hexOctet := PadStart(ToString16(n), 2, '0');
    OctetDigits(n);
  }

  /** A table holding, at every index n of a byte, the octet string of n. */
  ghost predicate IsByteToHex(table: seq<string>)
  {
    |table| == 256 && forall n :: 0 <= n < 256 ==> table[n] == HexOctet(n)
  }

  /** The module-level loop that fills `byteToHex`, pushing one octet string per byte value. */
  method BuildByteToHex() returns (byteToHex: seq<string>)
    ensures IsByteToHex(byteToHex)
  {
    byteToHex := [];
    var n := 0;
    while n <= 0xff
      invariant 0 <= n <= 0x100 && |byteToHex| == n
      invariant forall k :: 0 <= k < n ==> byteToHex[k] == HexOctet(k)
    {
      var hexOctet := ByteToHexEntry(n);
      byteToHex := byteToHex + [hexOctet];
      n := n + 1;
    }
  }

  /** `parts.join("")`: the parts one after another. */
  function Join(parts: seq<string>): (r: string)
  {
    if parts == [] then "" else Join(parts[..|parts| - 1]) + parts[|parts| - 1]
  }

  /** The hex form of a run of bytes: each byte's octet string, in order. */
  function HexString(b: seq<byte>): (r: string)
    ensures |r| == 2 * |b|
  {
    if b == [] then "" else HexOctet(b[0]) + HexString(b[1..])
  }

  /** Appending a byte appends its octet string. */
  lemma {:induction false} HexStringSnoc(b: seq<byte>, x: byte)
    ensures HexString(b + [x]) == HexString(b) + HexOctet(x)
  {
    if b != [] {
      assert (b + [x])[1..] == b[1..] + [x];
      HexStringSnoc(b[1..], x);
    } else {
      assert HexString([x]) == HexOctet(x) + HexString([]);
    }
  }

  /**
   * hex(arrayBuffer): look every byte up in the table, collect the octet
   * strings and join them.
   */
  method Hex(byteToHex: seq<string>, buff: seq<byte>) returns (r: string)
    requires IsByteToHex(byteToHex)
    ensures r == HexString(buff)
  {
    var hexOctets: seq<string> := [];
    var i := 0;
    while i < |buff|
      invariant 0 <= i <= |buff| && |hexOctets| == i
      invariant Join(hexOctets) == HexString(buff[..i])
    {
      assert buff[..i + 1] == buff[..i] + [buff[i]];
      HexStringSnoc(buff[..i], buff[i]);
      assert (hexOctets + [byteToHex[buff[i]]])[..i] == hexOctets;
      hexOctets := hexOctets + [byteToHex[buff[i]]];
      i := i + 1;
    }
    assert buff[..i] == buff;
    r := Join(hexOctets);
  }

  /** Characters 2i and 2i+1 of the hex form are the digits of byte i's high and low nibbles. */
  lemma {:induction false} HexPlacement(b: seq<byte>, i: nat)
    requires i < |b|
    ensures HexString(b)[2 * i] == HexDigit(b[i] / 16)
    ensures HexString(b)[2 * i + 1] == HexDigit(b[i] % 16)
  {
    if i > 0 {
      HexPlacement(b[1..], i - 1);
    }
  }

  /** Only lowercase hex digits appear in the hex form. */
  lemma HexAlphabet(b: seq<byte>, j: nat)
    requires j < |HexString(b)|
    ensures IsLowerHexDigit(HexString(b)[j])
  {
    HexPlacement(b, j / 2);
  }

  /** `bytes.fromhex` on digit pairs without whitespace: one byte per pair, None on an odd length or a non-digit. */
  function FromHex(s: string): (r: Option<seq<byte>>)
    ensures r.Some? ==> 2 * |r.value| == |s|
    decreases |s|
  {
    if s == [] then Some([])
    else if |s| == 1 then None
    else match (DigitValue(s[0]), DigitValue(s[1]), FromHex(s[2..]))
      case (Some(hi), Some(lo), Some(rest)) => Some([16 * hi + lo] + rest)
      case _ => None
  }

  /** Reading the hex form back two digits at a time gives the bytes. */
  lemma {:induction false} HexRoundTrip(b: seq<byte>)
    ensures FromHex(HexString(b)) == Some(b)
  {
    if b != [] {
      var hi, lo := b[0] / 16, b[0] % 16;
      var s := HexString(b);
      assert s == [HexDigit(hi), HexDigit(lo)] + HexString(b[1..]);
      assert s[0] == HexDigit(hi) && s[1] == HexDigit(lo) && s[2..] == HexString(b[1..]);
      HexRoundTrip(b[1..]);
      DigitValueOfHexDigit(hi);
      DigitValueOfHexDigit(lo);
      assert FromHex(s) == Some([16 * hi + lo] + b[1..]);
      assert [b[0]] + b[1..] == b;
    }
  }

  /** Distinct byte runs have distinct hex forms. */
  lemma HexInjective(a: seq<byte>, b: seq<byte>)
    requires HexString(a) == HexString(b)
    ensures a == b
  {
    HexRoundTrip(a);
    HexRoundTrip(b);
  }

  /** Three bytes written as hex: 0b 00 ff gives "0b00ff", two digits each, a leading zero kept. */
  lemma HexVector()
    ensures HexString([0x0b, 0x00, 0xff]) == "0b00ff"
  {
  }
}
