/**
 * The base-128 varint decoders of the MMKV parser: `decode_unsigned_varint`
 * and `decode_signed_varint` in frontend/public/mmkv_parser.py.
 *
 * Each byte carries seven payload bits, least significant group first; a set
 * high bit (0x80) means another byte follows. After the last byte the
 * accumulated value is cast through ctypes: to an unsigned or a
 * two's-complement integer of 64 bits when the mask is 64, of 32 bits for
 * every other mask. When the stream ends before the last byte the decoders
 * return the marker (-1, -1).
 */
module Varint {
  import opened Bytes
  import opened Streams

  const TwoTo32: int := 0x1_0000_0000
  const TwoTo64: int := 0x1_0000_0000_0000_0000

  /** The number of distinct values of the width the mask selects. */
  function Modulus(mask: int): (m: int)
    ensures m == TwoTo64 <==> mask == 64
    ensures m == TwoTo32 <==> mask != 64
  {
    if mask == 64 then TwoTo64 else TwoTo32
  }

  function Pow2(n: nat): (r: nat)
    ensures r >= 1
  {
    if n == 0 then 1 else 2 * Pow2(n - 1)
  }

  lemma {:induction false} Pow2Add(a: nat, b: nat)
    ensures Pow2(a + b) == Pow2(a) * Pow2(b)
  {
    if a > 0 {
      Pow2Add(a - 1, b);
      assert Pow2(a + b) == 2 * Pow2(a - 1 + b);
      Associate(2, Pow2(a - 1), Pow2(b));
    }
  }

  lemma Associate(x: int, y: int, z: int)
    ensures x * (y * z) == (x * y) * z
  {
  }

  lemma Pow2Seven()
    ensures Pow2(7) == 128
  {
  }

  /**
   * The payload of a run of varint bytes: the low seven bits of byte i,
   * shifted left by 7 * i, summed. The seven-bit groups never overlap, so
   * this sum is the value the source accumulates with `|=`.
   */
  function Groups(s: seq<byte>): nat
  {
    if s == [] then 0 else s[0] % 128 + 128 * Groups(s[1..])
  }

  /** Adding one more byte adds its seven bits at the next shift. */
  lemma {:induction false} GroupsSnoc(s: seq<byte>, b: byte)
    ensures Groups(s + [b]) == Groups(s) + (b % 128) * Pow2(7 * |s|)
  {
    if s == [] {
      assert [b][1..] == [];
    } else {
      var t := s[1..];
      assert (s + [b])[1..] == t + [b];
      GroupsSnoc(t, b);
      Pow2Add(7, 7 * |t|);
      Pow2Seven();
      assert 7 * |s| == 7 + 7 * |t|;
      var p := Pow2(7 * |t|);
      assert Pow2(7 * |s|) == 128 * p;
      assert Groups(s + [b]) == s[0] % 128 + 128 * Groups(t + [b]);
      ShiftGroup(Groups(t), b % 128, p);
    }
  }

  /** Moving the shift of a group one position up multiplies its weight by 128. */
  lemma ShiftGroup(g: int, x: int, p: int)
    ensures 128 * (g + x * p) == 128 * g + x * (128 * p)
  {
  }

  /** The payload of the first k bytes: that of the first k - 1, plus byte k - 1's seven bits at its shift. */
  lemma GroupsPrefix(s: seq<byte>, k: nat)
    requires 1 <= k <= |s|
    ensures Groups(s[..k]) == Groups(s[..k - 1]) + (s[k - 1] % 128) * Pow2(7 * (k - 1))
  {
    assert s[..k] == s[..k - 1] + [s[k - 1]];
    GroupsSnoc(s[..k - 1], s[k - 1]);
  }

  /** k varint bytes carry at most 7 * k bits. */
  lemma {:induction false} GroupsBound(s: seq<byte>)
    ensures Groups(s) < Pow2(7 * |s|)
  {
    if s != [] {
      var t := s[1..];
      GroupsBound(t);
      Pow2Add(7, 7 * |t|);
      Pow2Seven();
      assert 7 * |s| == 7 + 7 * |t|;
      assert Pow2(7 * |s|) == 128 * Pow2(7 * |t|);
      assert Groups(t) + 1 <= Pow2(7 * |t|);
      assert 128 * (Groups(t) + 1) <= 128 * Pow2(7 * |t|);
    }
  }

  /** The index of the first byte whose continuation bit is clear, if any. */
  function FirstClear(s: seq<byte>): (r: Option<nat>)
    ensures r.Some? ==> r.value < |s|
  {
    if s == [] then None
    else if s[0] < 128 then Some(0)
    else match FirstClear(s[1..])
      case None => None
      case Some(i) => Some(i + 1)
  }

  /**
   * The first clear byte has the continuation bit clear, and every byte
   * before it, or every byte when there is none, has it set.
   */
  lemma {:induction false} FirstClearSpec(s: seq<byte>)
    ensures FirstClear(s).Some? ==> s[FirstClear(s).value] < 128
    ensures FirstClear(s).Some? ==> forall j :: 0 <= j < FirstClear(s).value ==> s[j] >= 128
    ensures FirstClear(s).None? ==> forall j :: 0 <= j < |s| ==> s[j] >= 128
  {
    if s != [] && s[0] >= 128 {
      FirstClearSpec(s[1..]);
      assert forall j :: 1 <= j < |s| ==> s[j] == s[1..][j - 1];
    }
  }

  /** The first clear byte is fixed by the bytes before it and its own. */
  lemma {:induction false} FirstClearAt(s: seq<byte>, k: nat)
    requires k < |s| && s[k] < 128
    requires forall j :: 0 <= j < k ==> s[j] >= 128
    ensures FirstClear(s) == Some(k)
  {
    if k > 0 {
      FirstClearAt(s[1..], k - 1);
    }
  }

  /** Bytes after the first clear byte do not move it. */
  lemma {:induction false} FirstClearPrefix(s: seq<byte>, t: seq<byte>)
    requires FirstClear(s).Some?
    ensures FirstClear(s + t) == FirstClear(s)
  {
    if s[0] >= 128 {
      assert (s + t)[1..] == s[1..] + t;
      FirstClearPrefix(s[1..], t);
    }
  }

  /** `ctypes.c_uint32(x).value`: the low 32 bits of x, unsigned. */
  function CUint32(x: int): (r: int)
    ensures 0 <= r < 0x1_0000_0000
    ensures (x - r) % 0x1_0000_0000 == 0
  {
    x % 0x1_0000_0000
  }

  /** `ctypes.c_uint64(x).value`: the low 64 bits of x, unsigned. */
  function CUint64(x: int): (r: int)
    ensures 0 <= r < 0x1_0000_0000_0000_0000
    ensures (x - r) % 0x1_0000_0000_0000_0000 == 0
  {
    x % 0x1_0000_0000_0000_0000
  }

  /** `ctypes.c_int32(x).value`: the low 32 bits of x, read as two's complement. */
  function CInt32(x: int): (r: int)
    ensures -0x1_0000_0000 / 2 <= r < 0x1_0000_0000 / 2
    ensures (x - r) % 0x1_0000_0000 == 0
  {
    var u := x % 0x1_0000_0000;
    if u >= 0x1_0000_0000 / 2 then u - 0x1_0000_0000 else u
  }

  /** `ctypes.c_int64(x).value`: the low 64 bits of x, read as two's complement. */
  function CInt64(x: int): (r: int)
    ensures -0x1_0000_0000_0000_0000 / 2 <= r < 0x1_0000_0000_0000_0000 / 2
    ensures (x - r) % 0x1_0000_0000_0000_0000 == 0
  {
    var u := x % 0x1_0000_0000_0000_0000;
    if u >= 0x1_0000_0000_0000_0000 / 2 then u - 0x1_0000_0000_0000_0000 else u
  }

  /** The unsigned cast the source applies after the loop: 64 bits only when the mask is 64. */
  function CastUnsigned(x: int, mask: int): int
  {
    if mask == 64 then CUint64(x) else CUint32(x)
  }

  /** The signed cast the source applies after the loop. */
  function CastSigned(x: int, mask: int): int
  {
    if mask == 64 then CInt64(x) else CInt32(x)
  }

  /**
   * What `decode_unsigned_varint` returns for the bytes left in its stream:
   * the value and the number of bytes read, or (-1, -1).
   */
  function Unsigned(s: seq<byte>, mask: int): (r: (int, int))
    ensures r == (-1, -1) <==> FirstClear(s).None?
    ensures r != (-1, -1) ==>
      && 1 <= r.1 <= |s|
      && 0 <= r.0 < Modulus(mask)
  {
    match FirstClear(s)
    case None => (-1, -1)
    case Some(i) => (CastUnsigned(Groups(s[..i + 1]), mask), i + 1)
  }

  /** A decoded unsigned value is the sum of the groups read, reduced modulo the mask's width. */
  lemma UnsignedValue(s: seq<byte>, mask: int)
    ensures var r := Unsigned(s, mask); r != (-1, -1) ==> (Groups(s[..r.1]) - r.0) % Modulus(mask) == 0
  {
  }

  /**
   * What `decode_signed_varint` returns: the same bits and the same byte
   * count as the unsigned decoder, read as a two's-complement number.
   */
  function Signed(s: seq<byte>, mask: int): (r: (int, int))
    ensures r.1 == Unsigned(s, mask).1
    ensures r.1 == -1 <==> FirstClear(s).None?
    ensures r.1 == -1 ==> r.0 == -1
    ensures r.1 != -1 ==> -Modulus(mask) / 2 <= r.0 < Modulus(mask) / 2
  {
    match FirstClear(s)
    case None => (-1, -1)
    case Some(i) => (CastSigned(Groups(s[..i + 1]), mask), i + 1)
  }

  /** A decoded signed value has the same bits as the unsigned one: they agree modulo the mask's width. */
  lemma SignedValue(s: seq<byte>, mask: int)
    ensures Signed(s, mask).1 != -1 ==> (Unsigned(s, mask).0 - Signed(s, mask).0) % Modulus(mask) == 0
  {
  }

  /** Trailing bytes after a complete varint change neither decoder's result. */
  lemma UnsignedIgnoresTrailing(s: seq<byte>, t: seq<byte>, mask: int)
    requires Unsigned(s, mask) != (-1, -1)
    ensures Unsigned(s + t, mask) == Unsigned(s, mask)
    ensures Signed(s + t, mask) == Signed(s, mask)
  {
    FirstClearPrefix(s, t);
    var i := FirstClear(s).value;
    assert (s + t)[..i + 1] == s[..i + 1];
  }

  /** Both decoders, once the first clear byte is the k-th: its cast sum, and k. */
  lemma DecodedAt(s: seq<byte>, k: nat, mask: int)
    requires 1 <= k <= |s| && s[k - 1] < 128
    requires forall j :: 0 <= j < k - 1 ==> s[j] >= 128
    ensures Unsigned(s, mask) == (CastUnsigned(Groups(s[..k]), mask), k)
    ensures Signed(s, mask) == (CastSigned(Groups(s[..k]), mask), k)
  {
    FirstClearAt(s, k - 1);
  }

  /** Both decoders fail on a run of bytes that all have the continuation bit set. */
  lemma NotDecoded(s: seq<byte>, mask: int)
    requires forall j :: 0 <= j < |s| ==> s[j] >= 128
    ensures Unsigned(s, mask) == (-1, -1) && Signed(s, mask) == (-1, -1)
  {
    FirstClearNone(s);
  }

  /**
   * decode_unsigned_varint(stream, mask): reads one byte at a time until a
   * byte with a clear high bit, then truncates to the mask's width. When the
   * stream runs dry first, every remaining byte has been consumed and the
   * result is (-1, -1).
   */
  method DecodeUnsignedVarint(stream: ByteStream, mask: int) returns (result: int, bytesRead: int)
    requires stream.Valid()
    modifies stream
    ensures stream.Valid()
    ensures (result, bytesRead) == Unsigned(old(stream.Remaining()), mask)
    ensures stream.cursor == if bytesRead == -1 then |stream.data| else old(stream.cursor) + bytesRead
  {
    ghost var start, s := stream.cursor, stream.Remaining();
    var shift := 0;
    result := 0;
    var byte := stream.Read(1);
    bytesRead := 1;
    if byte == [] {
      NotDecoded(s, mask);
      return -1, -1;
    }
    while true
      invariant stream.Valid() && stream.cursor == start + bytesRead && 1 <= bytesRead <= |s|
      invariant byte == [s[bytesRead - 1]]
      invariant shift == 7 * (bytesRead - 1)
      invariant result == Groups(s[..bytesRead - 1])
      invariant forall j :: 0 <= j < bytesRead - 1 ==> s[j] >= 128
      decreases |s| - bytesRead
    {
      var i := byte[0];
      GroupsPrefix(s, bytesRead);
      result := result + (i % 128) * Pow2(shift);
      shift := shift + 7;
      if i < 128 {
        if mask == 64 {
          result := CUint64(result);
        } else {
          result := CUint32(result);
        }
        DecodedAt(s, bytesRead, mask);
        break;
      }
      byte := stream.Read(1);
      bytesRead := bytesRead + 1;
      if byte == [] {
        NotDecoded(s, mask);
        return -1, -1;
      }
    }
  }

  /**
   * decode_signed_varint(stream, mask): the same loop as the unsigned
   * decoder, ending in a two's-complement cast instead.
   */
  method DecodeSignedVarint(stream: ByteStream, mask: int) returns (result: int, bytesRead: int)
    requires stream.Valid()
    modifies stream
    ensures stream.Valid()
    ensures (result, bytesRead) == Signed(old(stream.Remaining()), mask)
    ensures stream.cursor == if bytesRead == -1 then |stream.data| else old(stream.cursor) + bytesRead
  {
    ghost var start, s := stream.cursor, stream.Remaining();
    var shift := 0;
    result := 0;
    bytesRead := 0;
    var byte := stream.Read(1);
    bytesRead := bytesRead + 1;
    if byte == [] {
      NotDecoded(s, mask);
      return -1, -1;
    }
    while true
      invariant stream.Valid() && stream.cursor == start + bytesRead && 1 <= bytesRead <= |s|
      invariant byte == [s[bytesRead - 1]]
      invariant shift == 7 * (bytesRead - 1)
      invariant result == Groups(s[..bytesRead - 1])
      invariant forall j :: 0 <= j < bytesRead - 1 ==> s[j] >= 128
      decreases |s| - bytesRead
    {
      var i := byte[0];
      GroupsPrefix(s, bytesRead);
      result := result + (i % 128) * Pow2(shift);
      shift := shift + 7;
      if i < 128 {
        if mask == 64 {
          result := CInt64(result);
        } else {
          result := CInt32(result);
        }
        DecodedAt(s, bytesRead, mask);
        break;
      }
      byte := stream.Read(1);
      bytesRead := bytesRead + 1;
      if byte == [] {
        NotDecoded(s, mask);
        return -1, -1;
      }
    }
  }

  /** A run of bytes that all have the continuation bit set has no first clear byte. */
  lemma {:induction false} FirstClearNone(s: seq<byte>)
    requires forall j :: 0 <= j < |s| ==> s[j] >= 128
    ensures FirstClear(s).None?
  {
    if s != [] {
      FirstClearNone(s[1..]);
    }
  }

  /**
   * The protobuf base-128 encoding of n: seven bits per byte, least
   * significant group first, the high bit set on every byte but the last.
   */
  function EncodeVarint(n: nat): (r: seq<byte>)
    ensures 1 <= |r|
  {
    if n < 128 then [n] else [n % 128 + 128] + EncodeVarint(n / 128)
  }

  /** An encoded varint ends at its last byte and carries exactly n. */
  lemma {:induction false} EncodeVarintDecodes(n: nat)
    ensures FirstClear(EncodeVarint(n)) == Some(|EncodeVarint(n)| - 1)
    ensures Groups(EncodeVarint(n)) == n
  {
    var e := EncodeVarint(n);
    if n >= 128 {
      EncodeVarintDecodes(n / 128);
      assert e[1..] == EncodeVarint(n / 128);
    }
  }

  /** Decoding inverts encoding for every value of the decoder's width. */
  lemma UnsignedRoundTrip(n: nat, mask: int)
    requires n < Modulus(mask)
    ensures Unsigned(EncodeVarint(n), mask) == (n, |EncodeVarint(n)|)
  {
    var e := EncodeVarint(n);
    EncodeVarintDecodes(n);
    assert e[..|e|] == e;
    assert CastUnsigned(n, mask) == n;
  }

  /**
   * A negative number is written as its 64-bit two's complement (ten bytes);
   * the signed decoder of either width recovers every value of its width.
   */
  lemma SignedRoundTrip(v: int, mask: int)
    requires -Modulus(mask) / 2 <= v < Modulus(mask) / 2
    ensures Signed(EncodeVarint(CUint64(v)), mask) == (v, |EncodeVarint(CUint64(v))|)
  {
    var u := CUint64(v);
    var e := EncodeVarint(u);
    EncodeVarintDecodes(u);
    assert e[..|e|] == e;
    ComplementCast(v, mask);
  }

  /** The signed cast of either width undoes the 64-bit two's complement of every value of that width. */
  lemma ComplementCast(v: int, mask: int)
    requires -Modulus(mask) / 2 <= v < Modulus(mask) / 2
    ensures CastSigned(CUint64(v), mask) == v
  {
    var u := CUint64(v);
    if v >= 0 {
      assert u == v;
    } else {
      assert u == v + TwoTo64;
      if mask != 64 {
        assert u == (TwoTo32 - 1) * TwoTo32 + (v + TwoTo32);
        assert u % TwoTo32 == v + TwoTo32;
      }
    }
  }

  /** The unit tests' positive int32: the largest 32-bit signed value. */
  lemma PositiveInt32Vector()
    ensures Unsigned([0xff, 0xff, 0xff, 0xff, 0x07], 32) == (2147483647, 5)
  {
    var s: seq<byte> := [0xff, 0xff, 0xff, 0xff, 0x07];
    assert Groups([0x07]) == 7;
    assert Groups([0xff, 0x07]) == 1023;
    assert Groups([0xff, 0xff, 0x07]) == 131071;
    assert Groups([0xff, 0xff, 0xff, 0x07]) == 16777215;
    assert Groups([0xff, 0xff, 0xff, 0xff, 0x07]) == 2147483647;
    assert s[..5] == s;
    DecodedAt(s, 5, 32);
  }

  /** The unit tests' negative int32: the smallest 32-bit value, ten bytes long. */
  lemma NegativeInt32Vector()
    ensures Signed([0x80, 0x80, 0x80, 0x80, 0xf8, 0xff, 0xff, 0xff, 0xff, 0x01], 32) == (-2147483648, 10)
  {
    var s: seq<byte> := [0x80, 0x80, 0x80, 0x80, 0xf8, 0xff, 0xff, 0xff, 0xff, 0x01];
    NegativeInt32Groups(s);
    assert s[..10] == s;
    DecodedAt(s, 10, 32);
    MinInt32Cast();
  }

  /** The 64-bit two's complement of the smallest 32-bit value, cast back to 32 bits. */
  lemma MinInt32Cast()
    ensures CastSigned(18446744071562067968, 32) == -2147483648
  {
    assert 18446744071562067968 % TwoTo32 == 2147483648;
  }

  /** The payload of the negative int32's ten bytes: its 64-bit two's complement. */
  lemma NegativeInt32Groups(s: seq<byte>)
    requires s == [0x80, 0x80, 0x80, 0x80, 0xf8, 0xff, 0xff, 0xff, 0xff, 0x01]
    ensures Groups(s) == 18446744071562067968
  {
    assert Groups([0x01]) == 1;
    assert Groups([0xff, 0x01]) == 255;
    assert Groups([0xff, 0xff, 0x01]) == 32767;
    assert Groups([0xff, 0xff, 0xff, 0x01]) == 4194303;
    assert Groups([0xff, 0xff, 0xff, 0xff, 0x01]) == 536870911;
    assert Groups([0xf8, 0xff, 0xff, 0xff, 0xff, 0x01]) == 68719476728;
    assert Groups([0x80, 0xf8, 0xff, 0xff, 0xff, 0xff, 0x01]) == 8796093021184;
    assert Groups([0x80, 0x80, 0xf8, 0xff, 0xff, 0xff, 0xff, 0x01]) == 1125899906711552;
    assert Groups([0x80, 0x80, 0x80, 0xf8, 0xff, 0xff, 0xff, 0xff, 0x01]) == 144115188059078656;
    assert Groups([0x80, 0x80, 0x80, 0x80, 0xf8, 0xff, 0xff, 0xff, 0xff, 0x01]) == 18446744071562067968;
  }

  /** The unit tests' positive int64: the largest 64-bit signed value. */
  lemma PositiveInt64Vector()
    ensures Unsigned([0xff, 0xff, 0xff, 0xff, 0xff, 0xff, 0xff, 0xff, 0x7f], 64) == (9223372036854775807, 9)
  {
    var s: seq<byte> := [0xff, 0xff, 0xff, 0xff, 0xff, 0xff, 0xff, 0xff, 0x7f];
    assert Groups([0x7f]) == 127;
    assert Groups([0xff, 0x7f]) == 16383;
    assert Groups([0xff, 0xff, 0x7f]) == 2097151;
    assert Groups([0xff, 0xff, 0xff, 0x7f]) == 268435455;
    assert Groups([0xff, 0xff, 0xff, 0xff, 0x7f]) == 34359738367;
    assert Groups([0xff, 0xff, 0xff, 0xff, 0xff, 0x7f]) == 4398046511103;
    assert Groups([0xff, 0xff, 0xff, 0xff, 0xff, 0xff, 0x7f]) == 562949953421311;
    assert Groups([0xff, 0xff, 0xff, 0xff, 0xff, 0xff, 0xff, 0x7f]) == 72057594037927935;
    assert Groups([0xff, 0xff, 0xff, 0xff, 0xff, 0xff, 0xff, 0xff, 0x7f]) == 9223372036854775807;
    assert s[..9] == s;
    DecodedAt(s, 9, 64);
  }

  /** The unit tests' negative int64: the smallest 64-bit value. */
  lemma NegativeInt64Vector()
    ensures Signed([0x80, 0x80, 0x80, 0x80, 0x80, 0x80, 0x80, 0x80, 0x80, 0x01], 64) == (-9223372036854775808, 10)
  {
    var s: seq<byte> := [0x80, 0x80, 0x80, 0x80, 0x80, 0x80, 0x80, 0x80, 0x80, 0x01];
    assert Groups([0x01]) == 1;
    assert Groups([0x80, 0x01]) == 128;
    assert Groups([0x80, 0x80, 0x01]) == 16384;
    assert Groups([0x80, 0x80, 0x80, 0x01]) == 2097152;
    assert Groups([0x80, 0x80, 0x80, 0x80, 0x01]) == 268435456;
    assert Groups([0x80, 0x80, 0x80, 0x80, 0x80, 0x01]) == 34359738368;
    assert Groups([0x80, 0x80, 0x80, 0x80, 0x80, 0x80, 0x01]) == 4398046511104;
    assert Groups([0x80, 0x80, 0x80, 0x80, 0x80, 0x80, 0x80, 0x01]) == 562949953421312;
    assert Groups([0x80, 0x80, 0x80, 0x80, 0x80, 0x80, 0x80, 0x80, 0x01]) == 72057594037927936;
    assert Groups([0x80, 0x80, 0x80, 0x80, 0x80, 0x80, 0x80, 0x80, 0x80, 0x01]) == 9223372036854775808;
    assert s[..10] == s;
    DecodedAt(s, 10, 64);
  }
}
