/**
 * The typed readers of one value blob: `MMKVParser.decode_as_bool`,
 * `decode_as_int32`, `decode_as_int64`, `decode_as_uint32`,
 * `decode_as_uint64`, `decode_as_string` and `decode_as_bytes` in
 * frontend/public/mmkv_parser.py. None of them touches the parser's state:
 * each wraps the blob in a fresh stream and reads from it, so each is a
 * function of the blob alone.
 *
 * Strings and byte arrays are stored with a redundant length varint in
 * front of the payload; both decoders skip it by its byte count and ignore
 * its value.
 */
module ValueDecoders {
  import opened Bytes
  import opened Varint
  import Utf8

  /** `decode_as_bool`: True for the blob 01, False for 00, None for anything else. */
  function DecodeAsBool(value: seq<byte>): (r: Option<bool>)
    ensures r == Some(true) <==> value == [0x01]
    ensures r == Some(false) <==> value == [0x00]
    ensures r == None <==> value != [0x01] && value != [0x00]
  {
    if value == [0x01] then Some(true)
    else if value == [0x00] then Some(false)
    else None
  }

  /** The blob MMKV stores for a boolean. */
  function EncodeBool(b: bool): seq<byte>
  {
    if b then [0x01] else [0x00]
  }

  /** Every stored boolean reads back as itself. */
  lemma BoolRoundTrip(b: bool)
    ensures DecodeAsBool(EncodeBool(b)) == Some(b)
  {
  }

  /** `decode_as_int32`: the signed 32-bit decoder's value, -1 when the blob holds no complete varint. */
  function DecodeAsInt32(value: seq<byte>): (r: int)
    ensures -TwoTo32 / 2 <= r < TwoTo32 / 2
    ensures FirstClear(value).None? ==> r == -1
    ensures FirstClear(value).Some? ==> (Groups(value[..FirstClear(value).value + 1]) - r) % TwoTo32 == 0
  {
    SignedValue(value, 32);
    UnsignedValue(value, 32);
    Signed(value, 32).0
  }

  /** `decode_as_int64`: the signed 64-bit decoder's value, -1 when the blob holds no complete varint. */
  function DecodeAsInt64(value: seq<byte>): (r: int)
    ensures -TwoTo64 / 2 <= r < TwoTo64 / 2
    ensures FirstClear(value).None? ==> r == -1
    ensures FirstClear(value).Some? ==> (Groups(value[..FirstClear(value).value + 1]) - r) % TwoTo64 == 0
  {
    SignedValue(value, 64);
    UnsignedValue(value, 64);
    Signed(value, 64).0
  }

  /** `decode_as_uint32`: the unsigned 32-bit decoder's value, -1 when the blob holds no complete varint. */
  function DecodeAsUint32(value: seq<byte>): (r: int)
    ensures FirstClear(value).None? ==> r == -1
    ensures FirstClear(value).Some? ==> 0 <= r < TwoTo32
    ensures FirstClear(value).Some? ==> (Groups(value[..FirstClear(value).value + 1]) - r) % TwoTo32 == 0
  {
    UnsignedValue(value, 32);
    Unsigned(value, 32).0
  }

  /** `decode_as_uint64`: the unsigned 64-bit decoder's value, -1 when the blob holds no complete varint. */
  function DecodeAsUint64(value: seq<byte>): (r: int)
    ensures FirstClear(value).None? ==> r == -1
    ensures FirstClear(value).Some? ==> 0 <= r < TwoTo64
    ensures FirstClear(value).Some? ==> (Groups(value[..FirstClear(value).value + 1]) - r) % TwoTo64 == 0
  {
    UnsignedValue(value, 64);
    Unsigned(value, 64).0
  }

  /**
   * Every 32-bit signed number, stored as a varint of its 64-bit two's
   * complement, reads back as itself, whatever follows the varint.
   */
  lemma Int32RoundTrip(v: int, trailing: seq<byte>)
    requires -TwoTo32 / 2 <= v < TwoTo32 / 2
    ensures DecodeAsInt32(EncodeVarint(CUint64(v)) + trailing) == v
  {
    SignedRoundTrip(v, 32);
    UnsignedRoundTrip(CUint64(v), 64);
    UnsignedIgnoresTrailing(EncodeVarint(CUint64(v)), trailing, 32);
  }

  /** Every 64-bit signed number reads back as itself, whatever follows its varint. */
  lemma Int64RoundTrip(v: int, trailing: seq<byte>)
    requires -TwoTo64 / 2 <= v < TwoTo64 / 2
    ensures DecodeAsInt64(EncodeVarint(CUint64(v)) + trailing) == v
  {
    SignedRoundTrip(v, 64);
    UnsignedRoundTrip(CUint64(v), 64);
    UnsignedIgnoresTrailing(EncodeVarint(CUint64(v)), trailing, 64);
  }

  /** Every 32-bit unsigned number reads back as itself, whatever follows its varint. */
  lemma Uint32RoundTrip(n: nat, trailing: seq<byte>)
    requires n < TwoTo32
    ensures DecodeAsUint32(EncodeVarint(n) + trailing) == n
  {
    UnsignedRoundTrip(n, 32);
    UnsignedIgnoresTrailing(EncodeVarint(n), trailing, 32);
  }

  /** Every 64-bit unsigned number reads back as itself, whatever follows its varint. */
  lemma Uint64RoundTrip(n: nat, trailing: seq<byte>)
    requires n < TwoTo64
    ensures DecodeAsUint64(EncodeVarint(n) + trailing) == n
  {
    UnsignedRoundTrip(n, 64);
    UnsignedIgnoresTrailing(EncodeVarint(n), trailing, 64);
  }

  /**
   * Python's `s[n:]` for any integer n: from index n when n is not
   * negative, and the last -n elements when it is, clipped to s either way.
   */
  function SliceFrom(s: seq<byte>, n: int): (r: seq<byte>)
    ensures |r| <= |s| && r == s[|s| - |r|..]
    ensures n >= 0 ==> |r| == if n <= |s| then |s| - n else 0
    ensures n < 0 ==> |r| == if -n <= |s| then -n else |s|
  {
    if n >= 0 then s[Min(n, |s|)..]
    else if -n <= |s| then s[|s| + n..]
    else s
  }

  /**
   * `decode_as_string`: skip the wrapper varint by its byte count n, then
   * UTF-8-decode the rest. None when n is at least the blob's length, and
   * when the rest is not UTF-8. When the wrapper never ends, n is the
   * failure marker -1, and the slice keeps the blob's last byte.
   */
  function DecodeAsString(value: seq<byte>): (r: Option<string>)
    ensures FirstClear(value).Some? ==>
      var n := FirstClear(value).value + 1;
      r == if n >= |value| then None else Utf8.Decode(value[n..])
    ensures FirstClear(value).None? ==> r == Utf8.Decode(value[|value| - Min(1, |value|)..])
  {
    var (_, n) := Unsigned(value, 32);
    if n >= |value| then None
    else Utf8.Decode(SliceFrom(value, n))
  }

  /**
   * `decode_as_bytes`: the blob without the wrapper varint's bytes, with no
   * guard; a wrapper that never ends leaves the last byte, as the string
   * decoder's slice does.
   */
  function DecodeAsBytes(value: seq<byte>): (r: seq<byte>)
    ensures FirstClear(value).Some? ==> r == value[FirstClear(value).value + 1..]
    ensures FirstClear(value).None? ==> r == value[|value| - Min(1, |value|)..]
  {
    SliceFrom(value, Unsigned(value, 32).1)
  }

  /**
   * The string decoder as its error message describes it: refuse a wrapper
   * longer than the blob or one that never ends, and otherwise decode what
   * follows the wrapper, including nothing at all.
   */
  function DecodeAsStringChecked(value: seq<byte>): (r: Option<string>)
    ensures FirstClear(value).None? ==> r == None
    ensures FirstClear(value).Some? ==> r == Utf8.Decode(value[FirstClear(value).value + 1..])
  {
    var (_, n) := Unsigned(value, 32);
    if n == -1 || n > |value| then None
    else Utf8.Decode(value[n..])
  }

  /** The bytes decoder refusing a wrapper that never ends, instead of slicing from -1. */
  function DecodeAsBytesChecked(value: seq<byte>): (r: Option<seq<byte>>)
    ensures r.None? <==> FirstClear(value).None?
    ensures r.Some? ==> r.value == value[FirstClear(value).value + 1..]
  {
    var (_, n) := Unsigned(value, 32);
    if n == -1 then None else Some(value[n..])
  }

  /** A payload stored behind its length varint, as MMKV writes strings and byte arrays. */
  function Wrap(payload: seq<byte>): seq<byte>
  {
    EncodeVarint(|payload|) + payload
  }

  /** The wrapper of a payload ends exactly where the payload begins. */
  lemma WrapSplits(payload: seq<byte>)
    ensures FirstClear(Wrap(payload)) == Some(|EncodeVarint(|payload|)| - 1)
    ensures Wrap(payload)[|EncodeVarint(|payload|)|..] == payload
  {
    EncodeVarintDecodes(|payload|);
    FirstClearPrefix(EncodeVarint(|payload|), payload);
  }

  /** The checked string decoder reads every wrapped payload as the UTF-8 decoding of the payload. */
  lemma StringRoundTrip(payload: seq<byte>)
    ensures DecodeAsStringChecked(Wrap(payload)) == Utf8.Decode(payload)
  {
    WrapSplits(payload);
  }

  /** The checked bytes decoder gives every wrapped payload back. */
  lemma BytesRoundTrip(payload: seq<byte>)
    ensures DecodeAsBytesChecked(Wrap(payload)) == Some(payload)
  {
    WrapSplits(payload);
  }

  /** The string decoder as written agrees with the checked one whenever the wrapper ends before the blob does. */
  lemma StringAgreesOnNonEmptyPayload(value: seq<byte>)
    requires FirstClear(value).Some? && FirstClear(value).value + 1 < |value|
    ensures DecodeAsString(value) == DecodeAsStringChecked(value)
  {
  }

  /** The bytes decoder as written agrees with the checked one whenever the wrapper ends. */
  lemma BytesAgreeOnCompleteWrapper(value: seq<byte>)
    requires FirstClear(value).Some?
    ensures DecodeAsBytesChecked(value) == Some(DecodeAsBytes(value))
  {
  }

  /** The empty string, stored as the single byte 00, is refused by the `>=` guard and read back by the checked decoder. */
  lemma EmptyStringRefused()
    ensures Wrap([]) == [0x00]
    ensures DecodeAsString([0x00]) == None
    ensures DecodeAsStringChecked([0x00]) == Some("")
  {
    StringRoundTrip([]);
  }

  /** A wrapper that never ends: the bytes decoder as written returns the last byte, the checked one refuses. */
  lemma UnterminatedWrapperKeepsLastByte()
    ensures DecodeAsBytes([0x80, 0x81]) == [0x81]
    ensures DecodeAsBytesChecked([0x80, 0x81]) == None
  {
    NotDecoded([0x80, 0x81], 32);
  }

  /** The unit tests' stored string: its wrapper is the byte 0a, then ten bytes of ASCII. */
  lemma StoredStringVector()
    ensures DecodeAsString([0x0a, 0x73, 0x74, 0x65, 0x76, 0x65, 0x6e, 0x20, 0x70, 0x61, 0x6b]) == Some("steven pak")
  {
    var value: seq<byte> := [0x0a, 0x73, 0x74, 0x65, 0x76, 0x65, 0x6e, 0x20, 0x70, 0x61, 0x6b];
    var payload := value[1..];
    Utf8.DecodeAscii(payload);
    var s := Utf8.Decode(payload).value;
    assert s == "steven pak";
  }
}
