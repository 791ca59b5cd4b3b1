/**
 * `decode_varint(buffered_reader, pos)` of src/pb_utilities/pb_reader.py:
 * the earlier varint reader, which keeps the whole sum (no cast to 32 or
 * 64 bits) and threads a position supplied by its caller.
 *
 * An exhausted stream hands back no bytes, which `int.from_bytes` reads as
 * 0: a byte with a clear high bit. So the reader never fails; at the end of
 * the stream it stops having counted one position more than the bytes it
 * found.
 */
module PbReader {
  import opened Bytes
  import opened Streams
  import opened Varint

  /**
   * The value and the number of reads `decode_varint` makes on a stream
   * holding s: up to and including the first byte below 0x80, or every byte
   * and then one empty read.
   */
  function ReadVarint(s: seq<byte>): (r: (nat, nat))
    ensures 1 <= r.1 <= |s| + 1
    ensures r.1 <= |s| ==> s[r.1 - 1] < 128
    ensures r.1 == |s| + 1 <==> FirstClear(s).None?
    ensures r.0 == Groups(s[..Min(r.1, |s|)])
  {
    FirstClearSpec(s);
    assert s[..|s|] == s;
    match FirstClear(s)
    case Some(i) => (Groups(s[..i + 1]), i + 1)
    case None => (Groups(s), |s| + 1)
  }

  /** Every read but the last saw a byte with the high bit set. */
  lemma ReadVarintContinues(s: seq<byte>)
    ensures forall j :: 0 <= j < ReadVarint(s).1 - 1 ==> s[j] >= 128
  {
    FirstClearSpec(s);
  }

  /** No truncation: the value is the full sum of the groups read, below 2 to the power 7 times the reads. */
  lemma ReadVarintBound(s: seq<byte>)
    ensures ReadVarint(s).0 < Pow2(7 * ReadVarint(s).1)
  {
    var count := ReadVarint(s).1;
    if count <= |s| {
      GroupsBound(s[..count]);
    } else {
      GroupsBound(s);
      Pow2Add(7 * |s|, 7);
    }
  }

  /** An empty stream reads as the value 0 after one read. */
  lemma EmptyStream()
    ensures ReadVarint([]) == (0, 1)
  {
  }

  /** A single byte below 0x80 is the whole varint, whatever follows it. */
  lemma SingleByte(b: byte, rest: seq<byte>)
    requires b < 128
    ensures ReadVarint([b] + rest) == (b, 1)
  {
    var s := [b] + rest;
    assert s[0] == b && s[..1] == [b];
    assert [b][1..] == [];
    assert Groups([b]) == b;
  }

  /** An encoded number of any size reads back whole, whatever follows it. */
  lemma ReadVarintRoundTrip(n: nat, rest: seq<byte>)
    ensures ReadVarint(EncodeVarint(n) + rest) == (n, |EncodeVarint(n)|)
  {
    var e := EncodeVarint(n);
    EncodeVarintDecodes(n);
    FirstClearPrefix(e, rest);
    assert (e + rest)[..|e|] == e;
  }

  /** Where both readers finish a varint, the masked decoder's value is this reader's value cut to the mask's width. */
  lemma AgreesWithMaskedDecoder(s: seq<byte>, mask: int)
    requires FirstClear(s).Some?
    ensures Unsigned(s, mask) == (ReadVarint(s).0 % Modulus(mask), ReadVarint(s).1)
  {
  }

  /**
   * decode_varint(buffered_reader, pos): read one byte at a time, adding
   * its low seven bits at the next shift and counting one position per
   * read, until a byte below 0x80 or an empty read.
   */
  method DecodeVarint(reader: ByteStream, pos: int) returns (result: nat, newPos: int)
    requires reader.Valid()
    modifies reader
    ensures reader.Valid()
    ensures result == ReadVarint(old(reader.Remaining())).0
    ensures newPos == pos + ReadVarint(old(reader.Remaining())).1
    ensures reader.cursor == old(reader.cursor) + Min(newPos - pos, |old(reader.Remaining())|)
  {
    ghost var start, s := reader.cursor, reader.Remaining();
    var shift := 0;
    result := 0;
    newPos := pos;
    while true
      invariant reader.Valid() && reader.data[start..] == s
      invariant 0 <= newPos - pos <= |s| && reader.cursor == start + (newPos - pos)
      invariant shift == 7 * (newPos - pos)
      invariant result == Groups(s[..newPos - pos])
      invariant forall j :: 0 <= j < newPos - pos ==> s[j] >= 128
      decreases |s| - (newPos - pos)
    {
      ghost var k := newPos - pos;
      var byte := reader.Read(1);
      var i := if byte == [] then 0 else byte[0];
      newPos := newPos + 1;
      result := result + (i % 128) * Pow2(shift);
      shift := shift + 7;
      if i < 128 {
        if byte == [] {
          assert k == |s| && s[..k] == s;
          FirstClearNone(s);
        } else {
          assert s[..k + 1] == s[..k] + [i];
          GroupsSnoc(s[..k], i);
          FirstClearAt(s, k);
        }
        return;
      }
      assert s[..k + 1] == s[..k] + [i];
      GroupsSnoc(s[..k], i);
    }
  }
}
