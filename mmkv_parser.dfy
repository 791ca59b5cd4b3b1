/**
 * Class MMKVParser of frontend/public/mmkv_parser.py: opening a log
 * (`__init__`), its declared size (`get_db_size`) and the scan that builds
 * the key -> values map (`decode_into_map`).
 */
module MmkvParser {
  import opened Bytes
  import opened Streams
  import opened Varint
  import opened LogScan
  import Utf8

  /** The two ValueErrors `__init__` raises. */
  datatype InitError =
    | HeaderNotFourBytes   // fewer than four bytes before the end of the stream
    | PrefixNotVarint      // the stream ends inside the varint after the header

  /** The four little-endian bytes of an unsigned 32-bit number. */
  function LittleEndian32(n: nat): (b: seq<byte>)
    requires n < TwoTo32
    ensures |b| == 4
  {
    [n % 0x100, n / 0x100 % 0x100, n / 0x100 / 0x100 % 0x100, n / 0x100 / 0x100 / 0x100]
  }

  /** `struct.unpack('<I', b)`: four bytes read as a little-endian unsigned number. */
  function UnpackUInt32(b: seq<byte>): (n: nat)
    requires |b| == 4
    ensures n < TwoTo32
    ensures LittleEndian32(n) == b
  {
    var high := b[1] as int + 0x100 * (b[2] as int + 0x100 * b[3] as int);
    DigitSplit(b[2], b[3]);
    DigitSplit(b[1], b[2] as int + 0x100 * b[3] as int);
    DigitSplit(b[0], high);
    b[0] as int + 0x100 * high
  }

  /** The low byte and the rest of `lo + 256 * hi`. */
  lemma DigitSplit(lo: byte, hi: nat)
    ensures (lo + 0x100 * hi) % 0x100 == lo && (lo + 0x100 * hi) / 0x100 == hi
  {
  }

  /** Packing and then unpacking gives the number back. */
  lemma UnpackPacked(n: nat)
    requires n < TwoTo32
    ensures UnpackUInt32(LittleEndian32(n)) == n
  {
  }

  /** The declared sizes of the unit tests' two small logs, 0b and 10 in the first header byte. */
  lemma FixtureSizes()
    ensures UnpackUInt32([0x0b, 0x00, 0x00, 0x00]) == 11
    ensures UnpackUInt32([0x10, 0x00, 0x00, 0x00]) == 16
  {
    UnpackPacked(11);
    UnpackPacked(16);
  }

  /**
   * What `__init__` reads from a stream holding `s`: the four header bytes
   * and the position after the varint that follows them, or the error it
   * raises.
   */
  function Init(s: seq<byte>): (r: Result<(seq<byte>, nat), InitError>)
    ensures r.Failure? <==> |s| < 4 || FirstClear(s[4..]).None?
    ensures r.Failure? ==> (r.error == HeaderNotFourBytes <==> |s| < 4)
    ensures r.Success? ==> r.value.0 == s[..4]
    ensures r.Success? ==> 5 <= r.value.1 <= |s| && s[r.value.1 - 1] < 128
    ensures r.Success? ==> forall j :: 4 <= j < r.value.1 - 1 ==> s[j] >= 128
  {
    if |s| < 4 then Failure(HeaderNotFourBytes)
    else
      var prefix := Unsigned(s[4..], 32);
      FirstClearSpec(s[4..]);
      if prefix == (-1, -1) then Failure(PrefixNotVarint)
      else Success((s[..4], 4 + prefix.1))
  }

  class MMKVParser {
    /** The log being read (`self.mmkv_file`). */
    const mmkvFile: ByteStream
    /** The first four bytes of the log (`self.header_bytes`). */
    const headerBytes: seq<byte>
    /** The parser's own count of the bytes consumed (`self.pos`). */
    var pos: int
    /** The key -> values map built so far (`self.decoded_map`). */
    var decodedMap: map<string, seq<seq<byte>>>

    ghost predicate Valid()
      reads this, mmkvFile
    {
      && mmkvFile.Valid()
      && |headerBytes| == 4
    }

    constructor Create(file: ByteStream, header: seq<byte>, start: int)
      requires file.Valid() && |header| == 4
      ensures Valid()
      ensures mmkvFile == file && headerBytes == header && pos == start && decodedMap == map[]
    {
      mmkvFile := file;
      headerBytes := header;
      pos := start;
      decodedMap := map[];
    }

    /**
     * `MMKVParser(mmkv_file_data=stream)`: reads the four header bytes, then
     * skips one varint, and counts both in `pos`.
     */
    static method Open(mmkvFileData: ByteStream) returns (r: Result<MMKVParser, InitError>)
      requires mmkvFileData.Valid()
      modifies mmkvFileData
      ensures mmkvFileData.Valid()
      ensures var init := Init(old(mmkvFileData.Remaining()));
        && (r.Failure? <==> init.Failure?)
        && (r.Failure? ==> r.error == init.error)
        && (r.Success? ==>
              && fresh(r.value) && r.value.Valid()
              && r.value.mmkvFile == mmkvFileData
              && r.value.headerBytes == init.value.0
              && r.value.pos == init.value.1
              && mmkvFileData.cursor == old(mmkvFileData.cursor) + init.value.1
              && r.value.decodedMap == map[])
    {
      ghost var s := mmkvFileData.Remaining();
      var pos := 0;
      var header := mmkvFileData.Read(4);
      if |header| != 4 {
        return Failure(HeaderNotFourBytes);
      }
      pos := pos + 4;
      assert mmkvFileData.Remaining() == s[4..];
      var x, bytesRead := DecodeUnsignedVarint(mmkvFileData, 32);
      if (x, bytesRead) == (-1, -1) {
        return Failure(PrefixNotVarint);
      }
      pos := pos + bytesRead;
      var parser := new MMKVParser.Create(mmkvFileData, header, pos);
      return Success(parser);
    }

    /** `get_db_size()`: the declared size, the header read as a little-endian uint32. */
    function GetDbSize(): (size: nat)
      requires |headerBytes| == 4
      ensures size < TwoTo32
      ensures LittleEndian32(size) == headerBytes
    {
      UnpackUInt32(headerBytes)
    }

    /**
     * `decode_into_map()`: reads records while `pos` is below the declared
     * size, stopping early as LogScan.Scan describes, and puts every written
     * value at the front of its key's list.
     */
    method DecodeIntoMap() returns (result: map<string, seq<seq<byte>>>)
      requires Valid()
      modifies this, mmkvFile
      ensures Valid()
      ensures var scan := Scan(mmkvFile.data, old(mmkvFile.cursor), old(pos), GetDbSize(), true);
        && mmkvFile.cursor == scan.cursor
        && pos == scan.pos
        && decodedMap == Apply(old(decodedMap), scan.records)
      ensures result == decodedMap
    {
      var dbSize := GetDbSize();
      ghost var data := mmkvFile.data;
      ghost var whole := Scan(data, mmkvFile.cursor, pos, dbSize, true);
      ghost var done: seq<Record> := [];
      while pos < dbSize
        invariant Valid() && mmkvFile.data == data
        invariant whole == After(done, Scan(data, mmkvFile.cursor, pos, dbSize, true))
        invariant decodedMap == Apply(old(decodedMap), done)
        decreases dbSize - pos
      {
        var step := ReadRecord();
        if step.Stop? {
          break;
        }
        AfterStep(done, step.record, Scan(data, step.cursor, step.pos, dbSize, true));
        ApplySnoc(old(decodedMap), done, step.record);
        decodedMap := Insert(decodedMap, step.record);
        done := done + [step.record];
      }
      assert done + [] == done;
      return decodedMap;
    }

    /**
     * One pass of the loop body of `decode_into_map()`, up to the point
     * where the value is inserted: the key length, then the key and the
     * value as ReadKey reads them.
     */
    method ReadRecord() returns (step: Step)
      requires mmkvFile.Valid()
      modifies this`pos, mmkvFile
      ensures mmkvFile.Valid()
      ensures mmkvFile.cursor == step.cursor && pos == step.pos
      ensures step == Pass(mmkvFile.data, old(mmkvFile.cursor), old(pos), KeyLength, true)
    {
      var keyLength, bytesRead := DecodeUnsignedVarint(mmkvFile, 32);
      if (keyLength, bytesRead) == (-1, -1) || keyLength == 0 {
        return Stop(mmkvFile.cursor, pos);
      }
      pos := pos + bytesRead;
      step := ReadKey(keyLength);
    }

    /** The rest of a pass once a non-zero key length is read: the key, then the value as ReadValue reads it. */
    method ReadKey(keyLength: nat) returns (step: Step)
      requires mmkvFile.Valid()
      modifies this`pos, mmkvFile
      ensures mmkvFile.Valid()
      ensures mmkvFile.cursor == step.cursor && pos == step.pos
      ensures step == Pass(mmkvFile.data, old(mmkvFile.cursor), old(pos), KeyBytes(keyLength), true)
    {
      var keyBytes := mmkvFile.Read(keyLength);
      var key := Utf8.Decode(keyBytes);
      if key.None? {
        return Stop(mmkvFile.cursor, pos);
      }
      pos := pos + keyLength;
      step := ReadValue(key.value);
    }

    /** The rest of a pass once the key is decoded: the value length and the value. */
    method ReadValue(key: string) returns (step: Step)
      requires mmkvFile.Valid()
      modifies this`pos, mmkvFile
      ensures mmkvFile.Valid()
      ensures mmkvFile.cursor == step.cursor && pos == step.pos
      ensures step == Pass(mmkvFile.data, old(mmkvFile.cursor), old(pos), ValueBytes(key), true)
    {
      var valueLength, bytesRead := DecodeUnsignedVarint(mmkvFile, 32);
      pos := pos + bytesRead;
      if (valueLength, bytesRead) == (-1, -1) {
        return Stop(mmkvFile.cursor, pos);
      }
      if valueLength == 0 {
        pos := pos + bytesRead;
        return Advance(Remove(key), mmkvFile.cursor, pos);
      }
      var valueBytes := mmkvFile.Read(valueLength);
      pos := pos + valueLength;
      return Advance(Put(key, valueBytes), mmkvFile.cursor, pos);
    }
  }
}
