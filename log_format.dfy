/**
 * The log layout as MMKV writes it, and what the record scan of
 * `MMKVParser.decode_into_map` (frontend/public/mmkv_parser.py) makes of it.
 *
 * A log is a four-byte little-endian size, then the body: one varint of
 * unknown purpose followed by the records. The declared size counts the
 * body only, not the four size bytes. The loop of `decode_into_map`
 * compares `pos`, which counts from the first byte of the file, with that
 * size, and counts the value-length varint of a tombstone twice. The
 * corrected scan below compares `pos` with four plus the size and counts
 * every byte once; on every well-formed log it reads back exactly the
 * records written. The loop as written reads, on a log without removals,
 * exactly the records that start below the declared size.
 */
module LogFormat {
  import opened Bytes
  import opened Streams
  import opened Varint
  import opened LogScan
  import opened MmkvParser
  import Utf8

  /** One record as the log stores it: the key's UTF-8 bytes and the value, empty for a removal. */
  datatype Entry = Entry(keyBytes: seq<byte>, value: seq<byte>)

  /** A record the parser can read: a non-empty UTF-8 key, and lengths that fit the 32-bit length varints. */
  predicate WellFormed(e: Entry)
  {
    0 < |e.keyBytes| < TwoTo32 && |e.value| < TwoTo32 && Utf8.Decode(e.keyBytes).Some?
  }

  predicate AllWellFormed(es: seq<Entry>)
  {
    forall i :: 0 <= i < |es| ==> WellFormed(es[i])
  }

  /** `<varint key_len><key><varint value_len><value>`. */
  function EncodeEntry(e: Entry): (r: seq<byte>)
    ensures |r| >= 2 + |e.keyBytes| + |e.value|
  {
    EncodeVarint(|e.keyBytes|) + e.keyBytes + EncodeVarint(|e.value|) + e.value
  }

  /** The records one after another. */
  function EncodeEntries(es: seq<Entry>): (r: seq<byte>)
    ensures es == [] <==> r == []
  {
    if es == [] then [] else EncodeEntry(es[0]) + EncodeEntries(es[1..])
  }

  /** The body of a log: the unknown varint, then the records. */
  function EncodeBody(prefix: nat, es: seq<Entry>): seq<byte>
  {
    EncodeVarint(prefix) + EncodeEntries(es)
  }

  /** A whole log: the body's length as four little-endian bytes, then the body. */
  function EncodeLog(prefix: nat, es: seq<Entry>): seq<byte>
    requires |EncodeBody(prefix, es)| < TwoTo32
  {
    LittleEndian32(|EncodeBody(prefix, es)|) + EncodeBody(prefix, es)
  }

  /** What the scan reports for a well-formed record: a removal for an empty value, a write otherwise. */
  function RecordOf(e: Entry): Record
    requires WellFormed(e)
  {
    var key := Utf8.Decode(e.keyBytes).value;
    if e.value == [] then Remove(key) else Put(key, e.value)
  }

  function RecordsOf(es: seq<Entry>): (r: seq<Record>)
    requires AllWellFormed(es)
    ensures |r| == |es|
  {
    if es == [] then [] else [RecordOf(es[0])] + RecordsOf(es[1..])
  }

  /**
   * The loop of decode_into_map as the declared size means it: `pos`
   * counts from the first byte of the file, so the loop runs while `pos`
   * is below four plus the size, and a tombstone's value length is
   * counted once.
   */
  function CorrectedScan(data: seq<byte>, cursor: nat, pos: int, size: int): Scanned
    requires cursor <= |data|
  {
    Scan(data, cursor, pos, 4 + size, false)
  }

  /** An encoded varint at position c of the data decodes to its value, whatever follows it. */
  lemma EncodedVarintAt(data: seq<byte>, c: nat, n: nat)
    requires n < TwoTo32
    requires c + |EncodeVarint(n)| <= |data| && data[c..c + |EncodeVarint(n)|] == EncodeVarint(n)
    ensures Unsigned(data[c..], 32) == (n, |EncodeVarint(n)|)
  {
    var e := EncodeVarint(n);
    assert data[c..] == e + data[c + |e|..];
    UnsignedRoundTrip(n, 32);
    UnsignedIgnoresTrailing(e, data[c + |e|..], 32);
  }

  /** The parts of `a + b + c + d + rest`, by position. */
  lemma FourParts(a: seq<byte>, b: seq<byte>, c: seq<byte>, d: seq<byte>, rest: seq<byte>, data: seq<byte>, at: nat)
    requires at + |a + b + c + d| <= |data|
    requires data[at..] == a + b + c + d + rest
    ensures data[at..at + |a|] == a
    ensures data[at + |a|..at + |a| + |b|] == b
    ensures data[at + |a| + |b|..at + |a| + |b| + |c|] == c
    ensures data[at + |a| + |b| + |c|..at + |a| + |b| + |c| + |d|] == d
    ensures data[at + |a| + |b| + |c| + |d|..] == rest
  {
    var s := data[at..];
    assert s[..|a|] == a;
    assert s[|a|..|a| + |b|] == b;
    assert s[|a| + |b|..|a| + |b| + |c|] == c;
    assert s[|a| + |b| + |c|..|a| + |b| + |c| + |d|] == d;
    assert s[|a| + |b| + |c| + |d|..] == rest;
  }

  /** A key length that is read and not zero hands the pass on to the key. */
  lemma KeyLengthThenKey(data: seq<byte>, c: nat, pos: int, twice: bool, n: nat, len: nat)
    requires c <= |data| && n != 0 && Unsigned(data[c..], 32) == (n, len)
    ensures Pass(data, c, pos, KeyLength, twice) == Pass(data, c + len, pos + len, KeyBytes(n), twice)
  {
  }

  /** A key that is UTF-8 hands the pass on to the value. */
  lemma KeyThenValue(data: seq<byte>, c: nat, pos: int, keyBytes: seq<byte>, twice: bool)
    requires c + |keyBytes| <= |data| && data[c..c + |keyBytes|] == keyBytes
    requires Utf8.Decode(keyBytes).Some?
    ensures Pass(data, c, pos, KeyBytes(|keyBytes|), twice)
         == Pass(data, c + |keyBytes|, pos + |keyBytes|, ValueBytes(Utf8.Decode(keyBytes).value), twice)
  {
    assert Chunk(data, c, |keyBytes|) == keyBytes;
  }

  /**
   * The value phase on a complete length varint and a complete value: a
   * zero length is a tombstone, whose varint `pos` counts a second time when
   * `twice` holds; any other length is a write of the bytes that follow.
   */
  lemma ValueRead(data: seq<byte>, key: string, c: nat, pos: int, twice: bool, value: seq<byte>, len: nat)
    requires c + len + |value| <= |data|
    requires Unsigned(data[c..], 32) == (|value|, len)
    requires data[c + len..c + len + |value|] == value
    ensures Pass(data, c, pos, ValueBytes(key), twice)
         == Advance(if value == [] then Remove(key) else Put(key, value),
                    c + len + |value|, pos + len + |value| + if twice && value == [] then len else 0)
  {
  }

  /**
   * Where the parts of an encoded record lie once it is found at position
   * c: the key length at c, the key after it, the value length after the
   * key, the value after that.
   */
  lemma EntryParts(data: seq<byte>, c: nat, e: Entry, rest: seq<byte>)
    requires WellFormed(e)
    requires c + |EncodeEntry(e)| <= |data| && data[c..] == EncodeEntry(e) + rest
    ensures
      var k1, k2 := |EncodeVarint(|e.keyBytes|)|, |EncodeVarint(|e.value|)|;
      var c1 := c + k1;
      var c2 := c1 + |e.keyBytes|;
      && Unsigned(data[c..], 32) == (|e.keyBytes|, k1)
      && data[c1..c1 + |e.keyBytes|] == e.keyBytes
      && Unsigned(data[c2..], 32) == (|e.value|, k2)
      && c2 + k2 + |e.value| == c + |EncodeEntry(e)|
      && data[c2 + k2..c2 + k2 + |e.value|] == e.value
  {
    var kb, v := e.keyBytes, e.value;
    var k1, k2 := EncodeVarint(|kb|), EncodeVarint(|v|);
    assert EncodeEntry(e) == k1 + kb + k2 + v;
    assert |EncodeEntry(e)| == |k1| + |kb| + |k2| + |v|;
    FourParts(k1, kb, k2, v, rest, data, c);
    EncodedVarintAt(data, c, |kb|);
    EncodedVarintAt(data, c + |k1| + |kb|, |v|);
  }

  /**
   * A UTF-8 key, a value length and a complete value one after another
   * from position c1, with `pos` equal to c1: the rest of the corrected
   * loop body reads them as one record.
   */
  lemma KeyAndValue(data: seq<byte>, c1: nat, keyBytes: seq<byte>, value: seq<byte>, k2: nat)
    requires Utf8.Decode(keyBytes).Some?
    requires c1 + |keyBytes| + k2 + |value| <= |data|
    requires data[c1..c1 + |keyBytes|] == keyBytes
    requires Unsigned(data[c1 + |keyBytes|..], 32) == (|value|, k2)
    requires data[c1 + |keyBytes| + k2..c1 + |keyBytes| + k2 + |value|] == value
    ensures
      var key := Utf8.Decode(keyBytes).value;
      var end := c1 + |keyBytes| + k2 + |value|;
      Pass(data, c1, c1, KeyBytes(|keyBytes|), false) == Advance(if value == [] then Remove(key) else Put(key, value), end, end)
  {
    var c2 := c1 + |keyBytes|;
    KeyThenValue(data, c1, c1, keyBytes, false);
    ValueRead(data, Utf8.Decode(keyBytes).value, c2, c2, false, value, k2);
  }

  /**
   * A key length, a UTF-8 key, a value length and a complete value one
   * after another from position c, with `pos` equal to c: the corrected
   * loop body reads them as one record and leaves both positions just past
   * the value.
   */
  lemma ReadsParts(data: seq<byte>, c: nat, keyBytes: seq<byte>, value: seq<byte>, k1: nat, k2: nat)
    requires keyBytes != [] && Utf8.Decode(keyBytes).Some?
    requires c + k1 + |keyBytes| + k2 + |value| <= |data|
    requires Unsigned(data[c..], 32) == (|keyBytes|, k1)
    requires data[c + k1..c + k1 + |keyBytes|] == keyBytes
    requires Unsigned(data[c + k1 + |keyBytes|..], 32) == (|value|, k2)
    requires data[c + k1 + |keyBytes| + k2..c + k1 + |keyBytes| + k2 + |value|] == value
    ensures
      var key := Utf8.Decode(keyBytes).value;
      var end := c + k1 + |keyBytes| + k2 + |value|;
      Pass(data, c, c, KeyLength, false) == Advance(if value == [] then Remove(key) else Put(key, value), end, end)
  {
    KeyLengthThenKey(data, c, c, false, |keyBytes|, k1);
    KeyAndValue(data, c + k1, keyBytes, value, k2);
  }

  /** One well-formed record at position c, with `pos` equal to c, is read whole. */
  lemma ReadsEncodedEntry(data: seq<byte>, c: nat, e: Entry, rest: seq<byte>, step: Step)
    requires WellFormed(e)
    requires c + |EncodeEntry(e)| <= |data| && data[c..] == EncodeEntry(e) + rest
    requires step == Pass(data, c, c, KeyLength, false)
    ensures step == Advance(RecordOf(e), c + |EncodeEntry(e)|, c + |EncodeEntry(e)|)
  {
    EntryParts(data, c, e, rest);
    ReadsParts(data, c, e.keyBytes, e.value, |EncodeVarint(|e.keyBytes|)|, |EncodeVarint(|e.value|)|);
  }

  /** What follows a known prefix at position `at`. */
  lemma DropPrefix(data: seq<byte>, at: nat, a: seq<byte>, b: seq<byte>)
    requires at <= |data| && data[at..] == a + b
    ensures at + |a| <= |data| && data[at + |a|..] == b
  {
    assert data[at + |a|..] == (a + b)[|a|..];
  }

  /** The records after the first of a well-formed run are well-formed. */
  lemma RestWellFormed(es: seq<Entry>)
    requires es != [] && AllWellFormed(es)
    ensures WellFormed(es[0]) && AllWellFormed(es[1..])
  {
    forall i | 0 <= i < |es| - 1 ensures WellFormed(es[1..][i]) {
      assert es[1..][i] == es[i + 1];
    }
  }

  /** Regrouping `(a + b) + c` found at position `at`, and what follows `a`. */
  lemma Reassociate(data: seq<byte>, at: nat, a: seq<byte>, b: seq<byte>, c: seq<byte>)
    requires at <= |data| && data[at..] == (a + b) + c
    ensures data[at..] == a + (b + c)
    ensures at + |a| <= |data| && data[at + |a|..] == b + c
  {
    assert (a + b) + c == a + (b + c);
    DropPrefix(data, at, a, b + c);
  }

  /** The first record of a non-empty run, and the run after it. */
  lemma SplitEntries(data: seq<byte>, at: nat, es: seq<Entry>, post: seq<byte>)
    requires es != []
    requires at <= |data| && data[at..] == EncodeEntries(es) + post
    ensures |EncodeEntries(es)| == |EncodeEntry(es[0])| + |EncodeEntries(es[1..])|
    ensures data[at..] == EncodeEntry(es[0]) + (EncodeEntries(es[1..]) + post)
    ensures data[at + |EncodeEntry(es[0])|..] == EncodeEntries(es[1..]) + post
  {
    Reassociate(data, at, EncodeEntry(es[0]), EncodeEntries(es[1..]), post);
  }

  /** The first record of a non-empty well-formed run is read whole, and the rest of the run follows it. */
  lemma ReadsFirst(data: seq<byte>, at: nat, es: seq<Entry>, post: seq<byte>)
    requires es != [] && AllWellFormed(es)
    requires at <= |data| && data[at..] == EncodeEntries(es) + post
    ensures AllWellFormed(es[1..])
    ensures var next := at + |EncodeEntry(es[0])|;
      && next + |EncodeEntries(es[1..])| == at + |EncodeEntries(es)|
      && data[next..] == EncodeEntries(es[1..]) + post
      && Pass(data, at, at, KeyLength, false) == Advance(RecordOf(es[0]), next, next)
  {
    RestWellFormed(es);
    SplitEntries(data, at, es, post);
    ReadsEncodedEntry(data, at, es[0], EncodeEntries(es[1..]) + post, Pass(data, at, at, KeyLength, false));
  }

  /**
   * From position `at`, with `pos` equal to it, each pass of the corrected
   * loop body reads the next entry of `es` in turn and stops just past it.
   */
  ghost predicate ReadsInTurn(data: seq<byte>, at: nat, es: seq<Entry>)
    decreases |es|
  {
    es == [] ||
      (var next := at + |EncodeEntry(es[0])|;
       && at <= |data| && WellFormed(es[0])
       && Pass(data, at, at, KeyLength, false) == Advance(RecordOf(es[0]), next, next)
       && ReadsInTurn(data, next, es[1..]))
  }

  /** A well-formed run of encoded records is read one entry per pass. */
  lemma {:induction false} EncodedReadsInTurn(data: seq<byte>, at: nat, es: seq<Entry>, post: seq<byte>)
    requires AllWellFormed(es)
    requires at <= |data| && data[at..] == EncodeEntries(es) + post
    ensures ReadsInTurn(data, at, es)
    decreases |es|
  {
    if es != [] {
      ReadsFirst(data, at, es, post);
      EncodedReadsInTurn(data, at + |EncodeEntry(es[0])|, es[1..], post);
    }
  }

  /**
   * The corrected scan over a run read one entry per pass returns the
   * run's records in order, and ends with the stream and `pos` both at the
   * end of the records.
   */
  lemma {:induction false} ScanReadsInTurn(data: seq<byte>, at: nat, es: seq<Entry>, scan: Scanned)
    requires AllWellFormed(es)
    requires at <= |data| && ReadsInTurn(data, at, es)
    requires scan == Scan(data, at, at, at + |EncodeEntries(es)|, false)
    ensures scan == Scanned(RecordsOf(es), at + |EncodeEntries(es)|, at + |EncodeEntries(es)|)
    decreases |es|
  {
    if es != [] {
      RestWellFormed(es);
      var next := at + |EncodeEntry(es[0])|;
      var end := at + |EncodeEntries(es)|;
      assert end == next + |EncodeEntries(es[1..])|;
      assert Pass(data, at, at, KeyLength, false) == Advance(RecordOf(es[0]), next, next);
      assert next <= |data| && ReadsInTurn(data, next, es[1..]);
      ScanReadsInTurn(data, next, es[1..], Scan(data, next, next, end, false));
      ScanAdvances(data, at, at, end, false, Pass(data, at, at, KeyLength, false), Scan(data, next, next, end, false), scan);
    }
  }

  /**
   * The corrected scan reads every well-formed run of records back in
   * order, and ends with the stream and `pos` both at the end of the
   * records.
   */
  lemma ScanEncoded(data: seq<byte>, at: nat, es: seq<Entry>, post: seq<byte>, limit: int, scan: Scanned)
    requires AllWellFormed(es)
    requires at <= |data| && data[at..] == EncodeEntries(es) + post
    requires limit == at + |EncodeEntries(es)| && scan == Scan(data, at, at, limit, false)
    ensures scan == Scanned(RecordsOf(es), limit, limit)
  {
    EncodedReadsInTurn(data, at, es, post);
    ScanReadsInTurn(data, at, es, scan);
  }

  /**
   * Opening a well-formed log reads the four size bytes, which hold the
   * length of the body, and leaves `pos` just past the unknown varint.
   */
  lemma OpensEncodedLog(prefix: nat, es: seq<Entry>)
    requires prefix < TwoTo32
    requires |EncodeBody(prefix, es)| < TwoTo32
    ensures
      var log := EncodeLog(prefix, es);
      && Init(log) == Success((log[..4], 4 + |EncodeVarint(prefix)|))
      && UnpackUInt32(log[..4]) == |EncodeBody(prefix, es)|
  {
    var body := EncodeBody(prefix, es);
    var log := EncodeLog(prefix, es);
    assert log[4..] == EncodeVarint(prefix) + EncodeEntries(es);
    EncodedVarintAt(log, 4, prefix);
    assert log[..4] == LittleEndian32(|body|);
    UnpackPacked(|body|);
  }

  /** In a log, the records start after the size bytes and the unknown varint. */
  lemma RecordsStart(prefix: nat, es: seq<Entry>)
    requires |EncodeBody(prefix, es)| < TwoTo32
    ensures
      var log := EncodeLog(prefix, es);
      var start := 4 + |EncodeVarint(prefix)|;
      && start + |EncodeEntries(es)| == 4 + |EncodeBody(prefix, es)| == |log|
      && log[start..] == EncodeEntries(es) + []
  {
    var log := EncodeLog(prefix, es);
    var p := EncodeVarint(prefix);
    assert log[4..] == p + EncodeEntries(es);
    assert log[4 + |p|..] == log[4..][|p|..];
  }

  /**
   * Where a log's parts lie: opening it skips the size bytes and the
   * unknown varint, the records follow, and they end where the declared
   * size says the body ends.
   */
  lemma LogLayout(prefix: nat, es: seq<Entry>, log: seq<byte>)
    requires prefix < TwoTo32
    requires |EncodeBody(prefix, es)| < TwoTo32 && log == EncodeLog(prefix, es)
    ensures var start := 4 + |EncodeVarint(prefix)|;
      && Init(log) == Success((log[..4], start))
      && start <= |log| && log[start..] == EncodeEntries(es) + []
      && 4 + UnpackUInt32(log[..4]) == start + |EncodeEntries(es)|
  {
    OpensEncodedLog(prefix, es);
    RecordsStart(prefix, es);
  }

  /**
   * The intended reading of a whole log: opening it skips the size bytes
   * and the unknown varint, and the corrected scan, bounded by the size
   * the log declares, then returns every record written, in log order.
   */
  lemma LogRoundTrip(prefix: nat, es: seq<Entry>, log: seq<byte>)
    requires AllWellFormed(es) && prefix < TwoTo32
    requires |EncodeBody(prefix, es)| < TwoTo32 && log == EncodeLog(prefix, es)
    ensures var start := 4 + |EncodeVarint(prefix)|;
      && Init(log) == Success((log[..4], start))
      && CorrectedScan(log, start, start, UnpackUInt32(log[..4])).records == RecordsOf(es)
  {
    var start := 4 + |EncodeVarint(prefix)|;
    var size := UnpackUInt32(log[..4]);
    LogLayout(prefix, es, log);
    assert Init(log) == Success((log[..4], start));
    assert start <= |log| && log[start..] == EncodeEntries(es) + [];
    assert 4 + size == start + |EncodeEntries(es)|;
    ReadsRecords(log, start, size, es);
    assert CorrectedScan(log, start, start, size).records == RecordsOf(es);
  }

  /** Records that run from `start` to the end of the declared size are read back by the corrected scan. */
  lemma ReadsRecords(log: seq<byte>, start: nat, size: int, es: seq<Entry>)
    requires AllWellFormed(es)
    requires start <= |log| && log[start..] == EncodeEntries(es) + []
    requires 4 + size == start + |EncodeEntries(es)|
    ensures CorrectedScan(log, start, start, size).records == RecordsOf(es)
  {
    ScanEncoded(log, start, es, [], 4 + size, CorrectedScan(log, start, start, size));
  }

  /** Records with no removal among them. */
  predicate NoTombstones(es: seq<Entry>)
  {
    forall i :: 0 <= i < |es| ==> es[i].value != []
  }

  /**
   * The records of a run laid out from position `at` that start below
   * `limit`: those the loop as written reaches, since it tests `pos` only
   * before each record.
   */
  function ReadBelow(at: int, es: seq<Entry>, limit: int): (r: seq<Record>)
    requires AllWellFormed(es)
    ensures |r| <= |es| && r == RecordsOf(es)[..|r|]
    ensures at < limit && es != [] ==> r != []
    decreases |es|
  {
    if es == [] || at >= limit then []
    else
      RestWellFormed(es);
      [RecordOf(es[0])] + ReadBelow(at + |EncodeEntry(es[0])|, es[1..], limit)
  }

  /**
   * The scan as written, over a run of writes read one entry per pass and
   * a limit no further than the run's end, returns exactly the records
   * that start below the limit.
   */
  lemma {:induction false} WrittenScan(data: seq<byte>, at: nat, es: seq<Entry>, limit: int, scan: Scanned)
    requires AllWellFormed(es) && NoTombstones(es)
    requires at <= |data| && ReadsInTurn(data, at, es)
    requires limit <= at + |EncodeEntries(es)|
    requires scan == Scan(data, at, at, limit, true)
    ensures scan.records == ReadBelow(at, es, limit)
    decreases |es|
  {
    if es != [] && at < limit {
      RestWellFormed(es);
      var next := at + |EncodeEntry(es[0])|;
      assert |EncodeEntries(es)| == |EncodeEntry(es[0])| + |EncodeEntries(es[1..])|;
      assert Pass(data, at, at, KeyLength, false) == Advance(RecordOf(es[0]), next, next);
      assert next <= |data| && ReadsInTurn(data, next, es[1..]);
      assert NoTombstones(es[1..]) by {
        forall i | 0 <= i < |es[1..]| ensures es[1..][i].value != [] {
          assert es[1..][i] == es[i + 1];
        }
      }
      TwiceAgreesOnWrites(data, at, at);
      WrittenScan(data, next, es[1..], limit, Scan(data, next, next, limit, true));
      ScanAdvances(data, at, at, limit, true, Pass(data, at, at, KeyLength, true),
                   Scan(data, next, next, limit, true), scan);
    }
  }

  /**
   * The loop as written, on a written log without removals: opening it
   * leaves `pos` just past the unknown varint, and the scan bounded by the
   * declared size returns exactly the records that start below that size.
   */
  lemma AsWrittenReadsBelowSize(prefix: nat, es: seq<Entry>, log: seq<byte>)
    requires AllWellFormed(es) && NoTombstones(es) && prefix < TwoTo32
    requires |EncodeBody(prefix, es)| < TwoTo32 && log == EncodeLog(prefix, es)
    ensures var start := 4 + |EncodeVarint(prefix)|;
      && Init(log) == Success((log[..4], start))
      && Scan(log, start, start, UnpackUInt32(log[..4]), true).records
         == ReadBelow(start, es, UnpackUInt32(log[..4]))
  {
    var start := 4 + |EncodeVarint(prefix)|;
    LogLayout(prefix, es, log);
    EncodedReadsInTurn(log, start, es, []);
    WrittenScan(log, start, es, UnpackUInt32(log[..4]), Scan(log, start, start, UnpackUInt32(log[..4]), true));
  }

  /** The key bytes 6b 65 79 are the key "key". */
  lemma DecodeKey()
    ensures Utf8.Decode([0x6b, 0x65, 0x79]) == Some("key")
  {
    Utf8.DecodeAscii([0x6b, 0x65, 0x79]);
    var key := Utf8.Decode([0x6b, 0x65, 0x79]).value;
    assert key[0] as int == 0x6b && key[1] as int == 0x65 && key[2] as int == 0x79;
    assert key[0] == 'k' && key[1] == 'e' && key[2] == 'y';
    assert |key| == 3 && "key" == ['k', 'e', 'y'];
    assert key == "key";
  }

  /**
   * The first 15 bytes of the unit test's int32 log form the log written
   * with the unknown varint ff ff ff 07 and one write of dc 22 to "key":
   * size 11, the varint at 4..8 and the record from 8 on.
   */
  lemma Int32KeypairEncoded(head: seq<byte>)
    requires head == [0x0b, 0x00, 0x00, 0x00, 0xff, 0xff, 0xff, 0x07, 0x03, 0x6b, 0x65, 0x79, 0x02, 0xdc, 0x22]
    ensures |EncodeBody(0xffffff, [Entry([0x6b, 0x65, 0x79], [0xdc, 0x22])])| == 11
    ensures head == EncodeLog(0xffffff, [Entry([0x6b, 0x65, 0x79], [0xdc, 0x22])])
    ensures head[4..8] == EncodeVarint(0xffffff)
    ensures head[8..] == EncodeEntries([Entry([0x6b, 0x65, 0x79], [0xdc, 0x22])])
  {
    var e := Entry([0x6b, 0x65, 0x79], [0xdc, 0x22]);
    assert EncodeVarint(0xffffff) == [0xff, 0xff, 0xff, 0x07];
    assert EncodeEntry(e) == [0x03, 0x6b, 0x65, 0x79, 0x02, 0xdc, 0x22];
    assert EncodeEntries([e]) == EncodeEntry(e) + EncodeEntries([]);
    assert LittleEndian32(11) == [0x0b, 0x00, 0x00, 0x00];
  }

  /**
   * A log that begins with the unit test's int32 bytes, whatever page
   * padding follows them: size 11, the unknown varint ff ff ff 07, then
   * "key" written with dc 22. Opening it leaves `pos` at 8, and the loop as
   * written reads that one record and stops at the declared size.
   */
  lemma Int32KeypairLog(log: seq<byte>, pad: seq<byte>)
    requires log == [0x0b, 0x00, 0x00, 0x00, 0xff, 0xff, 0xff, 0x07, 0x03, 0x6b, 0x65, 0x79, 0x02, 0xdc, 0x22] + pad
    ensures Init(log) == Success((log[..4], 8))
    ensures UnpackUInt32(log[..4]) == 11
    ensures Scan(log, 8, 8, UnpackUInt32(log[..4]), true).records == [Put("key", [0xdc, 0x22])]
  {
    var e := Entry([0x6b, 0x65, 0x79], [0xdc, 0x22]);
    var head := log[..15];
    assert head == [0x0b, 0x00, 0x00, 0x00, 0xff, 0xff, 0xff, 0x07, 0x03, 0x6b, 0x65, 0x79, 0x02, 0xdc, 0x22];
    DecodeKey();
    Int32KeypairEncoded(head);
    assert log[4..8] == head[4..8];
    EncodedVarintAt(log, 4, 0xffffff);
    assert log[..4] == head[..4] == LittleEndian32(11);
    UnpackPacked(11);
    assert log[8..] == head[8..] + pad;
    EncodedReadsInTurn(log, 8, [e], pad);
    WrittenScan(log, 8, [e], 11, Scan(log, 8, 8, 11, true));
    assert ReadBelow(8, [e], 11) == [RecordOf(e)] + ReadBelow(8 + |EncodeEntry(e)|, [], 11);
  }

  /** The map the unit test expects from that log: "key" holding the one value dc 22. */
  lemma Int32KeypairMap()
    ensures Apply(map[], [Put("key", [0xdc, 0x22])]) == map["key" := [[0xdc, 0x22]]]
  {
    var b: seq<byte> := [0xdc, 0x22];
    var r := Put("key", b);
    var empty: map<string, seq<seq<byte>>> := map[];
    assert [r][..0] == [];
    assert [b] + Lookup(empty, "key") == [b];
    assert Apply(empty, [r]) == Insert(empty, r) == empty["key" := [b]];
  }

  /** The key bytes 61 are the key "a". */
  lemma DecodeA()
    ensures Utf8.Decode([0x61]) == Some("a")
  {
    Utf8.DecodeAscii([0x61]);
    var d := Utf8.Decode([0x61]).value;
    assert |d| == 1 && d[0] == 'a';
    assert d == ['a'];
  }

  /**
   * As written, the loop compares `pos`, which includes the four size
   * bytes, with a size that does not: a log whose only record is the
   * four bytes 01 61 01 01 (key "a", value 01) declares the size 5 and
   * yet is read as holding no record at all.
   */
  lemma LastRecordDropped()
    ensures
      var log: seq<byte> := [0x05, 0x00, 0x00, 0x00, 0x02, 0x01, 0x61, 0x01, 0x01];
      && Init(log) == Success((log[..4], 5))
      && UnpackUInt32(log[..4]) == 5
      && Scan(log, 5, 5, UnpackUInt32(log[..4]), true).records == []
      && CorrectedScan(log, 5, 5, UnpackUInt32(log[..4])).records == [Put("a", [0x01])]
  {
    var log: seq<byte> := [0x05, 0x00, 0x00, 0x00, 0x02, 0x01, 0x61, 0x01, 0x01];
    var e := Entry([0x61], [0x01]);
    DecodeA();
    assert EncodeVarint(1) == [0x01] && EncodeVarint(2) == [0x02];
    assert EncodeEntries([e]) == [0x01, 0x61, 0x01, 0x01];
    assert EncodeBody(2, [e]) == log[4..];
    assert EncodeLog(2, [e]) == log;
    LogRoundTrip(2, [e], log);
  }

  /**
   * The corrected loop body counts a tombstone's value-length varint once,
   * so that `pos` moves exactly as far as the stream whenever the length
   * is complete.
   */
  lemma TombstoneCountedOnce(data: seq<byte>, key: string, cursor: nat, pos: int)
    requires cursor <= |data|
    requires Unsigned(data[cursor..], 32).0 == 0
    ensures
      var step := Pass(data, cursor, pos, ValueBytes(key), false);
      step == Advance(Remove(key), step.cursor, step.pos) && step.pos - pos == step.cursor - cursor
  {
  }

  /** The log of the tombstone example: size 9, the unknown varint 02, a removal of "a", then a write of 01 02 to "a". */
  predicate IsTombstoneLog(log: seq<byte>)
  {
    log == [0x09, 0x00, 0x00, 0x00, 0x02, 0x01, 0x61, 0x00, 0x01, 0x61, 0x02, 0x01, 0x02]
  }

  /**
   * The removal at offset 5 of the tombstone example: one pass reads it
   * and leaves the stream at 8; `pos` is at 8 too, or at 9 when the
   * tombstone's varint is counted twice.
   */
  lemma TombstoneAt5(log: seq<byte>, twice: bool)
    requires IsTombstoneLog(log)
    ensures Pass(log, 5, 5, KeyLength, twice) == Advance(Remove("a"), 8, if twice then 9 else 8)
  {
    DecodeA();
    assert EncodeVarint(1) == [0x01] && EncodeVarint(0) == [0x00];
    EncodedVarintAt(log, 5, 1);
    EncodedVarintAt(log, 7, 0);
    KeyLengthThenKey(log, 5, 5, twice, 1, 1);
    assert log[6] == 0x61;
    assert log[6..7] == [0x61];
    KeyThenValue(log, 6, 6, [0x61], twice);
    ValueRead(log, "a", 7, 7, twice, [], 1);
  }

  /** The write at offset 8 of the tombstone example: one pass reads it and ends at 13. */
  lemma WriteAt8(log: seq<byte>)
    requires IsTombstoneLog(log)
    ensures Pass(log, 8, 8, KeyLength, false) == Advance(Put("a", [0x01, 0x02]), 13, 13)
  {
    DecodeA();
    assert EncodeVarint(1) == [0x01] && EncodeVarint(2) == [0x02];
    EncodedVarintAt(log, 8, 1);
    EncodedVarintAt(log, 10, 2);
    assert log[9] == 0x61 && log[11] == 0x01 && log[12] == 0x02;
    assert log[9..10] == [0x61] && log[11..13] == [0x01, 0x02];
    ReadsParts(log, 8, [0x61], [0x01, 0x02], 1, 1);
  }

  /** The source's reading of the tombstone example: `pos` reaches 9 after the removal, so the write is not read. */
  lemma TwiceStopsAfterRemoval(log: seq<byte>, scan: Scanned)
    requires IsTombstoneLog(log)
    requires scan == Scan(log, 5, 5, 9, true)
    ensures scan == Scanned([Remove("a")], 8, 9)
  {
    TombstoneAt5(log, true);
    ScanAdvances(log, 5, 5, 9, true, Pass(log, 5, 5, KeyLength, true), Scan(log, 8, 9, 9, true), scan);
  }

  /** The corrected reading of the tombstone example: the removal, then the write. */
  lemma OnceReadsBoth(log: seq<byte>, scan: Scanned)
    requires IsTombstoneLog(log)
    requires scan == Scan(log, 5, 5, 9, false)
    ensures scan == Scanned([Remove("a"), Put("a", [0x01, 0x02])], 13, 13)
  {
    TombstoneAt5(log, false);
    WriteAt8(log);
    ScanAdvances(log, 8, 8, 9, false, Pass(log, 8, 8, KeyLength, false), Scan(log, 13, 13, 9, false), Scan(log, 8, 8, 9, false));
    ScanAdvances(log, 5, 5, 9, false, Pass(log, 5, 5, KeyLength, false), Scan(log, 8, 8, 9, false), scan);
  }

  /**
   * As written, the tombstone's varint is counted twice, so `pos` runs
   * ahead of the stream: in a log of a removal of "a" followed by a
   * two-byte write of "a", the write is never read, while counting the
   * varint once reads it.
   */
  lemma TombstoneHidesNextRecord(log: seq<byte>)
    requires IsTombstoneLog(log)
    ensures Init(log) == Success((log[..4], 5))
    ensures UnpackUInt32(log[..4]) == 9
    ensures Scan(log, 5, 5, 9, true).records == [Remove("a")]
    ensures Scan(log, 5, 5, 9, false).records == [Remove("a"), Put("a", [0x01, 0x02])]
  {
    assert EncodeVarint(2) == [0x02];
    EncodedVarintAt(log, 4, 2);
    assert log[..4] == LittleEndian32(9);
    UnpackPacked(9);
    TwiceStopsAfterRemoval(log, Scan(log, 5, 5, 9, true));
    OnceReadsBoth(log, Scan(log, 5, 5, 9, false));
  }
}
