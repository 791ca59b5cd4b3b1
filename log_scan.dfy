/**
 * The record scan behind `MMKVParser.decode_into_map`
 * (frontend/public/mmkv_parser.py), as functions of the log's bytes.
 *
 * A record is `<varint key_len><key><varint value_len><value>`; a record
 * whose value length is zero is a tombstone left by a removal. The scan
 * keeps two positions: the stream's own read position (`cursor`) and the
 * parser's `pos` counter, which advances by the declared lengths and which
 * alone decides, against the declared size, whether another record is read.
 */
module LogScan {
  import opened Bytes
  import opened Streams
  import opened Varint
  import Utf8

  /** One record of the log, in the order the scan meets it. */
  datatype Record =
    | Put(key: string, blob: seq<byte>)  // a write: value_len > 0
    | Remove(key: string)                // a tombstone: value_len == 0

  /** The outcome of reading one record: the scan stops, or a record was read. */
  datatype Step =
    | Stop(cursor: nat, pos: int)
    | Advance(record: Record, cursor: nat, pos: int)

  /** The records a scan read, in log order, and where it left both positions. */
  datatype Scanned = Scanned(records: seq<Record>, cursor: nat, pos: int)

  /**
   * Where a pass of the loop body is: about to read the key length, the
   * key (of a known non-zero length), or the value of a decoded key.
   */
  datatype Phase =
    | KeyLength
    | KeyBytes(keyLen: nat)
    | ValueBytes(key: string)

  /** How many phases a pass still has to go through, counting this one. */
  function PhasesLeft(phase: Phase): nat
  {
    match phase
    case KeyLength => 2
    case KeyBytes(_) => 1
    case ValueBytes(_) => 0
  }

  /**
   * One pass of the loop body of decode_into_map from `phase`, with the
   * stream at `cursor` and the counter at `pos`:
   *   - KeyLength: stop when the key length cannot be decoded (`pos` is
   *     left as it was, the stream is exhausted) or is zero; otherwise
   *     count its bytes in `pos` and read the key;
   *   - KeyBytes: read up to keyLen bytes and stop unless they are UTF-8;
   *     otherwise count keyLen in `pos` and read the value;
   *   - ValueBytes: read the value length, adding its byte count to `pos`
   *     (-1 when it cannot be decoded, and the pass stops); a zero length
   *     is a tombstone, whose byte count is added a second time when
   *     `tombstoneTwice` holds, as the source does; otherwise read up to
   *     that many bytes and count the declared length in `pos`.
   * A pass that reads a record moves both the stream and `pos` forward.
   */
  function Pass(data: seq<byte>, cursor: nat, pos: int, phase: Phase, tombstoneTwice: bool): (r: Step)
    requires cursor <= |data|
    ensures cursor <= r.cursor <= |data|
    ensures r.Advance? ==> cursor < r.cursor && pos < r.pos
    ensures r.Advance? && phase.ValueBytes? ==> r.record.key == phase.key
    decreases PhasesLeft(phase), 1
  {
    match phase
    case KeyLength => KeyLengthPass(data, cursor, pos, tombstoneTwice)
    case KeyBytes(keyLen) => KeyPass(data, cursor, pos, keyLen, tombstoneTwice)
    case ValueBytes(key) => ValuePass(data, cursor, pos, key, tombstoneTwice)
  }

  function KeyLengthPass(data: seq<byte>, cursor: nat, pos: int, tombstoneTwice: bool): (r: Step)
    requires cursor <= |data|
    ensures cursor <= r.cursor <= |data|
    ensures r.Advance? ==> cursor < r.cursor && pos < r.pos
    decreases PhasesLeft(KeyLength), 0
  {
    var keyLen := Unsigned(data[cursor..], 32);
    if keyLen == (-1, -1) then Stop(|data|, pos)
    else if keyLen.0 == 0 then Stop(cursor + keyLen.1, pos)
    else Pass(data, cursor + keyLen.1, pos + keyLen.1, KeyBytes(keyLen.0), tombstoneTwice)
  }

  function KeyPass(data: seq<byte>, cursor: nat, pos: int, keyLen: nat, tombstoneTwice: bool): (r: Step)
    requires cursor <= |data|
    ensures cursor <= r.cursor <= |data|
    ensures r.Advance? ==> cursor < r.cursor && pos < r.pos
    decreases PhasesLeft(KeyBytes(keyLen)), 0
  {
    var keyBytes := Chunk(data, cursor, keyLen);
    var key := Utf8.Decode(keyBytes);
    if key.None? then Stop(cursor + |keyBytes|, pos)
    else Pass(data, cursor + |keyBytes|, pos + keyLen, ValueBytes(key.value), tombstoneTwice)
  }

  function ValuePass(data: seq<byte>, cursor: nat, pos: int, key: string, tombstoneTwice: bool): (r: Step)
    requires cursor <= |data|
    ensures cursor <= r.cursor <= |data|
    ensures r.Advance? ==> cursor < r.cursor && pos < r.pos && r.record.key == key
  {
    var valueLen := Unsigned(data[cursor..], 32);
    if valueLen == (-1, -1) then Stop(|data|, pos - 1)
    else if valueLen.0 == 0 then
      Advance(Remove(key), cursor + valueLen.1, pos + valueLen.1 + if tombstoneTwice then valueLen.1 else 0)
    else
      var valueBytes := Chunk(data, cursor + valueLen.1, valueLen.0);
      Advance(Put(key, valueBytes), cursor + valueLen.1 + |valueBytes|, pos + valueLen.1 + valueLen.0)
  }

  /**
   * The whole loop of decode_into_map: while `pos < limit`, one pass of
   * the body, until a pass stops.
   */
  function Scan(data: seq<byte>, cursor: nat, pos: int, limit: int, tombstoneTwice: bool): (r: Scanned)
    requires cursor <= |data|
    ensures cursor <= r.cursor <= |data|
    decreases |data| - cursor
  {
    if pos >= limit then Scanned([], cursor, pos)
    else match Pass(data, cursor, pos, KeyLength, tombstoneTwice)
      case Stop(c, p) => Scanned([], c, p)
      case Advance(record, c, p) =>
        var rest := Scan(data, c, p, limit, tombstoneTwice);
        Scanned([record] + rest.records, rest.cursor, rest.pos)
  }

  /** A pass below the limit that reads a record is followed by the rest of the scan. */
  lemma ScanAdvances(data: seq<byte>, cursor: nat, pos: int, limit: int, tombstoneTwice: bool,
                     step: Step, rest: Scanned, whole: Scanned)
    requires cursor <= |data| && pos < limit
    requires step == Pass(data, cursor, pos, KeyLength, tombstoneTwice) && step.Advance?
    requires rest == Scan(data, step.cursor, step.pos, limit, tombstoneTwice)
    requires whole == Scan(data, cursor, pos, limit, tombstoneTwice)
    ensures whole == Scanned([step.record] + rest.records, rest.cursor, rest.pos)
  {
  }

  /**
   * A pass of the loop body stops exactly when the key length cannot be
   * decoded or is zero, the key is not UTF-8, or the value length cannot
   * be decoded.
   */
  lemma StopConditions(data: seq<byte>, cursor: nat, pos: int, tombstoneTwice: bool)
    requires cursor <= |data|
    ensures
      var keyLen := Unsigned(data[cursor..], 32);
      var keyStart := cursor + keyLen.1;
      var keyBytes := if keyLen.0 > 0 && 0 <= keyStart <= |data| then Chunk(data, keyStart, keyLen.0) else [];
      var valueStart := keyStart + |keyBytes|;
      var stops :=
        || keyLen == (-1, -1)
        || keyLen.0 == 0
        || Utf8.Decode(keyBytes).None?
        || (0 <= valueStart <= |data| && Unsigned(data[valueStart..], 32) == (-1, -1));
      Pass(data, cursor, pos, KeyLength, tombstoneTwice).Stop? <==> stops
  {
    var keyLen := Unsigned(data[cursor..], 32);
    if keyLen != (-1, -1) && keyLen.0 != 0 {
      var keyStart := cursor + keyLen.1;
      var keyBytes := Chunk(data, keyStart, keyLen.0);
      assert Pass(data, cursor, pos, KeyLength, tombstoneTwice)
          == Pass(data, keyStart, pos + keyLen.1, KeyBytes(keyLen.0), tombstoneTwice);
      var key := Utf8.Decode(keyBytes);
      if key.Some? {
        assert Pass(data, keyStart, pos + keyLen.1, KeyBytes(keyLen.0), tombstoneTwice)
            == Pass(data, keyStart + |keyBytes|, pos + keyLen.1 + keyLen.0, ValueBytes(key.value), tombstoneTwice);
      }
    }
  }

  /**
   * A pass that reads a record raises `pos` by at least three: one byte of
   * key length, at least one of key, at least one of value length. So the
   * loop, which runs while `pos` is below a fixed size, ends.
   */
  lemma RecordAdvancesPos(data: seq<byte>, cursor: nat, pos: int, tombstoneTwice: bool)
    requires cursor <= |data|
    ensures var step := Pass(data, cursor, pos, KeyLength, tombstoneTwice);
      step.Advance? ==> step.pos >= pos + 3
  {
    var keyLen := Unsigned(data[cursor..], 32);
    if keyLen != (-1, -1) && keyLen.0 != 0 {
      var keyStart := cursor + keyLen.1;
      var keyBytes := Chunk(data, keyStart, keyLen.0);
      assert Pass(data, cursor, pos, KeyLength, tombstoneTwice)
          == Pass(data, keyStart, pos + keyLen.1, KeyBytes(keyLen.0), tombstoneTwice);
      var key := Utf8.Decode(keyBytes);
      if key.Some? {
        assert Pass(data, keyStart, pos + keyLen.1, KeyBytes(keyLen.0), tombstoneTwice)
            == Pass(data, keyStart + |keyBytes|, pos + keyLen.1 + keyLen.0, ValueBytes(key.value), tombstoneTwice);
      }
    }
  }

  /**
   * Counting a tombstone's value length twice changes nothing for a pass
   * that reads a write: both countings read the same record and leave the
   * stream and `pos` at the same place.
   */
  lemma TwiceAgreesOnWrites(data: seq<byte>, cursor: nat, pos: int)
    requires cursor <= |data|
    ensures var once := Pass(data, cursor, pos, KeyLength, false);
      once.Advance? && once.record.Put? ==> Pass(data, cursor, pos, KeyLength, true) == once
  {
    var keyLen := Unsigned(data[cursor..], 32);
    if keyLen != (-1, -1) && keyLen.0 != 0 {
      var keyStart := cursor + keyLen.1;
      var keyBytes := Chunk(data, keyStart, keyLen.0);
      assert Pass(data, cursor, pos, KeyLength, false)
          == Pass(data, keyStart, pos + keyLen.1, KeyBytes(keyLen.0), false);
      assert Pass(data, cursor, pos, KeyLength, true)
          == Pass(data, keyStart, pos + keyLen.1, KeyBytes(keyLen.0), true);
      var key := Utf8.Decode(keyBytes);
      if key.Some? {
        var valueStart := keyStart + |keyBytes|;
        assert Pass(data, keyStart, pos + keyLen.1, KeyBytes(keyLen.0), false)
            == Pass(data, valueStart, pos + keyLen.1 + keyLen.0, ValueBytes(key.value), false);
        assert Pass(data, keyStart, pos + keyLen.1, KeyBytes(keyLen.0), true)
            == Pass(data, valueStart, pos + keyLen.1 + keyLen.0, ValueBytes(key.value), true);
      }
    }
  }

  /** The scan reads no record exactly when `pos` has reached the limit or the first pass stops. */
  lemma ScanEmpty(data: seq<byte>, cursor: nat, pos: int, limit: int, tombstoneTwice: bool)
    requires cursor <= |data|
    ensures Scan(data, cursor, pos, limit, tombstoneTwice).records == []
        <==> pos >= limit || Pass(data, cursor, pos, KeyLength, tombstoneTwice).Stop?
  {
  }

  /**
   * A value longer than what is left of the data is cut short, but `pos`
   * still counts its declared length.
   */
  lemma TruncatedValueCounted(data: seq<byte>, key: string, cursor: nat, pos: int, tombstoneTwice: bool)
    requires cursor <= |data|
    requires var len := Unsigned(data[cursor..], 32); len != (-1, -1) && len.0 > 0 && cursor + len.1 + len.0 > |data|
    ensures
      var len := Unsigned(data[cursor..], 32);
      var step := Pass(data, cursor, pos, ValueBytes(key), tombstoneTwice);
      && step == Advance(Put(key, data[cursor + len.1..]), |data|, pos + len.1 + len.0)
      && |step.record.blob| < len.0
  {
  }

  /** A value list as the source's defaultdict(list) gives it: empty for a key never written. */
  function Lookup(m: map<string, seq<seq<byte>>>, k: string): seq<seq<byte>>
  {
    if k in m then m[k] else []
  }

  /** `decoded_map[key].insert(0, value_bytes)` for a write; a tombstone changes nothing. */
  function Insert(m: map<string, seq<seq<byte>>>, record: Record): map<string, seq<seq<byte>>>
  {
    match record
    case Remove(_) => m
    case Put(k, blob) => m[k := [blob] + Lookup(m, k)]
  }

  /** The map after inserting the records, in log order, into m. */
  function Apply(m: map<string, seq<seq<byte>>>, records: seq<Record>): map<string, seq<seq<byte>>>
    decreases |records|
  {
    if records == [] then m
    else Insert(Apply(m, records[..|records| - 1]), records[|records| - 1])
  }

  /** Inserting one more record after `records`. */
  lemma ApplySnoc(m: map<string, seq<seq<byte>>>, records: seq<Record>, record: Record)
    ensures Apply(m, records + [record]) == Insert(Apply(m, records), record)
  {
    assert (records + [record])[..|records|] == records;
  }

  /** The records read so far in front of what a scan still reads. */
  function After(done: seq<Record>, rest: Scanned): Scanned
  {
    Scanned(done + rest.records, rest.cursor, rest.pos)
  }

  /** One record moves from the rest of a scan to the records read. */
  lemma AfterStep(done: seq<Record>, record: Record, rest: Scanned)
    ensures After(done, Scanned([record] + rest.records, rest.cursor, rest.pos)) == After(done + [record], rest)
  {
    assert done + ([record] + rest.records) == (done + [record]) + rest.records;
  }

  /** The blobs written under key k, in log order. */
  function PutsFor(records: seq<Record>, k: string): seq<seq<byte>>
    decreases |records|
  {
    if records == [] then []
    else
      var last := records[|records| - 1];
      PutsFor(records[..|records| - 1], k) + if last.Put? && last.key == k then [last.blob] else []
  }

  function Reverse<T>(s: seq<T>): (r: seq<T>)
    ensures |r| == |s|
    ensures forall i :: 0 <= i < |s| ==> r[i] == s[|s| - 1 - i]
  {
    if s == [] then [] else [s[|s| - 1]] + Reverse(s[..|s| - 1])
  }

  /**
   * Newest first: a key's list is its writes in reverse log order, in front
   * of whatever the map already held for it. Tombstones contribute nothing.
   */
  lemma {:induction false} NewestFirst(m: map<string, seq<seq<byte>>>, records: seq<Record>, k: string)
    ensures Lookup(Apply(m, records), k) == Reverse(PutsFor(records, k)) + Lookup(m, k)
  {
    if records != [] {
      var prefix, last := records[..|records| - 1], records[|records| - 1];
      NewestFirst(m, prefix, k);
      if last.Put? && last.key == k {
        var earlier := PutsFor(prefix, k);
        assert (earlier + [last.blob])[..|earlier|] == earlier;
      } else {
        assert PutsFor(records, k) == PutsFor(prefix, k);
      }
    }
  }

  /** A key is in the map exactly when it was there before or some record writes it. */
  lemma {:induction false} KeysOfApply(m: map<string, seq<seq<byte>>>, records: seq<Record>, k: string)
    ensures k in Apply(m, records) <==> k in m || PutsFor(records, k) != []
  {
    if records != [] {
      var prefix, last := records[..|records| - 1], records[|records| - 1];
      KeysOfApply(m, prefix, k);
    }
  }

  /** Without a write under k, PutsFor(records, k) is empty. */
  lemma {:induction false} NoPutsFor(records: seq<Record>, k: string)
    requires forall i :: 0 <= i < |records| && records[i].key == k ==> records[i].Remove?
    ensures PutsFor(records, k) == []
  {
    if records != [] {
      NoPutsFor(records[..|records| - 1], k);
    }
  }

  /** A key whose only records are tombstones never appears in a fresh map. */
  lemma TombstonesOnlyKeyAbsent(records: seq<Record>, k: string)
    requires forall i :: 0 <= i < |records| && records[i].key == k ==> records[i].Remove?
    ensures k !in Apply(map[], records)
  {
    NoPutsFor(records, k);
    KeysOfApply(map[], records, k);
  }

  /** Inserting records keeps every list in the map non-empty. */
  lemma {:induction false} ApplyKeepsListsNonEmpty(m: map<string, seq<seq<byte>>>, records: seq<Record>)
    requires forall k :: k in m ==> m[k] != []
    ensures forall k :: k in Apply(m, records) ==> Apply(m, records)[k] != []
  {
    if records != [] {
      ApplyKeepsListsNonEmpty(m, records[..|records| - 1]);
    }
  }

  /** The unit test with four updates of one key: the newest value comes first. */
  lemma IntUpdatesNewestFirst()
    ensures
      var records := [Put("int_key", [0x01]), Put("int_key", [0x0a]), Put("int_key", [0x64]), Put("int_key", [0xe8, 0x07])];
      Apply(map[], records) == map["int_key" := [[0xe8, 0x07], [0x64], [0x0a], [0x01]]]
  {
    var k := "int_key";
    var b0, b1, b2, b3: seq<byte> := [0x01], [0x0a], [0x64], [0xe8, 0x07];
    var r0, r1, r2, r3 := Put(k, b0), Put(k, b1), Put(k, b2), Put(k, b3);
    var records := [r0, r1, r2, r3];
    assert records[..3] == [r0, r1, r2];
    assert [r0, r1, r2][..2] == [r0, r1];
    assert [r0, r1][..1] == [r0];
    assert [r0][..0] == [];
    var empty: map<string, seq<seq<byte>>> := map[];
    assert Apply(empty, [r0]) == empty[k := [b0]] by {
      assert [b0] + Lookup(empty, k) == [b0];
    }
    assert Apply(empty, [r0, r1]) == empty[k := [b1, b0]] by {
      assert [b1] + [b0] == [b1, b0];
    }
    assert Apply(empty, [r0, r1, r2]) == empty[k := [b2, b1, b0]] by {
      assert [b2] + [b1, b0] == [b2, b1, b0];
    }
    assert Apply(empty, records) == empty[k := [b3, b2, b1, b0]] by {
      assert [b3] + [b2, b1, b0] == [b3, b2, b1, b0];
    }
  }
}
