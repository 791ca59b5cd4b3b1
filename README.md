# MMKV log reader, modelled in Dafny

This project models the decoding core of a reader for MMKV key-value logs:

- the base-128 varint decoders of `frontend/public/mmkv_parser.py`, with their
  `ctypes` casts to 32 or 64 bits (module `Varint`);
- class `MMKVParser` of the same file:
  - opening a log (`__init__`);
  - its declared size (`get_db_size`);
  - the record scan that builds the key -> values map (`decode_into_map`),
    in modules `MmkvParser` and `LogScan`;
  - the typed value decoders `decode_as_bool`, `decode_as_int32`,
    `decode_as_int64`, `decode_as_uint32`, `decode_as_uint64`,
    `decode_as_string` and `decode_as_bytes` (module `ValueDecoders`);
- `decode_varint` of `src/pb_utilities/pb_reader.py`, the earlier varint reader
  that keeps the whole sum and threads a position (module `PbReader`);
- the `byteToHex` table and `hex` of `frontend/src/Util.mjs`, which turn a
  buffer into lower-case hex (module `HexUtil`).

A log is four little-endian bytes of declared size, one varint of unknown
purpose, then records `<varint key_len><key><varint value_len><value>`.
A zero `value_len` is a tombstone left by a removal. The model works as follows:

- Python's `BufferedIOBase`/`BytesIO` is the class `Streams.ByteStream`, a byte
  sequence and a read cursor; `read(n)` returns at most `n` bytes.
- The parser is the class `MmkvParser.MMKVParser`. It has the source's fields
  `mmkv_file`, `header_bytes`, `pos` and `decoded_map`.
- Its loop is proved equal to the pure scan `LogScan.Scan`. The scan lists the
  records in log order. `LogScan.Apply` folds them into the map: each write is
  put at the front of its key's list.
- Module `LogFormat` writes logs (`EncodeLog`) as an independent reference. It
  proves that the loop as written reads exactly the records of a log without
  removals that start below the declared size, and that the loop with the two
  defects below corrected reads every record back.

Some behaviour of the code worth knowing:

- The varint after the header is decoded with the 32-bit mask
  (`mmkv_parser.py:184`); its value is discarded.
- A declared size of 0 makes the loop read nothing (`mmkv_parser.py:222`,
  `LogScan.ScanEmpty`).
- A tombstone neither stops the scan nor clears the key's earlier values: a
  key written, removed and written again keeps all its writes, newest first
  (`LogScan.NewestFirst`).
- `decode_as_string` and `decode_as_bytes` return everything after the wrapper
  varint (`value[wrapper_bytes_len:]`, `mmkv_parser.py:353`, `:372`).

## Model

| member | source | states |
|---|---|---|
| Varint.Modulus | frontend/public/mmkv_parser.py:48-52 | the cast is to 64 bits exactly when the mask is 64, to 32 bits for any other mask |
| Varint.CUint32 | frontend/public/mmkv_parser.py:52 | `c_uint32(x).value` lies in [0, 2^32) and is congruent to x modulo 2^32 |
| Varint.CUint64 | frontend/public/mmkv_parser.py:50 | `c_uint64(x).value` lies in [0, 2^64) and is congruent to x modulo 2^64 |
| Varint.CInt32 | frontend/public/mmkv_parser.py:100 | `c_int32(x).value` lies in [-2^31, 2^31) and is congruent to x modulo 2^32 |
| Varint.CInt64 | frontend/public/mmkv_parser.py:98 | `c_int64(x).value` lies in [-2^63, 2^63) and is congruent to x modulo 2^64 |
| Varint.GroupsSnoc | frontend/public/mmkv_parser.py:45-46 | reading one more byte adds its low seven bits at the next shift of seven |
| Varint.GroupsBound | src/pb_utilities/pb_reader.py:12-13 | the bits gathered from k bytes stay below 2^(7k) |
| Varint.FirstClear | frontend/public/mmkv_parser.py:41-60 | the byte that ends a varint, if any, lies inside the input |
| Varint.FirstClearSpec | frontend/public/mmkv_parser.py:47 | the ending byte is the first byte below 0x80; when there is none, every byte has its high bit set |
| Varint.FirstClearAt | frontend/public/mmkv_parser.py:47 | a byte below 0x80 preceded only by bytes with the high bit set is where the varint ends |
| Varint.FirstClearPrefix | frontend/public/mmkv_parser.py:53 | bytes after a complete varint do not change where it ends |
| Varint.FirstClearNone | frontend/public/mmkv_parser.py:55-60 | input whose every byte has the high bit set holds no complete varint |
| Varint.Unsigned | frontend/public/mmkv_parser.py:17-62 | the result is (-1, -1) exactly when the input ends inside the varint; otherwise the count lies in 1..length and the value is below the mask's modulus |
| Varint.UnsignedValue | frontend/public/mmkv_parser.py:45-52 | a decoded value is the sum of the 7-bit groups read, reduced modulo 2^32 or 2^64 |
| Varint.Signed | frontend/public/mmkv_parser.py:65-110 | same byte count and failure as the unsigned decoder; a decoded value lies in the signed range of the mask's width |
| Varint.SignedValue | frontend/public/mmkv_parser.py:93-100 | the signed value is congruent to the unsigned one modulo the width |
| Varint.UnsignedIgnoresTrailing | frontend/public/mmkv_parser.py:53 | both decoders stop at the ending byte: bytes after it change neither value nor count |
| Varint.DecodedAt | frontend/public/mmkv_parser.py:41-53 | a varint ending at byte k reads k bytes, and its value is the cast of the groups of those k bytes |
| Varint.NotDecoded | frontend/public/mmkv_parser.py:55-60 | when no byte ends the varint, both decoders return (-1, -1) |
| Varint.DecodeUnsignedVarint | frontend/public/mmkv_parser.py:17-62 | the loop returns what Unsigned gives on the unread bytes; the stream moves past the bytes read, or to the end on failure |
| Varint.DecodeSignedVarint | frontend/public/mmkv_parser.py:65-110 | the loop returns what Signed gives on the unread bytes; the stream moves past the bytes read, or to the end on failure |
| Varint.EncodeVarintDecodes | frontend/public/mmkv_parser.py:41-53 | the base-128 encoding of n ends at its last byte and its groups add up to n |
| Varint.UnsignedRoundTrip | frontend/public/mmkv_parser.py:17-62 | every n below the mask's modulus decodes from its encoding to (n, encoding length) |
| Varint.SignedRoundTrip | frontend/public/mmkv_parser.py:65-110 | every v in the signed range decodes from the encoding of its 64-bit two's complement back to v |
| Varint.ComplementCast | frontend/public/mmkv_parser.py:96-100 | casting the 64-bit two's complement of a v in range gives v back |
| Varint.PositiveInt32Vector | tests/test_mmkv_parser.py:15-19 | ff ff ff ff 07 decodes to 2147483647 in 5 bytes |
| Varint.NegativeInt32Vector | tests/test_mmkv_parser.py:21-25 | the 10-byte varint 80 80 80 80 f8 ff ff ff ff 01 decodes, signed with 32 bits, to -2147483648 |
| Varint.NegativeInt32Groups | tests/test_mmkv_parser.py:23 | the ten bytes of that varint gather to 2^64 - 2^31 before the cast |
| Varint.MinInt32Cast | frontend/public/mmkv_parser.py:100 | `c_int32(2^64 - 2^31)` is -2147483648 |
| Varint.PositiveInt64Vector | tests/test_mmkv_parser.py:27-31 | ff ... ff 7f decodes with the 64-bit mask to 2^63 - 1 in 9 bytes |
| Varint.NegativeInt64Vector | tests/test_mmkv_parser.py:33-37 | 80 ... 80 01 decodes, signed with 64 bits, to -2^63 in 10 bytes |
| Streams.Chunk | frontend/public/mmkv_parser.py:239 | `read(n)` returns at most n bytes, and fewer only when the stream ends |
| Streams.ByteStream.constructor | frontend/public/mmkv_parser.py:301 | `BytesIO(value)` holds the value with the read position at 0 |
| Streams.ByteStream.Read | frontend/public/mmkv_parser.py:266 | `read(n)` returns the next chunk and moves the position past it |
| Utf8.Decode | frontend/public/mmkv_parser.py:240 | a successful strict UTF-8 decode yields no more characters than bytes |
| Utf8.DecodeChar | frontend/public/mmkv_parser.py:240 | decoding from a leading byte yields no more characters than bytes |
| Utf8.DecodeAscii | frontend/public/mmkv_parser.py:240 | bytes below 0x80 always decode, one character per byte, with the byte's code |
| HexUtil.HexDigit | frontend/src/Util.mjs:5 | a digit below 16 is written as a lower-case hex character |
| HexUtil.DigitValue | frontend/public/mmkv_parser.py:141 | a character read as a hex digit has a value below 16 |
| HexUtil.DigitValueOfHexDigit | frontend/src/Util.mjs:5 | reading a written digit gives the digit back |
| HexUtil.ToString16 | frontend/src/Util.mjs:5 | `n.toString(16)` is lower-case hex without a leading zero, one character exactly when n < 16 |
| HexUtil.ToString16Value | frontend/src/Util.mjs:5 | the digits of `n.toString(16)` denote n |
| HexUtil.PadStart | frontend/src/Util.mjs:5 | `padStart(len, fill)` fills on the left up to len characters and keeps the string as its suffix |
| HexUtil.OctetDigits | frontend/src/Util.mjs:5 | `n.toString(16).padStart(2, "0")` is the high digit followed by the low digit |
| HexUtil.ByteToHexEntry | frontend/src/Util.mjs:5 | each table entry is the two-digit octet of its index |
| HexUtil.BuildByteToHex | frontend/src/Util.mjs:2-7 | the loop builds the 256 entries, entry n being the octet of n |
| HexUtil.HexString | frontend/src/Util.mjs:10-18 | a buffer's hex is twice as long as the buffer |
| HexUtil.HexStringSnoc | frontend/src/Util.mjs:14-15 | appending a byte appends its octet |
| HexUtil.Hex | frontend/src/Util.mjs:10-18 | `hex` joins the table entries of the buffer's bytes: the hex string of the buffer |
| HexUtil.HexPlacement | frontend/src/Util.mjs:14-15 | characters 2i and 2i+1 are the high and low digit of byte i |
| HexUtil.HexAlphabet | frontend/src/Util.mjs:10-18 | every character of the output is a lower-case hex digit |
| HexUtil.FromHex | frontend/public/mmkv_parser.py:141 | parsing hex yields half as many bytes as characters |
| HexUtil.HexRoundTrip | frontend/src/Util.mjs:10-18 | parsing the hex of a buffer gives the buffer back |
| HexUtil.HexInjective | frontend/src/Util.mjs:10-18 | two buffers with the same hex are equal |
| HexUtil.HexVector | frontend/src/Util.mjs:10-18 | bytes 0b 00 ff are written "0b00ff" |
| ValueDecoders.DecodeAsBool | frontend/public/mmkv_parser.py:284-290 | true exactly for the blob 01, false exactly for 00, None for every other blob |
| ValueDecoders.BoolRoundTrip | frontend/public/mmkv_parser.py:284-287 | the stored byte of a boolean decodes back to it |
| ValueDecoders.DecodeAsInt32 | frontend/public/mmkv_parser.py:292-301 | in the signed 32-bit range, congruent to the groups of the leading varint; -1 when it is incomplete |
| ValueDecoders.DecodeAsInt64 | frontend/public/mmkv_parser.py:303-312 | in the signed 64-bit range, congruent to the groups of the leading varint; -1 when it is incomplete |
| ValueDecoders.DecodeAsUint32 | frontend/public/mmkv_parser.py:314-323 | in [0, 2^32), congruent to the groups of the leading varint; -1 when it is incomplete |
| ValueDecoders.DecodeAsUint64 | frontend/public/mmkv_parser.py:325-334 | in [0, 2^64), congruent to the groups of the leading varint; -1 when it is incomplete |
| ValueDecoders.Int32RoundTrip | frontend/public/mmkv_parser.py:292-301 | every signed 32-bit value decodes back from its stored varint, whatever follows |
| ValueDecoders.Int64RoundTrip | frontend/public/mmkv_parser.py:303-312 | every signed 64-bit value decodes back from its stored varint, whatever follows |
| ValueDecoders.Uint32RoundTrip | frontend/public/mmkv_parser.py:314-323 | every unsigned 32-bit value decodes back from its varint, whatever follows |
| ValueDecoders.Uint64RoundTrip | frontend/public/mmkv_parser.py:325-334 | every unsigned 64-bit value decodes back from its varint, whatever follows |
| ValueDecoders.SliceFrom | frontend/public/mmkv_parser.py:353 | Python's `value[n:]` is a suffix: all but the first n bytes, or the last -n bytes for a negative n |
| ValueDecoders.DecodeAsString | frontend/public/mmkv_parser.py:336-357 | after a complete wrapper varint, None unless bytes follow it, else the UTF-8 decode of everything after it; after an incomplete wrapper, the decode of the last byte |
| ValueDecoders.DecodeAsBytes | frontend/public/mmkv_parser.py:359-373 | everything after a complete wrapper varint; the last byte when the wrapper is incomplete |
| ValueDecoders.DecodeAsStringChecked | frontend/public/mmkv_parser.py:350-354 | None for an incomplete wrapper; otherwise the UTF-8 decode of the payload, empty payload included |
| ValueDecoders.DecodeAsBytesChecked | frontend/public/mmkv_parser.py:371-373 | None exactly for an incomplete wrapper; otherwise the bytes after the wrapper |
| ValueDecoders.WrapSplits | frontend/public/mmkv_parser.py:347-348 | a stored payload is its length varint followed by the payload |
| ValueDecoders.StringRoundTrip | frontend/public/mmkv_parser.py:347-357 | a wrapped payload decodes as the UTF-8 decode of the payload |
| ValueDecoders.BytesRoundTrip | frontend/public/mmkv_parser.py:370-373 | a wrapped payload decodes back to the payload |
| ValueDecoders.StringAgreesOnNonEmptyPayload | frontend/public/mmkv_parser.py:351-354 | the source and the corrected string decoder agree when bytes follow a complete wrapper |
| ValueDecoders.BytesAgreeOnCompleteWrapper | frontend/public/mmkv_parser.py:371-373 | the source and the corrected bytes decoder agree on every complete wrapper |
| ValueDecoders.EmptyStringRefused | frontend/public/mmkv_parser.py:351 | the stored empty string 00 gives None as written and "" when corrected |
| ValueDecoders.UnterminatedWrapperKeepsLastByte | frontend/public/mmkv_parser.py:371-372 | 80 81 gives the byte 81 as written and None when corrected |
| ValueDecoders.StoredStringVector | frontend/public/mmkv_parser.py:347-354 | 0a 73 74 65 76 65 6e 20 70 61 6b decodes to "steven pak" |
| PbReader.ReadVarint | src/pb_utilities/pb_reader.py:5-17 | reads up to and including the first byte below 0x80, or every byte plus one empty read, which counts as a position; the value is the whole sum of the 7-bit groups of the bytes read, with no cast |
| PbReader.ReadVarintContinues | src/pb_utilities/pb_reader.py:14-15 | every byte before the last read has its high bit set |
| PbReader.ReadVarintBound | src/pb_utilities/pb_reader.py:12-13 | the value stays below 2^(7 x reads) |
| PbReader.EmptyStream | src/pb_utilities/pb_reader.py:10-11 | an empty stream gives 0 after one position |
| PbReader.SingleByte | src/pb_utilities/pb_reader.py:10-15 | a byte below 0x80 is the whole varint, whatever follows it |
| PbReader.ReadVarintRoundTrip | src/pb_utilities/pb_reader.py:5-17 | the encoding of any n reads back as n over its own length |
| PbReader.AgreesWithMaskedDecoder | src/pb_utilities/pb_reader.py:5-17 | on a complete varint, `decode_unsigned_varint` gives this reader's value cut to the mask's width and the same count |
| PbReader.DecodeVarint | src/pb_utilities/pb_reader.py:5-17 | the loop returns ReadVarint's value, advances `pos` by its read count and moves the stream over the bytes present |
| LogScan.Pass | frontend/public/mmkv_parser.py:225-267 | a pass never moves the stream backwards; one that reads a record moves both the stream and `pos` forward |
| LogScan.KeyLengthPass | frontend/public/mmkv_parser.py:225-235 | the key-length phase keeps the same progress guarantee |
| LogScan.KeyPass | frontend/public/mmkv_parser.py:237-245 | the key phase keeps the same progress guarantee |
| LogScan.ValuePass | frontend/public/mmkv_parser.py:248-267 | the value phase keeps the same progress guarantee, and its record has the decoded key |
| LogScan.Scan | frontend/public/mmkv_parser.py:222-270 | the scan leaves the stream inside the data, never behind where it started |
| LogScan.ScanAdvances | frontend/public/mmkv_parser.py:222-270 | below the size, a pass that reads a record puts it in front of the rest of the scan |
| LogScan.StopConditions | frontend/public/mmkv_parser.py:225-254 | a pass stops exactly when the key length is incomplete or zero, the key is not UTF-8, or the value length is incomplete |
| LogScan.RecordAdvancesPos | frontend/public/mmkv_parser.py:225-267 | a record raises `pos` by at least three, so the loop ends |
| LogScan.ScanEmpty | frontend/public/mmkv_parser.py:222 | no record is read exactly when `pos` is already at the size (a size of 0 included) or the first pass stops |
| LogScan.TruncatedValueCounted | frontend/public/mmkv_parser.py:266-267 | a value cut short by the end of the data is kept, and `pos` still counts its declared length |
| LogScan.TwiceAgreesOnWrites | frontend/public/mmkv_parser.py:260-267 | counting a tombstone's varint twice changes nothing for a pass that reads a write |
| LogScan.ApplySnoc | frontend/public/mmkv_parser.py:270 | one more record updates the map by one insert |
| LogScan.Reverse | frontend/public/mmkv_parser.py:270 | the reversal puts element i at position length-1-i |
| LogScan.NewestFirst | frontend/public/mmkv_parser.py:270 | a key's list is its writes newest first, then what it held before; tombstones neither add nor clear |
| LogScan.KeysOfApply | frontend/public/mmkv_parser.py:270 | a key is in the map exactly when it was there already or some record writes it |
| LogScan.NoPutsFor | frontend/public/mmkv_parser.py:260-263 | a key with only tombstones has no writes |
| LogScan.TombstonesOnlyKeyAbsent | frontend/public/mmkv_parser.py:260-263 | a key that only ever appears in tombstones is not in the map |
| LogScan.ApplyKeepsListsNonEmpty | frontend/public/mmkv_parser.py:270 | every list in the map holds at least one value |
| LogScan.IntUpdatesNewestFirst | tests/test_mmkv_parser.py:98-106 | four writes of `int_key` give [e8 07, 64, 0a, 01] |
| MmkvParser.LittleEndian32 | frontend/public/mmkv_parser.py:202 | the four little-endian bytes of a 32-bit number |
| MmkvParser.UnpackUInt32 | frontend/public/mmkv_parser.py:202 | `struct.unpack('<I')` gives the number whose little-endian bytes are the input |
| MmkvParser.UnpackPacked | frontend/public/mmkv_parser.py:202 | packing and unpacking a 32-bit number gives it back |
| MmkvParser.FixtureSizes | tests/test_mmkv_parser.py:61-69 | the test logs' header bytes 0b and 10 declare the sizes 11 and 16 |
| MmkvParser.Init | frontend/public/mmkv_parser.py:176-188 | fails exactly when the log has fewer than four bytes (header error) or ends inside the following varint (varint error); otherwise keeps the first four bytes and sets `pos` just past the varint |
| MmkvParser.MMKVParser.Create | frontend/public/mmkv_parser.py:170-174 | a parser over the stream with the header, the given `pos` and an empty map |
| MmkvParser.MMKVParser.Open | frontend/public/mmkv_parser.py:170-188 | opening fails with the error Init gives; otherwise the new parser holds Init's header and `pos`, an empty map, and the stream has moved by `pos` |
| MmkvParser.MMKVParser.GetDbSize | frontend/public/mmkv_parser.py:191-205 | the size is the unsigned 32-bit number whose little-endian bytes are the header |
| MmkvParser.MMKVParser.DecodeIntoMap | frontend/public/mmkv_parser.py:210-272 | the stream and `pos` end where Scan ends, and the map is the old map updated with Scan's records, each write at the front of its key's list |
| MmkvParser.MMKVParser.ReadRecord | frontend/public/mmkv_parser.py:225-235 | one pass of the loop body is Pass from the key-length phase |
| MmkvParser.MMKVParser.ReadKey | frontend/public/mmkv_parser.py:237-245 | the rest of the pass from the key is Pass from the key phase |
| MmkvParser.MMKVParser.ReadValue | frontend/public/mmkv_parser.py:248-267 | the rest of the pass from the value length is Pass from the value phase |
| LogFormat.EncodeEntry | frontend/public/mmkv_parser.py:225-267 | an encoded record is at least two bytes longer than its key and value |
| LogFormat.EncodeEntries | frontend/public/mmkv_parser.py:222 | records encode to nothing exactly when there are none |
| LogFormat.RecordsOf | frontend/public/mmkv_parser.py:270 | one scanned record per entry |
| LogFormat.EncodedVarintAt | frontend/public/mmkv_parser.py:225 | an encoded length at a position decodes to itself over its own length |
| LogFormat.KeyLengthThenKey | frontend/public/mmkv_parser.py:225-235 | a non-zero key length hands the pass on to the key |
| LogFormat.KeyThenValue | frontend/public/mmkv_parser.py:237-245 | a UTF-8 key hands the pass on to the value |
| LogFormat.ValueRead | frontend/public/mmkv_parser.py:248-267 | a zero value length is a removal, its varint counted twice when the source's counting is on; any other length is a write of the bytes that follow |
| LogFormat.KeyAndValue | frontend/public/mmkv_parser.py:237-267 | a key, value length and value read as one record, with both positions just past the value |
| LogFormat.ReadsParts | frontend/public/mmkv_parser.py:225-267 | a whole record read in one pass, with both positions just past it |
| LogFormat.ReadsEncodedEntry | frontend/public/mmkv_parser.py:225-267 | every well-formed encoded record is read whole by one pass |
| LogFormat.ReadsFirst | frontend/public/mmkv_parser.py:225-267 | the first record of a run is read whole, and the rest of the run follows |
| LogFormat.EncodedReadsInTurn | frontend/public/mmkv_parser.py:222-267 | each pass over a well-formed run reads its next entry |
| LogFormat.ScanReadsInTurn | frontend/public/mmkv_parser.py:222-270 | the corrected scan over such a run returns its records in order and ends at its end |
| LogFormat.ScanEncoded | frontend/public/mmkv_parser.py:222-270 | the corrected scan reads every well-formed run of records back in order |
| LogFormat.OpensEncodedLog | frontend/public/mmkv_parser.py:176-188 | opening a written log keeps its size bytes, which hold the body's length, and skips the unknown varint |
| LogFormat.RecordsStart | frontend/public/mmkv_parser.py:184-188 | the records start after the size bytes and the varint and run to the end of the body |
| LogFormat.LogLayout | frontend/public/mmkv_parser.py:176-202 | the records run from where opening leaves `pos` to four bytes past the declared size |
| LogFormat.LogRoundTrip | frontend/public/mmkv_parser.py:222 | a written log opens, and the corrected scan returns every record written, in order |
| LogFormat.ReadsRecords | frontend/public/mmkv_parser.py:222 | records ending four bytes past the declared size are all read back by the corrected scan |
| LogFormat.ReadBelow | frontend/public/mmkv_parser.py:222 | the records of a run that start below the limit are a prefix of its records, and not empty when the first starts below it |
| LogFormat.WrittenScan | frontend/public/mmkv_parser.py:222-270 | the scan as written, over a run of writes bounded within the run, returns exactly the records that start below the limit |
| LogFormat.AsWrittenReadsBelowSize | frontend/public/mmkv_parser.py:176-270 | on a written log without removals, opening it and the loop as written return exactly the records that start below the declared size |
| LogFormat.Int32KeypairEncoded | tests/test_mmkv_parser.py:61-64 | the first 15 bytes of the int32 test log, matching the test's size 11, are the log written with the varint ff ff ff 07 and one write of dc 22 to "key" |
| LogFormat.Int32KeypairLog | tests/test_mmkv_parser.py:73-78 | on any log that begins with those bytes, whatever page padding follows, opening leaves `pos` at 8 and the loop as written reads exactly the one record "key" written with dc 22 |
| LogFormat.Int32KeypairMap | tests/test_mmkv_parser.py:77-78 | that record gives the map {"key": [dc 22]} the test expects |
| LogFormat.LastRecordDropped | frontend/public/mmkv_parser.py:222 | the log 05 00 00 00 02 01 61 01 01 reads as holding no record, though the corrected loop reads its write of "a" |
| LogFormat.TombstoneCountedOnce | frontend/public/mmkv_parser.py:260-263 | counting the tombstone's varint once, `pos` moves exactly as far as the stream |
| LogFormat.TombstoneAt5 | frontend/public/mmkv_parser.py:256-263 | the removal in the tombstone example leaves the stream at 8 and `pos` at 9 as written, at 8 when corrected |
| LogFormat.WriteAt8 | frontend/public/mmkv_parser.py:265-267 | the write after it is read whole, ending at 13 |
| LogFormat.TwiceStopsAfterRemoval | frontend/public/mmkv_parser.py:262 | as written, the scan of that log stops after the removal |
| LogFormat.OnceReadsBoth | frontend/public/mmkv_parser.py:249 | counting the varint once, the scan reads the removal and then the write |
| LogFormat.TombstoneHidesNextRecord | frontend/public/mmkv_parser.py:249-263 | in a log that removes "a" and then writes it, the source's loop misses the write and the corrected one reads it |

## Left out

- Hex-string inputs are not modelled: the `str` branch of `__init__` (`bytes.fromhex`, `frontend/public/mmkv_parser.py:135-167`) and the `fromhex` call at the top of each `decode_as_*`. Every operation takes bytes; `HexUtil.FromHex` stands for `fromhex` only in the round-trip lemma.
- The `TypeError` raised for inputs of other types is not modelled. It depends on Python's dynamic types (`mmkv_parser.py:149`, `:207`).
- The CRC file (`crc_file_data`) is not modelled. It is stored and never read.
- `decode_as_float` is not modelled: IEEE-754 doubles are out of scope.
- Diagnostic `print` calls are not modelled; they are output only.
- The stream-cipher reconstruction of encrypted logs (`tests/decrypt.py`) is not part of this model.
- `src/mmkv_parser.py` is not part of this model. It is an older copy of the parser.
- The scripts `src/parse.py`, `src/parse.js` and `frontend/public/parse.js` are not part of this model.
- `main.py`, `pyodide_requirements.py`, the fixture generators and `data/test_mmkv_parser.py` are not part of this model.
- Python's UTF-8 codec is written out as a strict decoder (`Utf8.Decode`). It rejects overlong forms, surrogates and code points above U+10FFFF. The exception path of `key_bytes.decode` is its `None`.
- The stream is an in-memory byte sequence. Read errors of a real file are not modelled.
- `decoded_map` is a Dafny `map`. The `defaultdict(list)` default is `LogScan.Lookup`, which returns the empty list for a missing key.
- In `Util.mjs`, `new Uint8Array(arrayBuffer)` becomes a byte sequence parameter. The module-level `byteToHex` array is passed to `HexUtil.Hex` and required to be the table `BuildByteToHex` builds.
- LogScan.Pass: its own contract states only progress. What each phase reads is stated by `LogScan.StopConditions`, `LogFormat.ValueRead` and `LogFormat.ReadsParts`, and the `MMKVParser` read methods are proved equal to it.
- Varint.Unsigned: its own contract states the failure case and the bounds. The value is stated by `Varint.UnsignedValue` and `Varint.DecodedAt`.
- Utf8.Decode: its contract states only a length bound. What it accepts is its strict definition, and `Utf8.DecodeAscii` states the ASCII case.

## Findings

| source | as written | input that shows it | evidently intended | confidence | as-written member | corrected member |
|---|---|---|---|---|---|---|
| frontend/public/mmkv_parser.py:222 | `while self.pos < db_size`: `pos` counts from the start of the file, the four size bytes included, while the declared size counts only the body after them | log 05 00 00 00 02 01 61 01 01 (size 5, one record writing 01 to "a"): `pos` starts at 5, so no record is read | loop while `pos` is below 4 plus the declared size, so every record inside the declared body is read | medium, not executed | LogFormat.LastRecordDropped | LogFormat.LogRoundTrip |
| frontend/public/mmkv_parser.py:262 | a tombstone adds the value-length varint's byte count to `pos` a second time (already added at line 249), so `pos` runs ahead of the stream | log 09 00 00 00 02 01 61 00 01 61 02 01 02 (remove "a", then write 01 02 to "a"): `pos` reaches 9 after the removal and the write is never read | count the varint once, so that `pos` moves exactly as far as the stream | medium, not executed | LogFormat.TwiceStopsAfterRemoval | LogFormat.OnceReadsBoth |
| frontend/public/mmkv_parser.py:351 | `wrapper_bytes_len >= len(value)` refuses a blob that is nothing but its wrapper | blob 00, the stored empty string: None instead of "" | refuse only a blob shorter than its wrapper | high, not executed | ValueDecoders.EmptyStringRefused | ValueDecoders.StringRoundTrip |
| frontend/public/mmkv_parser.py:371-372 | the failure marker -1 of an incomplete wrapper is used as a slice start, so `value[-1:]` keeps the last byte | blob 80 81: returns 81 | report an incomplete wrapper as a failure | high, not executed | ValueDecoders.UnterminatedWrapperKeepsLastByte | ValueDecoders.BytesRoundTrip |
