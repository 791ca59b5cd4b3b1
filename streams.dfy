/**
 * A readable byte stream: the file-like objects (an open file, an in-memory
 * BytesIO) that the parser reads from. The bytes never change; only the
 * read position moves forward.
 */
module Streams {
  import opened Bytes

  /** The bytes `read(n)` returns at position `cursor` of `data`. */
  function Chunk(data: seq<byte>, cursor: nat, n: nat): (chunk: seq<byte>)
    requires cursor <= |data|
    ensures |chunk| <= n && cursor + |chunk| <= |data|
    ensures |chunk| == n || cursor + |chunk| == |data|
  {
    data[cursor..Min(cursor + n, |data|)]
  }

  class ByteStream {
    /** Everything the stream holds, from its first byte. */
    const data: seq<byte>
    /** The position of the next byte `Read` returns. */
    var cursor: nat

    ghost predicate Valid()
      reads this
    {
      cursor <= |data|
    }

    /** The bytes not yet read. */
    function Remaining(): (rest: seq<byte>)
      reads this
      requires Valid()
      ensures |rest| == |data| - cursor
    {
      data[cursor..]
    }

    /** A stream positioned at the first of `bytes`, as `BytesIO(bytes)`. */
    constructor (bytes: seq<byte>)
      ensures Valid()
      ensures data == bytes && cursor == 0
    {
      data := bytes;
      cursor := 0;
    }

    /**
     * `read(n)`: up to `n` bytes; fewer when the stream ends first, and none
     * at all once it is exhausted.
     */
    method Read(n: nat) returns (chunk: seq<byte>)
      requires Valid()
      modifies this
      ensures Valid()
      ensures chunk == Chunk(data, old(cursor), n)
      ensures cursor == old(cursor) + |chunk|
    {
      var end := Min(cursor + n, |data|);
      chunk := data[cursor..end];
      cursor := end;
    }
  }
}
