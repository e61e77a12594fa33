/** The data source and data sink a command streams through: a byte sequence
    read from a cursor (short reads near its end) and an append-only sink. */
module Streams {
  import opened Common

  /** An input stream over a fixed byte sequence; `pos` is the read cursor. */
  class Source {
    const data: seq<byte>
    var pos: nat

    ghost predicate Valid()
      reads this
    {
      pos <= |data|
    }

    constructor (data: seq<byte>)
      ensures Valid() && this.data == data && pos == 0
    {
      this.data := data;
      pos := 0;
    }

    /** read(n) of a buffered binary stream: the next (at most) n bytes, the
        cursor advanced past them; -1 reads to the end, and any size below -1
        is refused with a ValueError before anything is consumed. */
    method Read(n: int) returns (r: Result<seq<byte>>)
      requires Valid()
      modifies this`pos
      ensures Valid()
      ensures n < -1 ==> r == Err(InvalidReadSize(n)) && pos == old(pos)
      ensures n >= -1 ==> r == Ok(Take(data, old(pos), n)) && pos == old(pos) + |r.value|
    {
      if n < -1 {
        return Err(InvalidReadSize(n));
      }
      var buf := Take(data, pos, n);
      pos := pos + |buf|;
      r := Ok(buf);
    }
  }

  /** An output stream that keeps every buffer written to it, in order. */
  class Sink {
    var writes: seq<seq<byte>>

    constructor ()
      ensures writes == []
    {
      writes := [];
    }

    /** The bytes written so far. */
    function Contents(): seq<byte>
      reads this
    {
      Flatten(writes)
    }

    method Write(buf: seq<byte>)
      modifies this`writes
      ensures writes == old(writes) + [buf]
    {
      writes := writes + [buf];
    }
  }
}
