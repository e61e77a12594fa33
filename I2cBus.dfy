/** The I2C port the EEPROM driver talks through: register-addressed reads and
    writes, each appended to a trace; what a read returns comes from a finite
    script of response bytes consumed in order. */
module I2cBus {
  import opened Common

  /** One bus call: read_from(offset, count) or write_to(offset, data). */
  datatype I2cEvent =
    | ReadFrom(offset: int, count: int)
    | WriteTo(addr: int, data: seq<byte>)

  /** A recording I2C port. */
  class I2cPort {
    var trace: seq<I2cEvent>
    const miso: seq<byte>
    var pos: nat

    ghost predicate Valid()
      reads this
    {
      pos <= |miso|
    }

    /** A port whose device answers reads with the bytes of `miso`, in order. */
    constructor (miso: seq<byte>)
      ensures Valid() && trace == [] && this.miso == miso && pos == 0
    {
      trace := [];
      this.miso := miso;
      pos := 0;
    }

    /** Reads `count` bytes starting at register `offset` (none for a count
        that is not positive, fewer once the script is exhausted). */
    method ReadFrom(offset: int, count: int) returns (buf: seq<byte>)
      requires Valid()
      modifies this`trace, this`pos
      ensures Valid()
      ensures trace == old(trace) + [I2cEvent.ReadFrom(offset, count)]
      ensures buf == Take(miso, old(pos), Max(count, 0)) && pos == old(pos) + |buf|
    {
      trace := trace + [I2cEvent.ReadFrom(offset, count)];
      buf := Take(miso, pos, Max(count, 0));
      pos := pos + |buf|;
    }

    /** Writes `data` starting at register `addr`. */
    method WriteTo(addr: int, data: seq<byte>)
      requires Valid()
      modifies this`trace
      ensures Valid()
      ensures trace == old(trace) + [I2cEvent.WriteTo(addr, data)]
    {
      trace := trace + [I2cEvent.WriteTo(addr, data)];
    }
  }
}
