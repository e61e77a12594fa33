/** The SPI port the flash driver talks through. Every call is appended to a
    trace; what the device clocks back (JEDEC ID, status, data) comes from a
    finite script of response bytes consumed in order. */
module SpiBus {
  import opened Common

  /** One bus call. `start` asserts chip-select before the call, `stop`
      releases it after; exchange always does both. */
  datatype SpiEvent =
    | Write(data: seq<byte>, start: bool, stop: bool)
    | Exchange(cmd: seq<byte>, replyLen: nat)
    | Read(readLen: int, start: bool, stop: bool)

  /** A recording SPI port. */
  class SpiPort {
    var trace: seq<SpiEvent>
    const miso: seq<byte>
    var pos: nat

    ghost predicate Valid()
      reads this
    {
      pos <= |miso|
    }

    /** A port whose device answers with the bytes of `miso`, in order. */
    constructor (miso: seq<byte>)
      ensures Valid() && trace == [] && this.miso == miso && pos == 0
    {
      trace := [];
      this.miso := miso;
      pos := 0;
    }

    method Write(data: seq<byte>, start: bool, stop: bool)
      requires Valid()
      modifies this`trace
      ensures Valid()
      ensures trace == old(trace) + [SpiEvent.Write(data, start, stop)]
    {
      trace := trace + [SpiEvent.Write(data, start, stop)];
    }

    /** Sends `cmd`, then clocks in `readLen` response bytes (fewer once the
        script is exhausted). */
    method Exchange(cmd: seq<byte>, readLen: nat) returns (buf: seq<byte>)
      requires Valid()
      modifies this`trace, this`pos
      ensures Valid()
      ensures trace == old(trace) + [SpiEvent.Exchange(cmd, readLen)]
      ensures buf == Take(miso, old(pos), readLen) && pos == old(pos) + |buf|
    {
      trace := trace + [SpiEvent.Exchange(cmd, readLen)];
      buf := Take(miso, pos, readLen);
      pos := pos + |buf|;
    }

    /** Clocks in `readLen` bytes without sending a command (none for a
        length that is not positive). */
    method Read(readLen: int, start: bool, stop: bool) returns (buf: seq<byte>)
      requires Valid()
      modifies this`trace, this`pos
      ensures Valid()
      ensures trace == old(trace) + [SpiEvent.Read(readLen, start, stop)]
      ensures buf == Take(miso, old(pos), Max(readLen, 0)) && pos == old(pos) + |buf|
    {
      trace := trace + [SpiEvent.Read(readLen, start, stop)];
      buf := Take(miso, pos, Max(readLen, 0));
      pos := pos + |buf|;
    }
  }
}
