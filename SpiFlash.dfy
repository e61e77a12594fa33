/** The SPI NOR flash driver of dangerspi.py: model table, address encoding,
    the reset / identify / 4-byte-mode construction sequence, status polling,
    chunked reads, page-program decomposition and sector erase. */
module SpiFlashDriver {
  import opened Common
  import opened Streams
  import opened Paging
  import opened SpiBus

  // ---------------------------------------------------------------------------
  // Geometry and the model table
  // ---------------------------------------------------------------------------

  /** n << 10: ten zero bits shifted in below n. */
  function KB(n: int): (r: int)
    ensures r % 0x400 == 0 && r / 0x400 == n
  {
    ModUnique(n * 0x400, 0x400, n, 0);
    n * 0x400
  }

  /** n << 20: twenty zero bits shifted in below n. */
  function MB(n: int): (r: int)
    ensures r % 0x10_0000 == 0 && r / 0x10_0000 == n
  {
    ModUnique(n * 0x10_0000, 0x10_0000, n, 0);
    n * 0x10_0000
  }

  /** A flash part: its name, total size and erase-sector size in bytes. */
  datatype FlashModel = FlashModel(name: string, size: int, sect: Positive)

  /** The supported parts, keyed by JEDEC ID. */
  const MODELS: map<int, FlashModel> := map[0xc2201b := FlashModel("mx66l1g45g", 0x800_0000, 0x1_0000)]

  /** Parts larger than 16 MB are driven in 4-byte addressing mode. */
  predicate FourByteAddressing(m: FlashModel)
  {
    m.size > MB(16)
  }

  /** The one supported part, a 128 MB chip with 64 KB sectors, is recognised
      by ID 0xc2201b and needs 4-byte addressing. */
  lemma MacronixModel()
    ensures 0xc2201b in MODELS
    ensures MODELS[0xc2201b] == FlashModel("mx66l1g45g", MB(128), KB(64))
    ensures FourByteAddressing(MODELS[0xc2201b])
  {
  }

  // ---------------------------------------------------------------------------
  // Opcodes, read chunk and page size
  // ---------------------------------------------------------------------------

  const ResetEnable: byte := 0x66
  const ResetDevice: byte := 0x99
  const ReadId: byte := 0x9f
  const ReadStatus: byte := 0x05
  const WriteEnable: byte := 0x06
  const PageProgram: byte := 0x02
  const ReadData: byte := 0x03
  const SectorErase: byte := 0xd8
  const Enter4ByteMode: byte := 0xb7

  /** The largest single read of a read transaction. */
  const ReadChunk := 4096

  /** The program page size. */
  const PageSize := 0x100

  // ---------------------------------------------------------------------------
  // Address encoding
  // ---------------------------------------------------------------------------

  /** The address field of a command: bytes (offset >> 24), (offset >> 16),
      (offset >> 8), offset, each masked to 0..255, the first only in 4-byte
      mode. */
  function Addr(m: FlashModel, offset: int): (r: seq<byte>)
    ensures |r| == if FourByteAddressing(m) then 4 else 3
  {
    var low := [offset / 0x1_0000 % 0x100, offset / 0x100 % 0x100, offset % 0x100];
    if FourByteAddressing(m) then [offset / 0x100_0000 % 0x100] + low else low
  }

  /** Decoded most-significant byte first, the address field is the offset
      modulo 2^32 (4-byte mode) or 2^24 (3-byte mode). */
  lemma AddrDecodes(m: FlashModel, offset: int)
    ensures BigEndian(Addr(m, offset)) == offset % Pow256(|Addr(m, offset)|)
  {
    AddrLowDecodes(offset);
    if FourByteAddressing(m) {
      AddrHighDecodes(offset);
    }
  }

  lemma BigEndianSnoc(s: seq<byte>, b: byte)
    ensures BigEndian(s + [b]) == BigEndian(s) * 256 + b
  {
    assert (s + [b])[..|s + [b]| - 1] == s;
  }

  lemma AddrLowDecodes(x: int)
    ensures BigEndian([x / 0x1_0000 % 0x100, x / 0x100 % 0x100, x % 0x100]) == x % 0x100_0000
    ensures Pow256(3) == 0x100_0000
  {
    var b0, b1, b2: byte := x / 0x1_0000 % 0x100, x / 0x100 % 0x100, x % 0x100;
    BigEndianSnoc([], b0);
    assert [] + [b0] == [b0];
    BigEndianSnoc([b0], b1);
    assert [b0] + [b1] == [b0, b1];
    BigEndianSnoc([b0, b1], b2);
    assert [b0, b1] + [b2] == [b0, b1, b2];
    ModSplit(x, 0x100);
    ModSplit(x, 0x1_0000);
    assert x / 1 == x;
  }

  lemma AddrHighDecodes(x: int)
    ensures BigEndian([x / 0x100_0000 % 0x100] + [x / 0x1_0000 % 0x100, x / 0x100 % 0x100, x % 0x100]) == x % 0x1_0000_0000
    ensures Pow256(4) == 0x1_0000_0000
  {
    var b3: byte := x / 0x100_0000 % 0x100;
    var low := [x / 0x1_0000 % 0x100, x / 0x100 % 0x100, x % 0x100];
    AddrLowDecodes(x);
    Pow256Values();
    BigEndianPrepend(b3, low);
    ModSplit(x, 0x100_0000);
  }

  /** Every offset inside a part of at most 4 GB is sent unchanged: decoding
      its address field gives the offset back. */
  lemma {:induction false} AddrRoundTrip(m: FlashModel, offset: int)
    requires 0 <= offset < m.size <= 0x1_0000_0000
    ensures BigEndian(Addr(m, offset)) == offset
  {
    var r := Addr(m, offset);
    AddrDecodes(m, offset);
    Pow256Values();
    if FourByteAddressing(m) {
      ModUnique(offset, Pow256(|r|), 0, offset);
    } else {
      assert offset < MB(16) == 0x100_0000;
      ModUnique(offset, Pow256(|r|), 0, offset);
    }
  }

  // ---------------------------------------------------------------------------
  // Identification
  // ---------------------------------------------------------------------------

  /** (b0 << 16) | (b1 << 8) | b2: the three bytes occupy disjoint bits, so the
      ID is a 24-bit number whose bytes, most significant first, are b0, b1, b2. */
  function JedecValue(b0: byte, b1: byte, b2: byte): (id: int)
    ensures 0 <= id < 0x100_0000
    ensures id / 0x1_0000 == b0 && id / 0x100 % 0x100 == b1 && id % 0x100 == b2
  {
    var id := b0 * 0x1_0000 + b1 * 0x100 + b2;
    ModUnique(id, 0x100, b0 * 0x100 + b1, b2);
    ModUnique(id, 0x1_0000, b0, b1 * 0x100 + b2);
    ModUnique(id / 0x100, 0x100, b0, b1);
    id
  }

  /** The model a JEDEC ID selects, or the construction error. */
  function Identify(id: int): Result<FlashModel>
  {
    if id in MODELS then Ok(MODELS[id]) else Err(UnsupportedJedecId(id))
  }

  /** What construction concludes from the device's answers at cursor `p`:
      the model its ID selects, or why there is none. */
  function IdentifyFrom(miso: seq<byte>, p: nat): (r: Result<FlashModel>)
    requires p <= |miso|
    ensures r.Ok? <==> |miso| - p >= 3 && JedecValue(miso[p], miso[p + 1], miso[p + 2]) in MODELS
    ensures r.Ok? ==> r.value == MODELS[JedecValue(miso[p], miso[p + 1], miso[p + 2])]
    ensures r.Err? ==> r.error == (if |miso| - p < 3 then ShortResponse
                                   else UnsupportedJedecId(JedecValue(miso[p], miso[p + 1], miso[p + 2])))
  {
    if |miso| - p < 3 then Err(ShortResponse)
    else Identify(JedecValue(miso[p], miso[p + 1], miso[p + 2]))
  }

  /** ID 0xc2201b, answered big-endian, selects the 128 MB part. */
  lemma IdentifyMacronix(miso: seq<byte>, p: nat)
    requires p + 3 <= |miso| && miso[p] == 0xc2 && miso[p + 1] == 0x20 && miso[p + 2] == 0x1b
    ensures IdentifyFrom(miso, p) == Ok(FlashModel("mx66l1g45g", MB(128), KB(64)))
  {
    MacronixModel();
  }

  // ---------------------------------------------------------------------------
  // Status polling
  // ---------------------------------------------------------------------------

  /** status & 1 == 1: bit 0 of the status register is write-in-progress. */
  predicate WriteInProgress(status: byte)
  {
    status % 2 == 1
  }

  /** The status query wait_write repeats. */
  const StatusQuery: SpiEvent := SpiEvent.Exchange([ReadStatus], 1)

  function StatusPolls(k: nat): (r: seq<SpiEvent>)
    ensures |r| == k && forall i :: 0 <= i < k ==> r[i] == StatusQuery
  {
    seq(k, _ => StatusQuery)
  }

  lemma StatusPollsSnoc(k: nat)
    ensures StatusPolls(k) + [StatusQuery] == StatusPolls(k + 1)
  {
  }

  /** The position of the first status answer at or after `p` with the
      write-in-progress bit clear, if the device ever gives one. */
  function FirstClear(miso: seq<byte>, p: nat): (r: Option<nat>)
    requires p <= |miso|
    ensures r.Some? ==> p <= r.value < |miso| && !WriteInProgress(miso[r.value])
                        && forall i :: p <= i < r.value ==> WriteInProgress(miso[i])
    ensures r.None? ==> forall i :: p <= i < |miso| ==> WriteInProgress(miso[i])
    decreases |miso| - p
  {
    if p == |miso| then None
    else if !WriteInProgress(miso[p]) then Some(p)
    else FirstClear(miso, p + 1)
  }

  /** The bus calls one step of a command adds, where the response script
      stands afterwards, and whether it completed. */
  datatype Run = Run(events: seq<SpiEvent>, misoPos: nat, result: Result<()>)

  /** wait_write from cursor p: status queries until one answers with bit 0
      clear; a status query answered by no byte fails (buf[0] is out of range). */
  function PollRun(miso: seq<byte>, p: nat): (r: Run)
    requires p <= |miso|
    ensures p <= r.misoPos <= |miso|
  {
    match FirstClear(miso, p)
    case Some(i) => Run(StatusPolls(i + 1 - p), i + 1, Ok(()))
    case None => Run(StatusPolls(|miso| - p + 1), |miso|, Err(ShortResponse))
  }

  /** wait_write returns normally exactly when some status answer has bit 0
      clear, and then right after the first such answer, every status read
      before it having reported the device busy. */
  lemma PollRunMeaning(miso: seq<byte>, p: nat)
    requires p <= |miso|
    ensures var r := PollRun(miso, p);
      && (r.result.Ok? <==> exists i :: p <= i < |miso| && !WriteInProgress(miso[i]))
      && (r.result.Ok? ==> p < r.misoPos && !WriteInProgress(miso[r.misoPos - 1])
                           && (forall i :: p <= i < r.misoPos - 1 ==> WriteInProgress(miso[i]))
                           && r.events == StatusPolls(r.misoPos - p))
      && (r.result.Err? ==> r.result.error == ShortResponse && r.misoPos == |miso|
                            && r.events == StatusPolls(|miso| - p + 1))
  {
    match FirstClear(miso, p)
    case Some(i) =>
    case None =>
  }

  /** One write or erase cycle: its commands, then wait_write. */
  function CycleRun(cmds: seq<SpiEvent>, miso: seq<byte>, p: nat): (r: Run)
    requires p <= |miso|
    ensures p <= r.misoPos <= |miso|
  {
    var poll := PollRun(miso, p);
    Run(cmds + poll.events, poll.misoPos, poll.result)
  }

  // ---------------------------------------------------------------------------
  // Reads
  // ---------------------------------------------------------------------------

  /** The data reads of a read transaction of `count` bytes, after the command:
      4096-byte reads while more than 4096 remain, then one final read that
      releases chip-select. */
  function ReadEvents(count: int): seq<SpiEvent>
    decreases if count > ReadChunk then count else 0
  {
    if count > ReadChunk then [SpiEvent.Read(ReadChunk, false, false)] + ReadEvents(count - ReadChunk)
    else [SpiEvent.Read(count, false, true)]
  }

  /** Sum of the lengths the reads ask for. */
  function ReadTotal(events: seq<SpiEvent>): int
  {
    if events == [] then 0
    else (if events[0].Read? then events[0].readLen else 0) + ReadTotal(events[1..])
  }

  /** The reads continue the transaction (start=False), ask for at most 4096
      bytes each, only the last releases chip-select, and together they ask
      for exactly `count` bytes; for a positive count every read is non-empty. */
  lemma {:induction false} ReadEventsShape(count: int)
    ensures var r := ReadEvents(count);
      && |r| >= 1
      && (forall i :: 0 <= i < |r| ==> r[i].Read? && !r[i].start && r[i].readLen <= ReadChunk
                                       && (r[i].stop <==> i == |r| - 1))
      && (count > 0 ==> forall i :: 0 <= i < |r| ==> r[i].readLen > 0)
      && ReadTotal(r) == count
    decreases if count > ReadChunk then count else 0
  {
    if count > ReadChunk {
      var r := ReadEvents(count);
      var rest := ReadEvents(count - ReadChunk);
      ReadEventsShape(count - ReadChunk);
      assert r == [SpiEvent.Read(ReadChunk, false, false)] + rest;
      assert r[1..] == rest;
      forall i | 1 <= i < |r|
        ensures r[i] == rest[i - 1]
      {
      }
    }
  }

  /** The buffers a read transaction of `count` bytes hands to the sink, one per
      data read, with the response script at cursor `p`. */
  function ReadBuffers(count: int, miso: seq<byte>, p: nat): seq<seq<byte>>
    requires p <= |miso|
    decreases if count > ReadChunk then count else 0
  {
    if count > ReadChunk then
      var page := Take(miso, p, ReadChunk);
      [page] + ReadBuffers(count - ReadChunk, miso, p + |page|)
    else
      [Take(miso, p, Max(count, 0))]
  }

  /** Where the script cursor stands after a read transaction of `count`
      bytes started at `p`. */
  ghost function ReadEnd(count: int, miso: seq<byte>, p: nat): (e: nat)
    requires p <= |miso|
    ensures p <= e <= |miso|
    decreases if count > ReadChunk then count else 0
  {
    if count > ReadChunk then ReadEnd(count - ReadChunk, miso, p + |Take(miso, p, ReadChunk)|)
    else p + |Take(miso, p, Max(count, 0))|
  }

  /** The buffers of a read transaction are the consecutive bytes of the
      script from the cursor to where the transaction leaves it. */
  lemma {:induction false} ReadBuffersContiguous(count: int, miso: seq<byte>, p: nat)
    requires p <= |miso|
    ensures Flatten(ReadBuffers(count, miso, p)) == miso[p .. ReadEnd(count, miso, p)]
    decreases if count > ReadChunk then count else 0
  {
    if count > ReadChunk {
      var page := Take(miso, p, ReadChunk);
      var q := p + |page|;
      var rest := ReadBuffers(count - ReadChunk, miso, q);
      ReadBuffersCons(count, count - ReadChunk, miso, p, q, page);
      ReadBuffersContiguous(count - ReadChunk, miso, q);
      FlattenCons(page, rest);
      SliceSplit(miso, p, q, ReadEnd(count - ReadChunk, miso, q));
    } else {
      FlattenCons(Take(miso, p, Max(count, 0)), []);
    }
  }


  /** A read transaction advances the cursor by `count` bytes, fewer only if
      the script runs out. */
  lemma {:induction false} ReadEndValue(count: int, miso: seq<byte>, p: nat)
    requires p <= |miso|
    ensures ReadEnd(count, miso, p) == p + Min(Max(count, 0), |miso| - p)
    decreases if count > ReadChunk then count else 0
  {
    if count > ReadChunk {
      var q := p + |Take(miso, p, ReadChunk)|;
      ReadEndValue(count - ReadChunk, miso, q);
    }
  }

  /** The sink receives exactly the bytes the device clocked out, in order:
      the next `count` bytes of the script (fewer only if it runs out). */
  lemma ReadBuffersDeliver(count: int, miso: seq<byte>, p: nat)
    requires p <= |miso|
    ensures Flatten(ReadBuffers(count, miso, p)) == miso[p .. p + Min(Max(count, 0), |miso| - p)]
  {
    ReadBuffersContiguous(count, miso, p);
    ReadEndValue(count, miso, p);
  }

  /** One 4096-byte read of read's loop, with `n0` bytes left before it and
      `n` after: the reads still to come complete the transaction. */
  lemma ReadTraceStep(count: int, n0: int, n: int, cmd: seq<SpiEvent>, t0: seq<SpiEvent>, t': seq<SpiEvent>)
    requires n0 > ReadChunk && n == n0 - ReadChunk
    requires t' == t0 + [SpiEvent.Read(ReadChunk, false, false)]
    requires cmd + ReadEvents(count) == t0 + ReadEvents(n0)
    ensures cmd + ReadEvents(count) == t' + ReadEvents(n)
  {
    assert ReadEvents(n0) == [SpiEvent.Read(ReadChunk, false, false)] + ReadEvents(n);
    AppendAssoc(t0, [SpiEvent.Read(ReadChunk, false, false)], ReadEvents(n));
  }

  /** The same step seen from the sink: the buffers still to come complete
      the transaction's. */
  lemma ReadSinkStep(count: int, n0: int, n: int, miso: seq<byte>, p0: nat, pos: nat, pos': nat, page: seq<byte>,
                     w: seq<seq<byte>>, w0: seq<seq<byte>>, w': seq<seq<byte>>)
    requires p0 <= pos <= |miso| && n0 > ReadChunk && n == n0 - ReadChunk
    requires page == Take(miso, pos, ReadChunk) && pos' == pos + |page| && w' == w0 + [page]
    requires w + ReadBuffers(count, miso, p0) == w0 + ReadBuffers(n0, miso, pos)
    ensures pos' <= |miso|
    ensures w + ReadBuffers(count, miso, p0) == w' + ReadBuffers(n, miso, pos')
  {
    ReadBuffersCons(n0, n, miso, pos, pos', page);
    AppendAssoc(w0, [page], ReadBuffers(n, miso, pos'));
  }

  /** The arithmetic of read's cursor invariant across one 4096-byte read that
      returned `k` bytes of the `size - pos` left. */
  lemma CursorStep(p0: int, pos: int, pos': int, k: int, size: int, n0: int, n: int, total: int)
    requires pos <= size && n0 > ReadChunk && n == n0 - ReadChunk
    requires k == Min(ReadChunk, size - pos) && pos' == pos + k
    requires pos - p0 + Min(Max(n0, 0), size - pos) == total
    ensures pos' - p0 + Min(Max(n, 0), size - pos') == total
  {
  }

  lemma ReadBuffersCons(count: int, n: int, miso: seq<byte>, p: nat, p': nat, page: seq<byte>)
    requires p <= |miso| && count > ReadChunk && n == count - ReadChunk
    requires page == Take(miso, p, ReadChunk) && p' == p + |page|
    ensures p' <= |miso| && ReadBuffers(count, miso, p) == [page] + ReadBuffers(n, miso, p')
  {
  }


  // ---------------------------------------------------------------------------
  // Programming
  // ---------------------------------------------------------------------------

  /** program's decomposition as written: if offset & 0xff is non-zero, a
      leading chunk of offset & 0xff bytes at offset, after which offset jumps
      to the next 256-byte boundary; then FullPages. */
  function ProgramPlan(offset: int, count: int): seq<Chunk>
  {
    var lead := offset % PageSize;
    if lead != 0 then [Chunk(offset, lead)] + FullPages(offset - lead + PageSize, count - lead)
    else FullPages(offset, count)
  }

  /** program's page loop and final page: 256-byte chunks while more than 256
      bytes remain, then the rest if any is left. */
  function FullPages(offset: int, count: int): seq<Chunk>
    decreases if count > PageSize then count else 0
  {
    if count > PageSize then [Chunk(offset, PageSize)] + FullPages(offset + PageSize, count - PageSize)
    else if count > 0 then [Chunk(offset, count)]
    else []
  }

  /** FullPages tiles its range with chunks of at most 256 bytes, 256 bytes
      apart, all full except the last. */
  lemma {:induction false} FullPagesShape(offset: int, count: int)
    requires count >= 0
    ensures var r := FullPages(offset, count);
      && Tiles(r, offset, count)
      && (forall i :: 0 <= i < |r| ==> 0 < r[i].len <= PageSize && r[i].addr == offset + i * PageSize)
      && (forall i :: 0 <= i < |r| - 1 ==> r[i].len == PageSize)
    decreases count
  {
    var r := FullPages(offset, count);
    if count > PageSize {
      var rest := FullPages(offset + PageSize, count - PageSize);
      FullPagesShape(offset + PageSize, count - PageSize);
      assert r == [Chunk(offset, PageSize)] + rest;
      assert r[1..] == rest;
      forall i | 1 <= i < |r|
        ensures r[i] == rest[i - 1] && r[i].addr == offset + i * PageSize
      {
        assert rest[i - 1].addr == offset + PageSize + (i - 1) * PageSize;
      }
    }
  }

  /** From a 256-aligned offset the chunks tile [offset, offset + count): each
      at most 256 bytes, each starting on a 256-byte boundary, so none crosses
      one; a count that is not positive programs nothing. */
  lemma {:induction false} ProgramAlignedTiles(offset: int, count: int)
    requires offset % PageSize == 0
    ensures count <= 0 ==> ProgramPlan(offset, count) == []
    ensures count >= 0 ==> Tiles(ProgramPlan(offset, count), offset, count)
    ensures forall c :: c in ProgramPlan(offset, count) ==>
              c.len <= PageSize && c.addr % PageSize == 0 && InOnePage(c, PageSize)
  {
    var r := ProgramPlan(offset, count);
    if count >= 0 {
      FullPagesShape(offset, count);
      forall i | 0 <= i < |r|
        ensures r[i].addr % PageSize == 0
      {
        ModUnique(r[i].addr, PageSize, offset / PageSize + i, 0);
      }
    }
  }

  /** For count >= offset & 0xff: the chunk lengths sum to count; a leading
      chunk exists exactly when offset & 0xff is non-zero and is offset & 0xff
      bytes at offset; every later chunk holds 1 to 256 bytes and starts on a
      256-byte boundary, consecutive starts 256 apart, all full but the last. */
  lemma {:induction false} ProgramPlanShape(offset: int, count: int)
    requires count >= offset % PageSize
    ensures var r := ProgramPlan(offset, count);
      var first := if offset % PageSize != 0 then 1 else 0;
      && TotalLength(r) == count
      && (offset % PageSize != 0 ==> r[0] == Chunk(offset, offset % PageSize))
      && (forall i :: first <= i < |r| ==> r[i].addr % PageSize == 0 && 0 < r[i].len <= PageSize)
      && (forall i :: first <= i < |r| - 1 ==> r[i + 1].addr == r[i].addr + PageSize && r[i].len == PageSize)
  {
    var lead := offset % PageSize;
    var r := ProgramPlan(offset, count);
    var start := if lead != 0 then offset - lead + PageSize else offset;
    var body := FullPages(start, count - lead);
    var first := if lead != 0 then 1 else 0;
    assert r == (if lead != 0 then [Chunk(offset, lead)] else []) + body;
    FullPagesShape(start, count - lead);
    TilesTotal(body, start, count - lead);
    assert start % PageSize == 0 by {
      ModUnique(start, PageSize, offset / PageSize + first, 0);
    }
    forall i | first <= i < |r|
      ensures r[i] == body[i - first] && r[i].addr % PageSize == 0
    {
      ModUnique(r[i].addr, PageSize, start / PageSize + (i - first), 0);
    }
    if lead != 0 {
      assert r[1..] == body;
    }
  }

  /** With count < offset & 0xff, program still programs offset & 0xff bytes
      at offset when that is non-zero, and nothing else. */
  lemma ProgramPlanShortCount(offset: int, count: int)
    requires count < offset % PageSize
    ensures offset % PageSize != 0 ==> ProgramPlan(offset, count) == [Chunk(offset, offset % PageSize)]
    ensures offset % PageSize == 0 ==> ProgramPlan(offset, count) == []
  {
  }

  /** program as written does not tile an unaligned request: for offset 0x10
      the leading chunk is 0x10 bytes (offset & 0xff) at 0x10 and the next
      chunk starts at 0x100, so [0x20, 0x100) is skipped; for offset 0xf0 the
      leading 0xf0 bytes run across the page boundary at 0x100. The corrected
      decomposition is Paging.PageChunks. */
  lemma ProgramPlanGap()
    ensures ProgramPlan(0x10, 0x20) == [Chunk(0x10, 0x10), Chunk(0x100, 0x10)]
    ensures !Tiles(ProgramPlan(0x10, 0x20), 0x10, 0x20)
    ensures ProgramPlan(0xf0, 0x100)[0] == Chunk(0xf0, 0xf0) && !InOnePage(Chunk(0xf0, 0xf0), PageSize)
    ensures PageChunks(0x10, 0x20, PageSize) == [Chunk(0x10, 0x20)]
  {
    assert FullPages(0x100, 0x10) == [Chunk(0x100, 0x10)];
    assert ProgramPlan(0x10, 0x20)[1..] == [Chunk(0x100, 0x10)];
    assert PageChunks(0x30, 0, PageSize) == [];
  }

  /** The three commands of one page-program cycle. */
  function PageCommands(m: FlashModel, offset: int, buf: seq<byte>): seq<SpiEvent>
  {
    [SpiEvent.Write([WriteEnable], true, true),
     SpiEvent.Write([PageProgram] + Addr(m, offset), true, false),
     SpiEvent.Write(buf, false, true)]
  }

  /** Where a session over a data source and a response script stands after
      some steps. */
  datatype Progress = Progress(run: Run, srcPos: nat)

  /** program_page: read up to `c.len` bytes from the source (a length below -1
      is refused by the read); if none came, nothing more, otherwise write
      enable, page program + address (chip-select held), the data (continuing
      the transaction), then wait_write. */
  function PageRun(m: FlashModel, c: Chunk, src: seq<byte>, sp: nat, miso: seq<byte>, mp: nat): (r: Progress)
    requires sp <= |src| && mp <= |miso|
    ensures sp <= r.srcPos <= |src| && mp <= r.run.misoPos <= |miso|
  {
    if c.len < -1 then Progress(Run([], mp, Err(InvalidReadSize(c.len))), sp)
    else
      var buf := Take(src, sp, c.len);
      if buf == [] then Progress(Run([], mp, Ok(())), sp)
      else Progress(CycleRun(PageCommands(m, c.addr, buf), miso, mp), sp + |buf|)
  }

  /** program_page touches the bus only when the source yields bytes; then it
      sends write enable, the page-program command with the chunk's address
      holding chip-select, the bytes taken from the source as a continuation
      that releases it, and nothing but status queries after that. A length
      the source's read refuses ends it with that error before any bus call. */
  lemma PageRunShape(m: FlashModel, c: Chunk, src: seq<byte>, sp: nat, miso: seq<byte>, mp: nat)
    requires sp <= |src| && mp <= |miso|
    ensures var r := PageRun(m, c, src, sp, miso, mp);
      && (r.run.events == [] <==> r.srcPos == sp)
      && (r.srcPos == sp ==> r.run.misoPos == mp && (r.run.result.Ok? <==> c.len >= -1))
      && (c.len < -1 ==> r.run.result == Err(InvalidReadSize(c.len)))
      && (r.srcPos > sp ==>
            && |r.run.events| > 3
            && r.run.events[0] == SpiEvent.Write([WriteEnable], true, true)
            && r.run.events[1] == SpiEvent.Write([PageProgram] + Addr(m, c.addr), true, false)
            && r.run.events[2] == SpiEvent.Write(src[sp .. r.srcPos], false, true)
            && (forall i :: 3 <= i < |r.run.events| ==> r.run.events[i] == StatusQuery))
  {
    if c.len >= -1 {
      var buf := Take(src, sp, c.len);
      if buf != [] {
        var poll := PollRun(miso, mp);
        assert |poll.events| > 0 && poll.events == StatusPolls(|poll.events|);
        var events := PageCommands(m, c.addr, buf) + poll.events;
        forall i | 3 <= i < |events|
          ensures events[i] == StatusQuery
        {
          assert events[i] == poll.events[i - 3];
        }
      }
    }
  }

  /** program_page for each chunk in turn, stopping at the first that fails. */
  function ProgramRun(m: FlashModel, plan: seq<Chunk>, src: seq<byte>, sp: nat, miso: seq<byte>, mp: nat): (r: Progress)
    requires sp <= |src| && mp <= |miso|
    ensures sp <= r.srcPos <= |src| && mp <= r.run.misoPos <= |miso|
    decreases |plan|
  {
    if plan == [] then Progress(Run([], mp, Ok(())), sp)
    else
      var first := PageRun(m, plan[0], src, sp, miso, mp);
      if first.run.result.Err? then first
      else
        var rest := ProgramRun(m, plan[1..], src, first.srcPos, miso, first.run.misoPos);
        Progress(Run(first.run.events + rest.run.events, rest.run.misoPos, rest.run.result), rest.srcPos)
  }

  // ---------------------------------------------------------------------------
  // Reading a trace: the commands and payloads it carries
  // ---------------------------------------------------------------------------

  /** What `select` picks out of each event of a trace, in order. */
  function Collect(select: SpiEvent -> seq<seq<byte>>, events: seq<SpiEvent>): seq<seq<byte>>
  {
    if events == [] then [] else select(events[0]) + Collect(select, events[1..])
  }

  /** The command an event opens with opcode `op`, if it opens one: a write
      that asserts chip-select and starts with that byte. */
  function CommandOf(op: byte, e: SpiEvent): seq<seq<byte>>
  {
    if e.Write? && e.start && |e.data| > 0 && e.data[0] == op then [e.data] else []
  }

  /** The page-program command of an event, if it is one. */
  function PageProgramOf(e: SpiEvent): seq<seq<byte>>
  {
    CommandOf(PageProgram, e)
  }

  /** The sector-erase command of an event, if it is one. */
  function SectorEraseOf(e: SpiEvent): seq<seq<byte>>
  {
    CommandOf(SectorErase, e)
  }

  /** The data payload of an event: a write that continues a transaction. */
  function PayloadOf(e: SpiEvent): seq<seq<byte>>
  {
    if e.Write? && !e.start then [e.data] else []
  }

  lemma {:induction false} CollectAppend(select: SpiEvent -> seq<seq<byte>>, a: seq<SpiEvent>, b: seq<SpiEvent>)
    ensures Collect(select, a + b) == Collect(select, a) + Collect(select, b)
  {
    if a != [] {
      assert (a + b)[0] == a[0] && (a + b)[1..] == a[1..] + b;
      CollectAppend(select, a[1..], b);
      AppendAssoc(select(a[0]), Collect(select, a[1..]), Collect(select, b));
    } else {
      assert a + b == b;
    }
  }

  lemma CollectCons(select: SpiEvent -> seq<seq<byte>>, e: SpiEvent, es: seq<SpiEvent>)
    ensures Collect(select, [e] + es) == select(e) + Collect(select, es)
  {
    assert ([e] + es)[0] == e && ([e] + es)[1..] == es;
  }

  /** Status polling picks out nothing a selector ignores in a status query. */
  lemma {:induction false} CollectStatusPolls(select: SpiEvent -> seq<seq<byte>>, k: nat)
    requires select(StatusQuery) == []
    ensures Collect(select, StatusPolls(k)) == []
  {
    if k > 0 {
      assert StatusPolls(k) == [StatusQuery] + StatusPolls(k - 1);
      CollectCons(select, StatusQuery, StatusPolls(k - 1));
      CollectStatusPolls(select, k - 1);
    }
  }

  /** A selector applied to a command sequence followed by wait_write sees
      only the commands. */
  lemma CollectCycle(select: SpiEvent -> seq<seq<byte>>, cmds: seq<SpiEvent>, miso: seq<byte>, mp: nat)
    requires mp <= |miso| && select(StatusQuery) == []
    ensures Collect(select, CycleRun(cmds, miso, mp).events) == Collect(select, cmds)
  {
    var poll := PollRun(miso, mp);
    assert poll.events == StatusPolls(|poll.events|);
    CollectStatusPolls(select, |poll.events|);
    CollectAppend(select, cmds, poll.events);
  }

  /** One page-program cycle sends one page-program command, with the chunk's
      address, and one payload, the buffer. */
  lemma PageCycleSelects(m: FlashModel, offset: int, buf: seq<byte>, miso: seq<byte>, mp: nat)
    requires mp <= |miso|
    ensures var events := CycleRun(PageCommands(m, offset, buf), miso, mp).events;
      && Collect(PageProgramOf, events) == [[PageProgram] + Addr(m, offset)]
      && Collect(PayloadOf, events) == [buf]
  {
    var cmds := PageCommands(m, offset, buf);
    CollectCycle(PageProgramOf, cmds, miso, mp);
    CollectCycle(PayloadOf, cmds, miso, mp);
    var e1, e2, e3 := cmds[0], cmds[1], cmds[2];
    assert cmds == [e1] + ([e2] + ([e3] + []));
    CollectCons(PageProgramOf, e3, []);
    CollectCons(PageProgramOf, e2, [e3]);
    CollectCons(PageProgramOf, e1, [e2, e3]);
    CollectCons(PayloadOf, e3, []);
    CollectCons(PayloadOf, e2, [e3]);
    CollectCons(PayloadOf, e1, [e2, e3]);
    assert [e2] + ([e3] + []) == [e2, e3];
  }

  /** The data program_page writes is exactly the bytes it took from the
      source. */
  lemma PageRunPayload(m: FlashModel, c: Chunk, src: seq<byte>, sp: nat, miso: seq<byte>, mp: nat)
    requires sp <= |src| && mp <= |miso|
    ensures var r := PageRun(m, c, src, sp, miso, mp);
      Flatten(Collect(PayloadOf, r.run.events)) == src[sp .. r.srcPos]
  {
    if c.len >= -1 {
      var buf := Take(src, sp, c.len);
      if buf != [] {
        PageCycleSelects(m, c.addr, buf, miso, mp);
        FlattenCons(buf, []);
      }
    }
  }

  /** The data written to the flash is exactly the bytes taken from the
      source, in order. */
  lemma {:induction false} ProgramRunPayload(m: FlashModel, plan: seq<Chunk>, src: seq<byte>, sp: nat, miso: seq<byte>, mp: nat)
    requires sp <= |src| && mp <= |miso|
    ensures var r := ProgramRun(m, plan, src, sp, miso, mp);
      Flatten(Collect(PayloadOf, r.run.events)) == src[sp .. r.srcPos]
    decreases |plan|
  {
    if plan != [] {
      var first := PageRun(m, plan[0], src, sp, miso, mp);
      PageRunPayload(m, plan[0], src, sp, miso, mp);
      if first.run.result.Ok? {
        var rest := ProgramRun(m, plan[1..], src, first.srcPos, miso, first.run.misoPos);
        ProgramRunPayload(m, plan[1..], src, first.srcPos, miso, first.run.misoPos);
        CollectAppend(PayloadOf, first.run.events, rest.run.events);
        FlattenAppend(Collect(PayloadOf, first.run.events), Collect(PayloadOf, rest.run.events));
        SliceSplit(src, sp, first.srcPos, rest.srcPos);
      }
    }
  }

  /** When every cycle completes and the source holds enough bytes, program
      consumes exactly the planned number of bytes, each chunk receiving its
      full length. */
  lemma {:induction false} ProgramRunConsumes(m: FlashModel, plan: seq<Chunk>, src: seq<byte>, sp: nat, miso: seq<byte>, mp: nat)
    requires sp <= |src| && mp <= |miso|
    requires forall c :: c in plan ==> c.len > 0
    requires TotalLength(plan) <= |src| - sp
    requires ProgramRun(m, plan, src, sp, miso, mp).run.result.Ok?
    ensures ProgramRun(m, plan, src, sp, miso, mp).srcPos == sp + TotalLength(plan)
    decreases |plan|
  {
    if plan != [] {
      assert plan[0] in plan;
      assert forall c :: c in plan[1..] ==> c in plan;
      var first := PageRun(m, plan[0], src, sp, miso, mp);
      TotalLengthPositive(plan[1..]);
      assert first.srcPos == sp + plan[0].len;
      ProgramRunConsumes(m, plan[1..], src, first.srcPos, miso, first.run.misoPos);
    }
  }

  /** What reaches the bus: a completed program over chunks of positive length,
      from a source holding all their bytes, sends one page-program command per
      chunk, in plan order, carrying that chunk's address, and one payload per
      chunk of exactly that chunk's length; the payloads together are the next
      TotalLength(plan) bytes of the source. */
  lemma {:induction false} ProgramRunCommands(m: FlashModel, plan: seq<Chunk>, src: seq<byte>, sp: nat, miso: seq<byte>, mp: nat)
    requires sp <= |src| && mp <= |miso|
    requires forall c :: c in plan ==> c.len > 0
    requires TotalLength(plan) <= |src| - sp
    requires ProgramRun(m, plan, src, sp, miso, mp).run.result.Ok?
    ensures var events := ProgramRun(m, plan, src, sp, miso, mp).run.events;
      var cmds := Collect(PageProgramOf, events);
      var data := Collect(PayloadOf, events);
      && |cmds| == |plan| && |data| == |plan|
      && (forall k :: 0 <= k < |plan| ==> cmds[k] == [PageProgram] + Addr(m, plan[k].addr) && |data[k]| == plan[k].len)
      && ProgramRun(m, plan, src, sp, miso, mp).srcPos == sp + TotalLength(plan)
      && Flatten(data) == src[sp .. ProgramRun(m, plan, src, sp, miso, mp).srcPos]
    decreases |plan|
  {
    ProgramRunPayload(m, plan, src, sp, miso, mp);
    ProgramRunConsumes(m, plan, src, sp, miso, mp);
    if plan != [] {
      assert plan[0] in plan;
      assert forall c :: c in plan[1..] ==> c in plan;
      TotalLengthPositive(plan[1..]);
      var first := PageRun(m, plan[0], src, sp, miso, mp);
      var buf := Take(src, sp, plan[0].len);
      assert |buf| == plan[0].len;
      assert first.run.result.Ok?;
      var rest := ProgramRun(m, plan[1..], src, first.srcPos, miso, first.run.misoPos);
      ProgramRunCommands(m, plan[1..], src, first.srcPos, miso, first.run.misoPos);
      PageCycleSelects(m, plan[0].addr, buf, miso, mp);
      CollectAppend(PageProgramOf, first.run.events, rest.run.events);
      CollectAppend(PayloadOf, first.run.events, rest.run.events);
      var events := ProgramRun(m, plan, src, sp, miso, mp).run.events;
      var cmds, data := Collect(PageProgramOf, events), Collect(PayloadOf, events);
      var cmds', data' := Collect(PageProgramOf, rest.run.events), Collect(PayloadOf, rest.run.events);
      assert cmds == [[PageProgram] + Addr(m, plan[0].addr)] + cmds';
      assert data == [buf] + data';
      forall k | 1 <= k < |plan|
        ensures cmds[k] == [PageProgram] + Addr(m, plan[k].addr) && |data[k]| == plan[k].len
      {
        assert plan[k] == plan[1..][k - 1] && cmds[k] == cmds'[k - 1] && data[k] == data'[k - 1];
      }
    }
  }

  // ---------------------------------------------------------------------------
  // Erasing
  // ---------------------------------------------------------------------------

  /** The sector addresses erase visits: offset, offset + sect, ... while
      count stays positive. */
  function ErasePlan(offset: int, count: int, sect: Positive): seq<int>
    decreases if count > 0 then count else 0
  {
    if count > 0 then [offset] + ErasePlan(offset + sect, count - sect, sect) else []
  }

  /** Erasing n whole sectors visits n addresses, sect apart from offset. */
  lemma {:induction false} ErasePlanWhole(offset: int, n: nat, sect: Positive)
    ensures var r := ErasePlan(offset, n * sect, sect);
      |r| == n && forall k :: 0 <= k < n ==> r[k] == offset + k * sect
    decreases n
  {
    var r := ErasePlan(offset, n * sect, sect);
    if n > 0 {
      assert n * sect == (n - 1) * sect + sect;
      var rest := ErasePlan(offset + sect, (n - 1) * sect, sect);
      ErasePlanWhole(offset + sect, n - 1, sect);
      assert r == [offset] + rest;
      forall k | 1 <= k < n
        ensures r[k] == offset + k * sect
      {
        assert r[k] == rest[k - 1];
        assert (k - 1) * sect + sect == k * sect;
      }
    }
  }

  /** For a count that is a non-negative multiple of sect, erase visits exactly
      count / sect sectors, the k-th at offset + k * sect, all sector-aligned
      when offset is. */
  lemma ErasePlanSectors(offset: int, count: int, sect: Positive)
    requires count >= 0 && count % sect == 0
    ensures var r := ErasePlan(offset, count, sect);
      && |r| == count / sect
      && (forall k :: 0 <= k < |r| ==> r[k] == offset + k * sect)
      && (offset % sect == 0 ==> forall k :: 0 <= k < |r| ==> r[k] % sect == 0)
  {
    var n := count / sect;
    assert count == n * sect;
    ErasePlanWhole(offset, n, sect);
    var r := ErasePlan(offset, count, sect);
    if offset % sect == 0 {
      forall k | 0 <= k < |r|
        ensures r[k] % sect == 0
      {
        AlignedAfter(offset, k, sect);
      }
    }
  }

  /** The sector-erase command of the erase_sect cycle at `a`. */
  function SectorEraseCommand(m: FlashModel, a: int): seq<byte>
  {
    [SectorErase] + Addr(m, a)
  }

  /** The commands of one erase_sect cycle. */
  function EraseCommands(m: FlashModel, offset: int): seq<SpiEvent>
  {
    [SpiEvent.Write([WriteEnable], true, true), SpiEvent.Write(SectorEraseCommand(m, offset), true, true)]
  }

  /** erase_sect for each address in turn, stopping at the first that fails. */
  function EraseRun(m: FlashModel, addrs: seq<int>, miso: seq<byte>, mp: nat): (r: Run)
    requires mp <= |miso|
    ensures mp <= r.misoPos <= |miso|
    decreases |addrs|
  {
    if addrs == [] then Run([], mp, Ok(()))
    else
      var cycle := CycleRun(EraseCommands(m, addrs[0]), miso, mp);
      if cycle.result.Err? then cycle
      else
        var rest := EraseRun(m, addrs[1..], miso, cycle.misoPos);
        Run(cycle.events + rest.events, rest.misoPos, rest.result)
  }

  /** A completed erase issues one sector-erase command per planned address, in
      order, and no other. */
  lemma {:induction false} EraseRunCommands(m: FlashModel, addrs: seq<int>, miso: seq<byte>, mp: nat)
    requires mp <= |miso|
    requires EraseRun(m, addrs, miso, mp).result.Ok?
    ensures |Collect(SectorEraseOf, EraseRun(m, addrs, miso, mp).events)| == |addrs|
    ensures forall k :: 0 <= k < |addrs| ==> Collect(SectorEraseOf, EraseRun(m, addrs, miso, mp).events)[k] == SectorEraseCommand(m, addrs[k])
    decreases |addrs|
  {
    if addrs != [] {
      var cycle := CycleRun(EraseCommands(m, addrs[0]), miso, mp);
      var rest := EraseRun(m, addrs[1..], miso, cycle.misoPos);
      EraseRunCommands(m, addrs[1..], miso, cycle.misoPos);
      EraseCycleCommands(m, addrs[0], miso, mp);
      CollectAppend(SectorEraseOf, cycle.events, rest.events);
      var e, e' := Collect(SectorEraseOf, EraseRun(m, addrs, miso, mp).events), Collect(SectorEraseOf, rest.events);
      assert e == [SectorEraseCommand(m, addrs[0])] + e';
      forall k | 1 <= k < |addrs|
        ensures e[k] == SectorEraseCommand(m, addrs[k])
      {
        assert e[k] == e'[k - 1] && addrs[k] == addrs[1..][k - 1];
      }
    }
  }

  /** One erase_sect cycle sends exactly one sector-erase command. */
  lemma EraseCycleCommands(m: FlashModel, a: int, miso: seq<byte>, mp: nat)
    requires mp <= |miso|
    ensures Collect(SectorEraseOf, CycleRun(EraseCommands(m, a), miso, mp).events) == [SectorEraseCommand(m, a)]
  {
    var cmds := EraseCommands(m, a);
    CollectCycle(SectorEraseOf, cmds, miso, mp);
    var e1, e2 := cmds[0], cmds[1];
    assert cmds == [e1] + ([e2] + []);
    CollectCons(SectorEraseOf, e2, []);
    CollectCons(SectorEraseOf, e1, [e2]);
  }



  /** Unfolding ProgramRun by one chunk. */
  lemma ProgramRunCons(m: FlashModel, c: Chunk, rest: seq<Chunk>, src: seq<byte>, sp: nat, miso: seq<byte>, mp: nat)
    requires sp <= |src| && mp <= |miso|
    ensures var first := PageRun(m, c, src, sp, miso, mp);
      ProgramRun(m, [c] + rest, src, sp, miso, mp)
        == if first.run.result.Err? then first
           else var r := ProgramRun(m, rest, src, first.srcPos, miso, first.run.misoPos);
                Progress(Run(first.run.events + r.run.events, r.run.misoPos, r.run.result), r.srcPos)
  {
    assert ([c] + rest)[0] == c && ([c] + rest)[1..] == rest;
  }

  /** One program_page step of program: from a state where the chunks
      [c] + rest remain, either the step fails and the command ends there, or
      the chunks `rest` remain. */
  lemma ProgramStep(m: FlashModel, c: Chunk, rest: seq<Chunk>, src: seq<byte>, sp: nat, miso: seq<byte>, mp: nat,
                    target: Progress, before: seq<SpiEvent>, now: seq<SpiEvent>)
    requires sp <= |src| && mp <= |miso|
    requires ProgramRemains(target, before, now, ProgramRun(m, [c] + rest, src, sp, miso, mp))
    ensures var first := PageRun(m, c, src, sp, miso, mp);
      if first.run.result.Err? then
        ProgramRemains(target, before, now + first.run.events, Progress(Run([], first.run.misoPos, first.run.result), first.srcPos))
      else
        ProgramRemains(target, before, now + first.run.events, ProgramRun(m, rest, src, first.srcPos, miso, first.run.misoPos))
  {
    ProgramRunCons(m, c, rest, src, sp, miso, mp);
    var first := PageRun(m, c, src, sp, miso, mp);
    if first.run.result.Ok? {
      var r := ProgramRun(m, rest, src, first.srcPos, miso, first.run.misoPos);
      AppendAssoc(now, first.run.events, r.run.events);
    } else {
      assert now + first.run.events + [] == now + first.run.events;
    }
  }

  /** The first page-program call of program at an unaligned offset, from the
      start (`sp`, `mp`) to the state after it (`now'`, `sp'`, `mp'`, with
      outcome `res`): the run either ends here or the aligned pages from `o`
      remain. */
  lemma LeadStep(m: FlashModel, offset: int, count: int, lead: int, o: int, n: int,
                 src: seq<byte>, sp: nat, miso: seq<byte>, mp: nat, target: Progress, before: seq<SpiEvent>,
                 now': seq<SpiEvent>, sp': nat, mp': nat, res: Result<()>)
    requires sp <= |src| && mp <= |miso| && sp' <= |src| && mp' <= |miso|
    requires lead == offset % PageSize && lead != 0 && o == offset - lead + PageSize && n == count - lead
    requires target == ProgramRun(m, ProgramPlan(offset, count), src, sp, miso, mp)
    requires var first := PageRun(m, Chunk(offset, lead), src, sp, miso, mp);
      now' == before + first.run.events && sp' == first.srcPos && mp' == first.run.misoPos && res == first.run.result
    ensures res.Err? ==> before + target.run.events == now' && target.run.misoPos == mp'
                         && target.srcPos == sp' && target.run.result == res
    ensures res.Ok? ==> ProgramRemains(target, before, now', ProgramRun(m, FullPages(o, n), src, sp', miso, mp'))
  {
    assert ProgramPlan(offset, count) == [Chunk(offset, lead)] + FullPages(o, n);
    ProgramStep(m, Chunk(offset, lead), FullPages(o, n), src, sp, miso, mp, target, before, before);
    if res.Err? {
      assert now' + [] == now';
    }
  }

  /** One page-program step of program's aligned part, from the state before
      it (`now`, `sp`, `mp`) to the state after it (`now'`, `sp'`, `mp'`, with
      outcome `res`): the run either ends here or the pages after `o` remain. */
  lemma AlignedStep(m: FlashModel, o: int, n: int, len: int, o': int, n': int, src: seq<byte>, sp: nat, miso: seq<byte>, mp: nat,
                    target: Progress, before: seq<SpiEvent>, now: seq<SpiEvent>,
                    now': seq<SpiEvent>, sp': nat, mp': nat, res: Result<()>)
    requires sp <= |src| && mp <= |miso| && sp' <= |src| && mp' <= |miso|
    requires len == (if n > PageSize then PageSize else n) && n > 0
    requires o' == o + PageSize && n' == n - PageSize
    requires ProgramRemains(target, before, now, ProgramRun(m, FullPages(o, n), src, sp, miso, mp))
    requires var first := PageRun(m, Chunk(o, len), src, sp, miso, mp);
      now' == now + first.run.events && sp' == first.srcPos && mp' == first.run.misoPos && res == first.run.result
    ensures res.Err? || n <= PageSize ==> before + target.run.events == now' && target.run.misoPos == mp'
                                           && target.srcPos == sp' && target.run.result == res
    ensures res.Ok? && n > PageSize ==>
      ProgramRemains(target, before, now', ProgramRun(m, FullPages(o', n'), src, sp', miso, mp'))
  {
    var rest := if n > PageSize then FullPages(o', n') else [];
    assert FullPages(o, n) == [Chunk(o, len)] + rest;
    ProgramStep(m, Chunk(o, len), rest, src, sp, miso, mp, target, before, now);
    if res.Ok? && n <= PageSize {
      assert ProgramRun(m, [], src, sp', miso, mp').run.events == [];
      assert now' + [] == now';
    }
  }

  /** Unfolding EraseRun by one sector. */
  lemma EraseRunCons(m: FlashModel, a: int, rest: seq<int>, miso: seq<byte>, mp: nat)
    requires mp <= |miso|
    ensures var cycle := CycleRun(EraseCommands(m, a), miso, mp);
      EraseRun(m, [a] + rest, miso, mp)
        == if cycle.result.Err? then cycle
           else var r := EraseRun(m, rest, miso, cycle.misoPos);
                Run(cycle.events + r.events, r.misoPos, r.result)
  {
    assert ([a] + rest)[0] == a && ([a] + rest)[1..] == rest;
  }

  /** One erase_sect step of erase's loop, from the state before it (`now`,
      `mp`) to the state after it (`now'`, `mp'`, with outcome `res`). */
  lemma EraseStep(m: FlashModel, o: int, n: int, o': int, n': int, miso: seq<byte>, mp: nat,
                  target: Run, before: seq<SpiEvent>, now: seq<SpiEvent>,
                  now': seq<SpiEvent>, mp': nat, res: Result<()>)
    requires mp <= |miso| && mp' <= |miso| && n > 0 && o' == o + m.sect && n' == n - m.sect
    requires EraseRemains(target, before, now, EraseRun(m, ErasePlan(o, n, m.sect), miso, mp))
    requires var c := CycleRun(EraseCommands(m, o), miso, mp);
      now' == now + c.events && mp' == c.misoPos && res == c.result
    ensures res.Err? ==> before + target.events == now' && target.misoPos == mp' && target.result == res
    ensures res.Ok? ==> EraseRemains(target, before, now', EraseRun(m, ErasePlan(o', n', m.sect), miso, mp'))
  {
    var rest := ErasePlan(o', n', m.sect);
    assert ErasePlan(o, n, m.sect) == [o] + rest;
    EraseRunCons(m, o, rest, miso, mp);
    var c := CycleRun(EraseCommands(m, o), miso, mp);
    if res.Ok? {
      AppendAssoc(now, c.events, EraseRun(m, rest, miso, mp').events);
    } else {
      assert now' + [] == now';
    }
  }

  /** Loop invariant of program: what is still to be done, run from here,
      completes the whole command. */
  ghost predicate ProgramRemains(target: Progress, before: seq<SpiEvent>, now: seq<SpiEvent>, rest: Progress)
  {
    && before + target.run.events == now + rest.run.events
    && target.run.misoPos == rest.run.misoPos && target.srcPos == rest.srcPos
    && target.run.result == rest.run.result
  }

  /** Loop invariant of erase, likewise. */
  ghost predicate EraseRemains(target: Run, before: seq<SpiEvent>, now: seq<SpiEvent>, rest: Run)
  {
    && before + target.events == now + rest.events
    && target.misoPos == rest.misoPos && target.result == rest.result
  }

  // ---------------------------------------------------------------------------
  // The driver
  // ---------------------------------------------------------------------------

  /** A flash chip on an SPI port, identified and in its addressing mode. */
  class SpiFlash {
    const dev: SpiPort
    const model: FlashModel

    /** The final step of construction, once the model is known. */
    constructor Identified(dev: SpiPort, model: FlashModel)
      ensures this.dev == dev && this.model == model
    {
      this.dev := dev;
      this.model := model;
    }

    /** reset: reset-enable then reset, each its own transaction. */
    static method Reset(dev: SpiPort)
      requires dev.Valid()
      modifies dev
      ensures dev.Valid() && dev.pos == old(dev.pos)
      ensures dev.trace == old(dev.trace) + [SpiEvent.Write([ResetEnable], true, true), SpiEvent.Write([ResetDevice], true, true)]
    {
      dev.Write([ResetEnable], true, true);
      dev.Write([ResetDevice], true, true);
    }

    /** jedec_id: the ID the device answers to 0x9f, or a failure when it
        answers fewer than three bytes. */
    static method JedecId(dev: SpiPort) returns (r: Result<int>)
      requires dev.Valid()
      modifies dev
      ensures dev.Valid()
      ensures dev.trace == old(dev.trace) + [SpiEvent.Exchange([ReadId], 3)]
      ensures dev.pos == old(dev.pos) + Min(3, |dev.miso| - old(dev.pos))
      ensures var p := old(dev.pos);
        r == if |dev.miso| - p < 3 then Err(ShortResponse)
             else Ok(JedecValue(dev.miso[p], dev.miso[p + 1], dev.miso[p + 2]))
    {
      var buf := dev.Exchange([ReadId], 3);
      if |buf| < 3 {
        r := Err(ShortResponse);
      } else {
        r := Ok(JedecValue(buf[0], buf[1], buf[2]));
      }
    }

    /** __init__: reset, identify, fail on an unknown ID, and enter 4-byte
        addressing exactly when the part is larger than 16 MB. */
    static method Open(dev: SpiPort) returns (r: Result<SpiFlash>)
      requires dev.Valid()
      modifies dev
      ensures dev.Valid()
      ensures var id := IdentifyFrom(dev.miso, old(dev.pos));
        && (r.Ok? <==> id.Ok?)
        && (r.Ok? ==> fresh(r.value) && r.value.dev == dev && r.value.model == id.value)
        && (r.Err? ==> r.error == id.error)
        && dev.trace == old(dev.trace)
             + [SpiEvent.Write([ResetEnable], true, true), SpiEvent.Write([ResetDevice], true, true),
                SpiEvent.Exchange([ReadId], 3)]
             + (if id.Ok? && FourByteAddressing(id.value) then [SpiEvent.Write([Enter4ByteMode], true, true)] else [])
      ensures dev.pos == old(dev.pos) + Min(3, |dev.miso| - old(dev.pos))
    {
      Reset(dev);
      var id := JedecId(dev);
      if id.Err? {
        return Err(id.error);
      }
      if id.value !in MODELS {
        return Err(UnsupportedJedecId(id.value));
      }
      var model := MODELS[id.value];
      if model.size > MB(16) {
        dev.Write([Enter4ByteMode], true, true);
      }
      var flash := new SpiFlash.Identified(dev, model);
      r := Ok(flash);
    }

    /** status: one status-register read. */
    method Status() returns (r: Result<byte>)
      requires dev.Valid()
      modifies dev
      ensures dev.Valid()
      ensures dev.trace == old(dev.trace) + [StatusQuery]
      ensures old(dev.pos) < |dev.miso| ==> r == Ok(dev.miso[old(dev.pos)]) && dev.pos == old(dev.pos) + 1
      ensures old(dev.pos) == |dev.miso| ==> r == Err(ShortResponse) && dev.pos == old(dev.pos)
    {
      var buf := dev.Exchange([ReadStatus], 1);
      if |buf| < 1 {
        r := Err(ShortResponse);
      } else {
        r := Ok(buf[0]);
      }
    }

    /** wip: whether bit 0 of the status register is set. */
    method Wip() returns (r: Result<bool>)
      requires dev.Valid()
      modifies dev
      ensures dev.Valid()
      ensures dev.trace == old(dev.trace) + [StatusQuery]
      ensures old(dev.pos) < |dev.miso| ==> r == Ok(WriteInProgress(dev.miso[old(dev.pos)])) && dev.pos == old(dev.pos) + 1
      ensures old(dev.pos) == |dev.miso| ==> r == Err(ShortResponse) && dev.pos == old(dev.pos)
    {
      var status := Status();
      if status.Err? {
        r := Err(status.error);
      } else {
        r := Ok(WriteInProgress(status.value));
      }
    }

    /** wait_write: poll the status register until write-in-progress clears. */
    method WaitWrite() returns (r: Result<()>)
      requires dev.Valid()
      modifies dev
      ensures dev.Valid()
      ensures var poll := PollRun(dev.miso, old(dev.pos));
        dev.trace == old(dev.trace) + poll.events && dev.pos == poll.misoPos && r == poll.result
    {
      ghost var p0 := dev.pos;
      var busy := Wip();
      while busy.Ok? && busy.value
        invariant dev.Valid() && p0 <= dev.pos
        invariant busy.Ok? ==> p0 < dev.pos
        invariant busy.Ok? && !busy.value ==> !WriteInProgress(dev.miso[dev.pos - 1])
        invariant forall i :: p0 <= i < dev.pos - (if busy.Ok? && !busy.value then 1 else 0) ==> WriteInProgress(dev.miso[i])
        invariant busy.Err? ==> dev.pos == |dev.miso| && busy.error == ShortResponse
        invariant dev.trace == old(dev.trace) + StatusPolls(dev.pos - p0 + (if busy.Err? then 1 else 0))
        decreases |dev.miso| - dev.pos + (if busy.Ok? && busy.value then 1 else 0)
      {
        ghost var n := dev.pos - p0;
        busy := Wip();
        StatusPollsSnoc(n);
      }
      if busy.Err? {
        r := Err(busy.error);
        assert FirstClear(dev.miso, p0).None?;
      } else {
        r := Ok(());
        ghost var j := dev.pos - 1;
        assert p0 <= j < |dev.miso| && !WriteInProgress(dev.miso[j]);
        assert forall i :: p0 <= i < j ==> WriteInProgress(dev.miso[i]);
        match FirstClear(dev.miso, p0)
        case None =>
          assert false;
        case Some(k) =>
          if k < j {
            assert false;
          } else if k > j {
            assert false;
          }
      }
    }

    /** read: one transaction, read command and address with chip-select held,
        then the data reads of ReadEvents, each buffer passed to the sink. */
    method Read(to: Sink, offset: int, count: int)
      requires dev.Valid()
      modifies dev, to
      ensures dev.Valid()
      ensures dev.trace == old(dev.trace) + [SpiEvent.Write([ReadData] + Addr(model, offset), true, false)] + ReadEvents(count)
      ensures to.writes == old(to.writes) + ReadBuffers(count, dev.miso, old(dev.pos))
      ensures dev.pos == old(dev.pos) + Min(Max(count, 0), |dev.miso| - old(dev.pos))
    {
      ghost var p0 := dev.pos;
      dev.Write([ReadData] + Addr(model, offset), true, false);
      ghost var cmd := dev.trace;
      var n := count;
      while n > ReadChunk
        invariant dev.Valid() && p0 <= dev.pos
        invariant cmd + ReadEvents(count) == dev.trace + ReadEvents(n)
        invariant old(to.writes) + ReadBuffers(count, dev.miso, p0) == to.writes + ReadBuffers(n, dev.miso, dev.pos)
        invariant dev.pos - p0 + Min(Max(n, 0), |dev.miso| - dev.pos) == Min(Max(count, 0), |dev.miso| - p0)
      {
        ghost var n0, t0, w0, pos := n, dev.trace, to.writes, dev.pos;
        var page := dev.Read(ReadChunk, false, false);
        to.Write(page);
        n := n - ReadChunk;
        ReadTraceStep(count, n0, n, cmd, t0, dev.trace);
        ReadSinkStep(count, n0, n, dev.miso, p0, pos, dev.pos, page, old(to.writes), w0, to.writes);
        CursorStep(p0, pos, dev.pos, |page|, |dev.miso|, n0, n, Min(Max(count, 0), |dev.miso| - p0));
      }
      var frag := dev.Read(n, false, true);
      to.Write(frag);
    }

    /** program_page: one page-program cycle for the bytes the source yields,
        none at all when it yields nothing. */
    method ProgramPage(frm: Source, offset: int, count: int) returns (r: Result<()>)
      requires dev.Valid() && frm.Valid()
      modifies dev, frm
      ensures dev.Valid() && frm.Valid()
      ensures var p := PageRun(model, Chunk(offset, count), frm.data, old(frm.pos), dev.miso, old(dev.pos));
        dev.trace == old(dev.trace) + p.run.events && dev.pos == p.run.misoPos
        && frm.pos == p.srcPos && r == p.run.result
    {
      var read := frm.Read(count);
      if read.Err? {
        return Err(read.error);
      }
      var buf := read.value;
      if buf == [] {
        return Ok(());
      }
      dev.Write([WriteEnable], true, true);
      dev.Write([PageProgram] + Addr(model, offset), true, false);
      dev.Write(buf, false, true);
      r := WaitWrite();
    }

    /** program: the page-program cycles of ProgramPlan, in order, stopping at
        the first that fails. */
    method Program(frm: Source, offset: int, count: int) returns (r: Result<()>)
      requires dev.Valid() && frm.Valid()
      modifies dev, frm
      ensures dev.Valid() && frm.Valid()
      ensures var p := ProgramRun(model, ProgramPlan(offset, count), frm.data, old(frm.pos), dev.miso, old(dev.pos));
        dev.trace == old(dev.trace) + p.run.events && dev.pos == p.run.misoPos
        && frm.pos == p.srcPos && r == p.run.result
    {
      if offset % PageSize != 0 {
        r := ProgramLead(frm, offset, count);
      } else {
        assert ProgramPlan(offset, count) == FullPages(offset, count);
        r := ProgramAligned(frm, offset, count);
      }
    }

    /** program when the offset is not page-aligned: the initial part up to
        what the driver takes for the page boundary, then the aligned rest. */
    method ProgramLead(frm: Source, offset: int, count: int) returns (r: Result<()>)
      requires dev.Valid() && frm.Valid() && offset % PageSize != 0
      modifies dev, frm
      ensures dev.Valid() && frm.Valid()
      ensures var p := ProgramRun(model, ProgramPlan(offset, count), frm.data, old(frm.pos), dev.miso, old(dev.pos));
        dev.trace == old(dev.trace) + p.run.events && dev.pos == p.run.misoPos
        && frm.pos == p.srcPos && r == p.run.result
    {
      var lead := offset % PageSize;
      ghost var target := ProgramRun(model, ProgramPlan(offset, count), frm.data, frm.pos, dev.miso, dev.pos);
      ghost var sp, mp := frm.pos, dev.pos;
      r := ProgramPage(frm, offset, lead);
      var o, n := offset - lead + PageSize, count - lead;
      LeadStep(model, offset, count, lead, o, n, frm.data, sp, dev.miso, mp, target, old(dev.trace),
               dev.trace, frm.pos, dev.pos, r);
      if r.Err? {
        return;
      }
      ghost var t1 := dev.trace;
      ghost var next := ProgramRun(model, FullPages(o, n), frm.data, frm.pos, dev.miso, dev.pos);
      r := ProgramAligned(frm, o, n);
      assert dev.trace == t1 + next.run.events;
    }

    /** The rest of program once the offset is on a page boundary: full pages
        while more than a page remains, then the final page. */
    method ProgramAligned(frm: Source, offset: int, count: int) returns (r: Result<()>)
      requires dev.Valid() && frm.Valid()
      modifies dev, frm
      ensures dev.Valid() && frm.Valid()
      ensures var p := ProgramRun(model, FullPages(offset, count), frm.data, old(frm.pos), dev.miso, old(dev.pos));
        dev.trace == old(dev.trace) + p.run.events && dev.pos == p.run.misoPos
        && frm.pos == p.srcPos && r == p.run.result
    {
      ghost var target := ProgramRun(model, FullPages(offset, count), frm.data, frm.pos, dev.miso, dev.pos);
      var o, n := offset, count;
      // Aligned full pages.
      while n > PageSize
        invariant dev.Valid() && frm.Valid()
        invariant ProgramRemains(target, old(dev.trace), dev.trace, ProgramRun(model, FullPages(o, n), frm.data, frm.pos, dev.miso, dev.pos))
      {
        ghost var o0, n0, t0, sp, mp := o, n, dev.trace, frm.pos, dev.pos;
        r := ProgramPage(frm, o, PageSize);
        if r.Err? {
          AlignedStep(model, o0, n0, PageSize, o0 + PageSize, n0 - PageSize, frm.data, sp, dev.miso, mp,
                      target, old(dev.trace), t0, dev.trace, frm.pos, dev.pos, r);
          return;
        }
        n := n - PageSize;
        o := o + PageSize;
        AlignedStep(model, o0, n0, PageSize, o, n, frm.data, sp, dev.miso, mp,
                    target, old(dev.trace), t0, dev.trace, frm.pos, dev.pos, r);
      }
      // Final page.
      if n > 0 {
        ghost var t0, sp, mp := dev.trace, frm.pos, dev.pos;
        r := ProgramPage(frm, o, n);
        AlignedStep(model, o, n, n, o + PageSize, n - PageSize, frm.data, sp, dev.miso, mp,
                    target, old(dev.trace), t0, dev.trace, frm.pos, dev.pos, r);
      } else {
        assert FullPages(o, n) == [];
        r := Ok(());
      }
    }

    /** erase_sect: write enable, sector erase at the address, wait_write. */
    method EraseSect(offset: int) returns (r: Result<()>)
      requires dev.Valid()
      modifies dev
      ensures dev.Valid()
      ensures var c := CycleRun(EraseCommands(model, offset), dev.miso, old(dev.pos));
        dev.trace == old(dev.trace) + c.events && dev.pos == c.misoPos && r == c.result
    {
      dev.Write([WriteEnable], true, true);
      dev.Write(SectorEraseCommand(model, offset), true, true);
      r := WaitWrite();
    }

    /** erase: reject an offset or count that is not sector-aligned before any
        bus traffic, then erase sector by sector. */
    method Erase(offset: int, count: int) returns (r: Result<()>)
      requires dev.Valid()
      modifies dev
      ensures dev.Valid()
      ensures offset % model.sect != 0 ==>
        r == Err(OffsetNotSectorAligned) && dev.trace == old(dev.trace) && dev.pos == old(dev.pos)
      ensures offset % model.sect == 0 && count % model.sect != 0 ==>
        r == Err(CountNotSectorMultiple) && dev.trace == old(dev.trace) && dev.pos == old(dev.pos)
      ensures offset % model.sect == 0 && count % model.sect == 0 ==>
        var e := EraseRun(model, ErasePlan(offset, count, model.sect), dev.miso, old(dev.pos));
        dev.trace == old(dev.trace) + e.events && dev.pos == e.misoPos && r == e.result
    {
      if offset % model.sect != 0 {
        return Err(OffsetNotSectorAligned);
      }
      if count % model.sect != 0 {
        return Err(CountNotSectorMultiple);
      }
      ghost var target := EraseRun(model, ErasePlan(offset, count, model.sect), dev.miso, dev.pos);
      var o, n := offset, count;
      while n > 0
        invariant dev.Valid()
        invariant EraseRemains(target, old(dev.trace), dev.trace, EraseRun(model, ErasePlan(o, n, model.sect), dev.miso, dev.pos))
      {
        ghost var o0, n0, t0, mp := o, n, dev.trace, dev.pos;
        r := EraseSect(o);
        if r.Err? {
          EraseStep(model, o0, n0, o0 + model.sect, n0 - model.sect, dev.miso, mp, target, old(dev.trace), t0, dev.trace, dev.pos, r);
          return;
        }
        o := o + model.sect;
        n := n - model.sect;
        EraseStep(model, o0, n0, o, n, dev.miso, mp, target, old(dev.trace), t0, dev.trace, dev.pos, r);
      }
      assert ErasePlan(o, n, model.sect) == [];
      r := Ok(());
    }

    /** write: program. */
    method Write(frm: Source, offset: int, count: int) returns (r: Result<()>)
      requires dev.Valid() && frm.Valid()
      modifies dev, frm
      ensures dev.Valid() && frm.Valid()
      ensures var p := ProgramRun(model, ProgramPlan(offset, count), frm.data, old(frm.pos), dev.miso, old(dev.pos));
        dev.trace == old(dev.trace) + p.run.events && dev.pos == p.run.misoPos
        && frm.pos == p.srcPos && r == p.run.result
    {
      r := Program(frm, offset, count);
    }
  }
}
