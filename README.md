# dangerspi / dangeri2c drivers in Dafny

This project models the device layer of two small host-side memory drivers:

- `SpiFlash` (dangerspi.py) drives SPI NOR flash. It has a JEDEC-ID model table and 3- or 4-byte big-endian address fields. Construction runs reset, then identify, then enters 4-byte mode. Reads are one chip-select transaction split into reads of at most 4096 bytes. It also does 256-byte page programming, sector erase and write-in-progress polling.
- `Eeprom` (dangeri2c.py) drives I2C EEPROM. It has a name-keyed model table, a pass-through read and a page-chunked write.

The bus ports are recording objects. Every bus call is appended to a `trace` (`SpiBus.SpiPort`, `I2cBus.I2cPort`). What the device answers (JEDEC ID, status bytes, read data) comes from a finite script of bytes, read through a cursor. The data source is a byte sequence with a read cursor (`Streams.Source`). Like a Python binary file, it returns fewer bytes near its end and everything that is left for a count of -1. A count below -1 is refused, as Python's `read` raises `ValueError` for it (`InvalidReadSize`). The sink is an append-only list of buffers (`Streams.Sink`).

Each driver method is imperative. It is proved to produce exactly the trace, cursor positions and outcome that a specification function computes from the inputs. Examples are `WritePlan`/`WriteRun` for the EEPROM and `ReadEvents`, `ProgramPlan`/`ProgramRun`, `ErasePlan`/`EraseRun` and `PollRun` for the flash. Lemmas then prove what those functions mean: chunk sums, chunk bounds, alignment, opcode order, the data passed through, and the error cases.

Python exceptions become `Result` values. That covers an unknown model or JEDEC ID, a misaligned erase, a read size the data source refuses, and a device that answers fewer bytes than the code indexes (an `IndexError` in the source). Offsets and counts are unbounded `int`s, as in Python. With a positive divisor, Dafny's `/` and `%` agree with Python's `>>` and `%`, negative operands included, and with `&` against a mask of the form 2^k - 1 (`& 0xff` is `% 0x100`); `x & ~0xff` is `x - x % 0x100`.

The drivers follow the code as written. That includes two leading-chunk behaviours that differ from a page-respecting decomposition (see "## Findings"). For `offset=10, count=20, page=16`, a page-respecting decomposition writes `[10,16)`, `[16,30)` (`Paging.PageChunks`). The code writes `[10,20)` then `[20,30)`, and the model follows the code (`EepromDriver.WritePlanCrosses`).

## Model

| member | source | states |
|---|---|---|
| `SpiFlashDriver.KB` | dangerspi.py:18-19 | `n << 10` is a multiple of 1024 whose quotient by 1024 is `n` |
| `SpiFlashDriver.MB` | dangerspi.py:21-22 | `n << 20` is a multiple of 2^20 whose quotient by 2^20 is `n` |
| `SpiFlashDriver.MacronixModel` | dangerspi.py:25-27 | ID 0xc2201b is in the table as "mx66l1g45g", `MB(128)` with `KB(64)` sectors, and needs 4-byte addressing |
| `SpiFlashDriver.Addr` | dangerspi.py:43-52 | the address field is 4 bytes when the part is larger than 16 MB and 3 bytes otherwise |
| `SpiFlashDriver.AddrDecodes` | dangerspi.py:43-52 | read MSB first, the field is the offset mod 2^32 (4-byte mode) or mod 2^24 (3-byte mode), for every offset, negative ones included |
| `SpiFlashDriver.AddrRoundTrip` | dangerspi.py:43-52 | every offset inside a part of at most 4 GB decodes back to itself |
| `SpiFlashDriver.JedecValue` | dangerspi.py:58-60 | the combined ID is below 2^24 and its bytes, MSB first, are the three response bytes |
| `SpiFlashDriver.IdentifyFrom` | dangerspi.py:29-37 | construction succeeds iff the device answers three bytes whose ID is in the table; it then selects that model, otherwise it fails with the unsupported ID or a short response |
| `SpiFlashDriver.IdentifyMacronix` | dangerspi.py:25-37 | a device answering c2 20 1b selects the 128 MB, 64 KB-sector part |
| `SpiFlashDriver.FirstClear` | dangerspi.py:66-71 | finds the first status answer with bit 0 clear, with every earlier answer busy, or reports that every answer is busy |
| `SpiFlashDriver.PollRunMeaning` | dangerspi.py:66-71 | wait_write returns normally iff some status answer has bit 0 clear; it then stops right after the first such answer, all earlier ones busy, and has issued only status queries; otherwise it fails on an unanswered query |
| `SpiFlashDriver.ReadEventsShape` | dangerspi.py:73-82 | the data reads all continue the transaction (start=False) and ask for at most 4096 bytes each; only the last one releases chip-select; their lengths sum to `count` |
| `SpiFlashDriver.ReadBuffersDeliver` | dangerspi.py:73-82 | the sink receives exactly the bytes the device clocked out, in order: the next `count` bytes (fewer only if the device's answers run out) |
| `SpiFlashDriver.FullPagesShape` | dangerspi.py:101-109 | the page loop and the final page tile their range with chunks of 1..256 bytes, 256 apart, all full except the last |
| `SpiFlashDriver.ProgramAlignedTiles` | dangerspi.py:94-109 | from a 256-aligned offset the chunks tile `[offset, offset+count)`; each is at most 256 bytes, starts on a 256-byte boundary and crosses none; a count of zero or less programs nothing |
| `SpiFlashDriver.ProgramPlanShape` | dangerspi.py:94-109 | for `count >= offset & 0xff`: chunk lengths sum to `count`; the first chunk is `offset & 0xff` bytes at `offset` when that is non-zero; every later chunk is 1..256 bytes on a 256-byte boundary, starts 256 apart, all full but the last |
| `SpiFlashDriver.ProgramPlanShortCount` | dangerspi.py:94-109 | with `count < offset & 0xff` program still programs `offset & 0xff` bytes at `offset` (nothing when aligned) and nothing more |
| `SpiFlashDriver.ProgramPlanGap` | dangerspi.py:94-99 | the as-written decomposition leaves an address gap (offset 0x10) and can cross a page (offset 0xf0), where the corrected one does not |
| `SpiFlashDriver.PageRunShape` | dangerspi.py:84-92 | program_page emits no bus event iff the source yields no bytes; otherwise it emits write enable, then page program + address with chip-select held, then the source bytes as a continuation, then only status queries; a length below -1 fails with the source's `InvalidReadSize` before any bus call |
| `SpiFlashDriver.PageRunPayload` | dangerspi.py:84-92 | the data payloads program_page writes (the continuation writes), concatenated, equal the bytes it took from the source |
| `SpiFlashDriver.ProgramRunPayload` | dangerspi.py:84-109 | over a whole program, the data payloads concatenated equal the bytes consumed from the source, in order, also when a cycle fails midway |
| `SpiFlashDriver.ProgramRunConsumes` | dangerspi.py:84-109 | when every cycle completes and the source is long enough, program consumes exactly the planned number of bytes |
| `SpiFlashDriver.ProgramRunCommands` | dangerspi.py:84-109 | when every cycle completes and the source holds all planned bytes, the trace carries one page-program command `[0x02] + addr(chunk address)` per chunk, in plan order, and one payload per chunk of exactly the chunk's length; the payloads together are the next `TotalLength(plan)` source bytes |
| `SpiFlashDriver.ErasePlanSectors` | dangerspi.py:116-126 | for a count that is a non-negative multiple of the sector, erase visits exactly `count/sect` sectors; the k-th is at `offset + k*sect`, all sector-aligned when `offset` is |
| `SpiFlashDriver.EraseCycleCommands` | dangerspi.py:111-114 | one erase_sect cycle sends exactly one sector-erase command, `[0xd8] + addr(offset)` |
| `SpiFlashDriver.EraseRunCommands` | dangerspi.py:111-126 | a completed erase sends one sector-erase command per planned address, in order, and no other |
| `SpiFlashDriver.SpiFlash.Reset` | dangerspi.py:54-56 | appends `[0x66]` then `[0x99]`, each its own transaction |
| `SpiFlashDriver.SpiFlash.JedecId` | dangerspi.py:58-60 | one `0x9f` exchange of 3 bytes; returns their big-endian value, or fails when fewer come back |
| `SpiFlashDriver.SpiFlash.Open` | dangerspi.py:29-41 | trace is `[0x66]`, `[0x99]`, the `0x9f` exchange, then `[0xb7]` exactly when the identified part exceeds 16 MB; fails (no `0xb7`) when the ID is not in the table |
| `SpiFlashDriver.SpiFlash.Status` | dangerspi.py:62-64 | one `0x05` exchange of 1 byte, returning the answered byte or failing when none comes back |
| `SpiFlashDriver.SpiFlash.Wip` | dangerspi.py:66-67 | true iff bit 0 of the status byte is set |
| `SpiFlashDriver.SpiFlash.WaitWrite` | dangerspi.py:69-71 | polls until a status read has bit 0 clear, matching `PollRun` in trace, cursor and outcome |
| `SpiFlashDriver.SpiFlash.Read` | dangerspi.py:73-82 | trace is `[0x03] + addr(offset)` with stop=False followed by `ReadEvents(count)`; the sink gets `ReadBuffers` |
| `SpiFlashDriver.SpiFlash.ProgramPage` | dangerspi.py:84-92 | trace, cursors and outcome are those of `PageRun`, including the failure of a refused read size |
| `SpiFlashDriver.SpiFlash.Program` | dangerspi.py:94-109 | trace, cursors and outcome are those of `ProgramRun` over `ProgramPlan` |
| `SpiFlashDriver.SpiFlash.ProgramLead` | dangerspi.py:96-99 | the unaligned first page, then the aligned rest from the next 256-byte boundary |
| `SpiFlashDriver.SpiFlash.ProgramAligned` | dangerspi.py:101-109 | full pages while more than 256 bytes remain, then the final page |
| `SpiFlashDriver.SpiFlash.EraseSect` | dangerspi.py:111-114 | `[0x06]`, `[0xd8] + addr(offset)`, then wait_write |
| `SpiFlashDriver.SpiFlash.Erase` | dangerspi.py:116-126 | a misaligned offset or count fails before any bus traffic (offset checked first); otherwise trace and outcome are those of `EraseRun` over `ErasePlan` |
| `SpiFlashDriver.SpiFlash.Write` | dangerspi.py:128-129 | the same effect as program |
| `Streams.Source.Read` | dangeri2c.py:35-47 | the `frm.read(n)` the drivers call: for `n >= -1` it returns the next `n` bytes (fewer near the end; all that is left for -1) and advances the cursor past them; for `n < -1` it fails with `InvalidReadSize` and leaves the cursor alone |
| `EepromDriver.LookupModels` | dangeri2c.py:16-26 | "24c02" resolves to size 256, page 16; every other name fails with an error naming it |
| `EepromDriver.Eeprom.Open` | dangeri2c.py:20-26 | construction succeeds iff the name is in the table and does not touch the bus |
| `EepromDriver.Eeprom.Read` | dangeri2c.py:28-30 | exactly one `read_from(offset, count)`, its bytes passed to the sink unchanged |
| `EepromDriver.Eeprom.Write` | dangeri2c.py:32-48 | trace, source cursor and outcome are those of `WriteRun` over `WritePlan`: it completes, or stops with `InvalidReadSize` at a read the source refuses |
| `EepromDriver.TailPlanShape` | dangeri2c.py:40-48 | the loop and final write emit nothing iff the remaining count is zero, tile the range for a positive count, and pass a negative count on as one chunk |
| `EepromDriver.WritePlanTiles` | dangeri2c.py:32-48 | for `count >= offset % page` the chunks are contiguous from `offset`, non-empty, and their lengths sum to `count` |
| `EepromDriver.WritePlanEnds` | dangeri2c.py:33-48 | a leading chunk exists when `offset % page != 0` and is exactly `offset % page` bytes at `offset`; when more remains the final chunk is 1..page bytes |
| `EepromDriver.WritePlanBody` | dangeri2c.py:40-48 | every chunk after the leading one is at most a page, and all but the last are full pages one page apart |
| `EepromDriver.WriteAligned` | dangeri2c.py:33-48 | from a page-aligned offset every chunk starts on a page boundary and crosses none, and a zero count writes nothing |
| `EepromDriver.WriteShortCount` | dangeri2c.py:33-48 | with `count < offset % page` the leftover count is negative and passed to the final chunk |
| `EepromDriver.WriteShortCountRun` | dangeri2c.py:33-48 | in that case the leading `write_to` goes out as usual; a leftover of exactly -1 then reads the rest of the source and writes it after the leading chunk, and a smaller leftover is refused by the source's read, so the write fails after the leading chunk |
| `EepromDriver.WritePlanCrosses` | dangeri2c.py:33-38 | offset 10, count 20, page 16 writes `[10,20)` then `[20,30)`, crossing the boundary at 16 |
| `EepromDriver.WriteRunAddrs` | dangeri2c.py:32-48 | one `write_to` per chunk, in order, at the chunk's address, up to the first chunk whose length is below -1; the write completes iff there is no such chunk, and otherwise fails with that chunk's `InvalidReadSize` |
| `EepromDriver.WriteRunData` | dangeri2c.py:35-47 | the data of the `write_to` calls, concatenated, equals the bytes consumed from the source, in order |
| `EepromDriver.WriteRunConsumes` | dangeri2c.py:35-47 | with non-empty chunks the write consumes the planned number of bytes, or all that is left |
| `EepromDriver.ReplayContiguous` | dangeri2c.py:32-48 | replaying write_to calls that each start where the previous one ended stores their data, concatenated, at the first address and changes nothing else |
| `EepromDriver.TilesWrite` | dangeri2c.py:35-48 | writing chunks that tile a range, from a source holding enough bytes, completes, consumes exactly the range's length, and issues such a contiguous trace carrying the next source bytes |
| `EepromDriver.WriteReadRoundTrip` | dangeri2c.py:28-48 | on a flat memory image, a write of `count >= offset % page` bytes inside the image completes, and `read_from(offset, count)` afterwards returns exactly the bytes the write took from the source; the rest of the image is unchanged |
| `Paging.PageChunksCorrect` | dangeri2c.py:32-48 | the corrected decomposition tiles the request with chunks of at most one page, none crossing a page boundary |
| `Paging.PageChunksAligned` | dangerspi.py:94-109 | in the corrected decomposition every chunk after the first starts on a page boundary |
| `Paging.TilesTotal` | dangeri2c.py:32-48 | chunks that tile `[offset, offset+count)` have lengths summing to `count` |

## Left out

- Command-line parsing, argcomplete, `int0` and the top-level dispatch (dangerspi.py:148-188, dangeri2c.py:50-86). These are library glue.
- `BusBlaster` and the pyftdi controller, port and GPIO setup (dangerspi.py:131-146, dangeri2c.py:77-80). These are foreign USB/FTDI transport; the ports are recording objects.
- `time.sleep(0.001)` in wait_write. Timing is not modelled. The device's status answers are a finite script, so an endless busy device is not modelled: the poll ends, with an error, when the script runs out.
- Transport errors from the bus. Besides the short answer above, the ports never fail.
- File streams and the stdin/stdout defaults. The model uses a byte-sequence source and an append-only sink.
- `SpiFlashDriver.SpiFlash.Program`: no "program, then read back the same bytes" round trip against a flat flash image. It does not hold for the code as written: an unaligned start leaves the address gap shown under "## Findings". The EEPROM round trip is proved on a flat image (`EepromDriver.WriteReadRoundTrip`). A real 24c02 wraps a write that crosses a page back to the start of that page; that wrap is not modelled.
- `SpiFlashDriver.SpiFlash.Erase`: the test `x & (sect - 1)` is modelled as `x % sect`. The two agree for power-of-two sector sizes, which is all the table holds (64 KB).
- Construction is split into a constructor that records the identified model and a static `Open` that performs the bus sequence. A Dafny constructor cannot fail, and Python's `__init__` raises.

## Findings

| source | as written | input that shows it | evidently intended | confidence | as-written member | corrected member |
|---|---|---|---|---|---|---|
| dangeri2c.py:33-38 | the leading chunk is `offset % page` bytes at `offset` | offset 10, count 20, page 16 writes `[10,20)`, which crosses the page boundary at 16 | a leading chunk of `page - offset % page` bytes, up to the next boundary | high, not executed | `EepromDriver.WritePlanCrosses` | `Paging.PageChunksCorrect` |
| dangerspi.py:96-99 | the leading chunk is `offset & 0xff` bytes at `offset`, then the offset jumps to the next 256-byte boundary | offset 0x10, count 0x20 programs `[0x10,0x20)` and `[0x100,0x110)`, skipping `[0x20,0x100)`; offset 0xf0 programs 0xf0 bytes across 0x100 | a leading chunk of `0x100 - (offset & 0xff)` bytes, then aligned pages | high, not executed | `SpiFlashDriver.ProgramPlanGap` | `Paging.PageChunksAligned` |
| dangeri2c.py:37-47 | `count -= align` with `count < align` leaves a negative count that the final `frm.read(count)` receives | offset 10, count 3, page 16 writes 10 bytes at 10, then calls `read(-7)`, which raises `ValueError` after the first `write_to`; with count 9 it calls `read(-1)`, which drains the source into one more `write_to` | reject or clamp a count shorter than the leading chunk | medium, not executed | `EepromDriver.WriteShortCountRun` | `Paging.PageChunksCorrect` |
