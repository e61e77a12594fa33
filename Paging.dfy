/** Write decompositions: a request is cut into chunks, each one bus write of
    `len` bytes at `addr`. This module holds what both drivers share: the
    chunk type, what it means for chunks to tile a byte range, and the
    boundary-respecting decomposition the drivers evidently intend. */
module Paging {
  import opened Common

  /** One write requested from the data source and sent to the device:
      `len` bytes at device address `addr` (a negative `len` asks the source
      for everything it has left). */
  datatype Chunk = Chunk(addr: int, len: int)

  /** Sum of the chunk lengths. */
  function TotalLength(cs: seq<Chunk>): int
  {
    if cs == [] then 0 else cs[0].len + TotalLength(cs[1..])
  }

  lemma {:induction false} TotalLengthPositive(cs: seq<Chunk>)
    requires forall c :: c in cs ==> c.len > 0
    ensures TotalLength(cs) >= 0
  {
    if cs != [] {
      assert cs[0] in cs;
      assert forall c :: c in cs[1..] ==> c in cs;
      TotalLengthPositive(cs[1..]);
    }
  }

  /** The chunks are non-empty, contiguous, start at `offset` and cover exactly
      `count` bytes: their ranges partition [offset, offset + count). */
  predicate Tiles(cs: seq<Chunk>, offset: int, count: int)
  {
    if cs == [] then count == 0
    else cs[0].addr == offset && 0 < cs[0].len && Tiles(cs[1..], offset + cs[0].len, count - cs[0].len)
  }

  /** The chunk stays inside one page: it does not cross a multiple of `page`. */
  predicate InOnePage(c: Chunk, page: Positive)
  {
    c.addr % page + c.len <= page
  }

  /** Tiling chunks cover exactly `count` bytes. */
  lemma {:induction false} TilesTotal(cs: seq<Chunk>, offset: int, count: int)
    requires Tiles(cs, offset, count)
    ensures TotalLength(cs) == count
  {
    if cs != [] {
      TilesTotal(cs[1..], offset + cs[0].len, count - cs[0].len);
    }
  }

  /** The decomposition the drivers mean to perform: first up to the next page
      boundary, then page by page. */
  function PageChunks(offset: int, count: int, page: Positive): (r: seq<Chunk>)
    decreases if count > 0 then count else 0
  {
    if count <= 0 then []
    else
      var n := Min(page - offset % page, count);
      [Chunk(offset, n)] + PageChunks(offset + n, count - n, page)
  }

  /** PageChunks tiles the whole request, every chunk holds at most one page
      and none crosses a page boundary. */
  lemma {:induction false} PageChunksCorrect(offset: int, count: int, page: Positive)
    requires count >= 0
    ensures Tiles(PageChunks(offset, count, page), offset, count)
    ensures forall c :: c in PageChunks(offset, count, page) ==> c.len <= page && InOnePage(c, page)
    decreases count
  {
    if count > 0 {
      var n := Min(page - offset % page, count);
      var cs := PageChunks(offset, count, page);
      assert cs == [Chunk(offset, n)] + PageChunks(offset + n, count - n, page);
      assert cs[1..] == PageChunks(offset + n, count - n, page);
      PageChunksCorrect(offset + n, count - n, page);
    }
  }

  /** After the first chunk, every chunk of PageChunks starts on a page boundary. */
  lemma {:induction false} PageChunksAligned(offset: int, count: int, page: Positive)
    ensures forall i :: 0 < i < |PageChunks(offset, count, page)| ==> PageChunks(offset, count, page)[i].addr % page == 0
    decreases if count > 0 then count else 0
  {
    if count > 0 {
      var n := Min(page - offset % page, count);
      var rest := PageChunks(offset + n, count - n, page);
      assert PageChunks(offset, count, page) == [Chunk(offset, n)] + rest;
      PageChunksAligned(offset + n, count - n, page);
      if rest != [] {
        assert n == page - offset % page;
        ModUnique(offset + n, page, offset / page + 1, 0);
        assert rest[0].addr == offset + n;
      }
    }
  }
}
