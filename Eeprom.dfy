/** The I2C EEPROM driver of dangeri2c.py: a name-keyed model table, a
    pass-through read, and a write that cuts the request into chunks and sends
    each with one write_to. */
module EepromDriver {
  import opened Common
  import opened Streams
  import opened Paging
  import opened I2cBus

  // ---------------------------------------------------------------------------
  // Model table
  // ---------------------------------------------------------------------------

  /** Capacity in bytes and write-page size of an EEPROM part. */
  datatype EepromModel = EepromModel(size: nat, page: Positive)

  /** The supported parts, by name. */
  const MODELS: map<string, EepromModel> := map["24c02" := EepromModel(256, 16)]

  /** Construction's table lookup: the named model, or the error raised for a
      name the table does not hold. */
  function Lookup(name: string): Result<EepromModel>
  {
    if name in MODELS then Ok(MODELS[name]) else Err(UnsupportedEepromModel(name))
  }

  /** "24c02" is the one supported part, 256 bytes in 16-byte pages; every
      other name is refused with an error naming it. */
  lemma LookupModels(name: string)
    ensures name == "24c02" ==> Lookup(name) == Ok(EepromModel(256, 16))
    ensures name != "24c02" ==> Lookup(name) == Err(UnsupportedEepromModel(name))
  {
  }

  // ---------------------------------------------------------------------------
  // The write decomposition as written
  // ---------------------------------------------------------------------------

  /** write's chunks: if offset % page is non-zero, a leading chunk of
      offset % page bytes at offset, after which offset advances by that
      amount; then TailPlan. */
  function WritePlan(offset: int, count: int, page: Positive): seq<Chunk>
  {
    var align := offset % page;
    if align != 0 then [Chunk(offset, align)] + TailPlan(offset + align, count - align, page)
    else TailPlan(offset, count, page)
  }

  /** write's loop and final write: page-sized chunks while more than a page
      remains, then one chunk for whatever count is left if it is non-zero
      (negative included). */
  function TailPlan(offset: int, count: int, page: Positive): seq<Chunk>
    decreases if count > page then count else 0
  {
    if count > page then [Chunk(offset, page)] + TailPlan(offset + page, count - page, page)
    else if count != 0 then [Chunk(offset, count)]
    else []
  }

  /** TailPlan is empty exactly for a zero count and a single chunk of the
      count for a negative one; for a positive count it tiles
      [offset, offset + count) and ends with a non-empty chunk. */
  lemma {:induction false} TailPlanShape(offset: int, count: int, page: Positive)
    ensures var r := TailPlan(offset, count, page);
      && (r == [] <==> count == 0)
      && (count > 0 ==> Tiles(r, offset, count) && 0 < r[|r| - 1].len)
      && (count < 0 ==> r == [Chunk(offset, count)])
    decreases if count > page then count else 0
  {
    var r := TailPlan(offset, count, page);
    if count > page {
      var rest := TailPlan(offset + page, count - page, page);
      TailPlanShape(offset + page, count - page, page);
      assert r == [Chunk(offset, page)] + rest;
      assert r[1..] == rest;
    } else if count > 0 {
      assert r[1..] == [];
    }
  }

  /** TailPlan's chunks hold at most a page each, all but the last a full one. */
  lemma {:induction false} TailPlanLengths(offset: int, count: int, page: Positive)
    ensures forall i :: 0 <= i < |TailPlan(offset, count, page)| ==> TailPlan(offset, count, page)[i].len <= page
    ensures forall i :: 0 <= i < |TailPlan(offset, count, page)| - 1 ==> TailPlan(offset, count, page)[i].len == page
    decreases if count > page then count else 0
  {
    var r := TailPlan(offset, count, page);
    if count > page {
      var rest := TailPlan(offset + page, count - page, page);
      TailPlanLengths(offset + page, count - page, page);
      assert r == [Chunk(offset, page)] + rest;
      forall i | 1 <= i < |r|
        ensures r[i].len <= page && (i < |r| - 1 ==> r[i].len == page)
      {
        assert r[i] == rest[i - 1];
      }
    }
  }

  /** The i-th chunk of TailPlan starts i pages after offset. */
  lemma {:induction false} TailPlanAddrs(offset: int, count: int, page: Positive)
    ensures forall i :: 0 <= i < |TailPlan(offset, count, page)| ==> TailPlan(offset, count, page)[i].addr == offset + i * page
    decreases if count > page then count else 0
  {
    var r := TailPlan(offset, count, page);
    if count > page {
      var rest := TailPlan(offset + page, count - page, page);
      TailPlanAddrs(offset + page, count - page, page);
      assert r == [Chunk(offset, page)] + rest;
      forall i | 1 <= i < |r|
        ensures r[i].addr == offset + i * page
      {
        assert r[i] == rest[i - 1];
        assert rest[i - 1].addr == offset + page + (i - 1) * page;
      }
    }
  }

  /** WritePlan is the optional leading chunk followed by TailPlan. */
  lemma WritePlanSplit(offset: int, count: int, page: Positive)
    ensures var align := offset % page;
      WritePlan(offset, count, page)
        == (if align != 0 then [Chunk(offset, align)] else []) + TailPlan(offset + align, count - align, page)
  {
  }

  /** write's leading chunk exists when offset % page is non-zero and holds
      exactly offset % page bytes at offset; when more than offset % page
      bytes are asked for, the final chunk holds between 1 and `page` bytes. */
  lemma WritePlanEnds(offset: int, count: int, page: Positive)
    ensures var r := WritePlan(offset, count, page);
      var align := offset % page;
      && (align != 0 ==> |r| > 0 && r[0] == Chunk(offset, align))
      && (count - align > 0 ==> |r| > 0 && 0 < r[|r| - 1].len <= page)
  {
    var align := offset % page;
    WritePlanSplit(offset, count, page);
    TailPlanShape(offset + align, count - align, page);
    TailPlanLengths(offset + align, count - align, page);
  }

  /** TailPlan's chunks are one page apart. */
  lemma {:induction false} TailPlanSteps(offset: int, count: int, page: Positive)
    ensures forall i :: 0 <= i < |TailPlan(offset, count, page)| - 1 ==>
      TailPlan(offset, count, page)[i + 1].addr == TailPlan(offset, count, page)[i].addr + page
    decreases if count > page then count else 0
  {
    var r := TailPlan(offset, count, page);
    if count > page {
      var rest := TailPlan(offset + page, count - page, page);
      TailPlanSteps(offset + page, count - page, page);
      assert r == [Chunk(offset, page)] + rest;
      if rest != [] {
        assert rest[0].addr == offset + page by {
          if count - page > page {
            assert rest == [Chunk(offset + page, page)] + TailPlan(offset + page + page, count - page - page, page);
          }
        }
      }
      forall i | 1 <= i < |r| - 1
        ensures r[i + 1].addr == r[i].addr + page
      {
        assert r[i] == rest[i - 1] && r[i + 1] == rest[i];
        assert rest[i].addr == rest[i - 1].addr + page;
      }
    }
  }

  /** Every chunk of write after the leading one holds at most a page and
      starts `page` after its predecessor; all but the last are full. */
  lemma WritePlanBody(offset: int, count: int, page: Positive)
    ensures var r := WritePlan(offset, count, page);
      var first := if offset % page != 0 then 1 else 0;
      && (forall i :: first <= i < |r| ==> r[i].len <= page)
      && (forall i :: first <= i < |r| - 1 ==> r[i].len == page && r[i + 1].addr == r[i].addr + page)
  {
    var align := offset % page;
    var r := WritePlan(offset, count, page);
    var tail := TailPlan(offset + align, count - align, page);
    TailPlanLengths(offset + align, count - align, page);
    TailPlanSteps(offset + align, count - align, page);
    if align != 0 {
      assert r == [Chunk(offset, align)] + tail;
      forall i | 1 <= i < |r|
        ensures r[i] == tail[i - 1]
      {
      }
      forall i | 1 <= i < |r| - 1
        ensures r[i].len == page && r[i + 1].addr == r[i].addr + page
      {
        assert r[i] == tail[i - 1] && r[i + 1] == tail[i];
      }
    } else {
      assert r == tail;
    }
  }

  /** For count >= offset % page the chunks of write tile
      [offset, offset + count), their lengths summing to count. */
  lemma WritePlanTiles(offset: int, count: int, page: Positive)
    requires count >= offset % page
    ensures Tiles(WritePlan(offset, count, page), offset, count)
    ensures TotalLength(WritePlan(offset, count, page)) == count
  {
    var align := offset % page;
    var r := WritePlan(offset, count, page);
    var tail := TailPlan(offset + align, count - align, page);
    WritePlanSplit(offset, count, page);
    TailPlanShape(offset + align, count - align, page);
    if align != 0 {
      assert r[1..] == tail;
    }
    TilesTotal(r, offset, count);
  }

  /** From a page-aligned offset every chunk starts on a page boundary and
      none crosses one, and a zero count writes nothing. */
  lemma {:induction false} WriteAligned(offset: int, count: int, page: Positive)
    requires offset % page == 0
    ensures count == 0 ==> WritePlan(offset, count, page) == []
    ensures forall c :: c in WritePlan(offset, count, page) ==> c.addr % page == 0 && InOnePage(c, page)
  {
    var r := WritePlan(offset, count, page);
    assert r == TailPlan(offset, count, page);
    TailPlanLengths(offset, count, page);
    TailPlanAddrs(offset, count, page);
    forall i | 0 <= i < |r|
      ensures r[i].addr % page == 0 && InOnePage(r[i], page)
    {
      AlignedAfter(offset, i, page);
    }
  }

  /** A request shorter than offset % page: the leading chunk already asks
      for more than count, and what is left over is a negative count, which
      the final chunk passes on (a negative count from an aligned offset is
      passed on as it is). */
  lemma WriteShortCount(offset: int, count: int, page: Positive)
    requires count < offset % page
    ensures var align := offset % page;
      WritePlan(offset, count, page)
        == if align != 0 then [Chunk(offset, align), Chunk(offset + align, count - align)]
           else [Chunk(offset, count)]
  {
  }

  /** The example of a leading chunk crossing a page: offset 10, count 20 in
      16-byte pages writes [10, 20) and then [20, 30), and the first of these
      runs across the boundary at 16. The corrected decomposition writes
      [10, 16) then [16, 30). */
  lemma WritePlanCrosses()
    ensures WritePlan(10, 20, 16) == [Chunk(10, 10), Chunk(20, 10)]
    ensures !InOnePage(Chunk(10, 10), 16)
    ensures PageChunks(10, 20, 16) == [Chunk(10, 6), Chunk(16, 14)]
  {
    assert TailPlan(20, 10, 16) == [Chunk(20, 10)];
    assert PageChunks(16, 14, 16) == [Chunk(16, 14)] + PageChunks(30, 0, 16);
  }

  // ---------------------------------------------------------------------------
  // The bus calls of a write
  // ---------------------------------------------------------------------------

  /** Where a write stands: the bus calls so far, the source cursor, and
      whether it completed or stopped at a refused read. */
  datatype Written = Written(events: seq<I2cEvent>, srcPos: nat, result: Result<()>)

  /** For each chunk in turn: read its length from the source and write_to
      the chunk's address whatever came back (even nothing); a length below
      -1 is refused by the source's read, which ends the write there. */
  function WriteRun(plan: seq<Chunk>, src: seq<byte>, sp: nat): (r: Written)
    requires sp <= |src|
    ensures sp <= r.srcPos <= |src|
    decreases |plan|
  {
    if plan == [] then Written([], sp, Ok(()))
    else if plan[0].len < -1 then Written([], sp, Err(InvalidReadSize(plan[0].len)))
    else
      var data := Take(src, sp, plan[0].len);
      var rest := WriteRun(plan[1..], src, sp + |data|);
      Written([I2cEvent.WriteTo(plan[0].addr, data)] + rest.events, rest.srcPos, rest.result)
  }

  /** The data of the write_to calls of a trace, concatenated. */
  function WrittenData(events: seq<I2cEvent>): seq<byte>
  {
    if events == [] then []
    else (if events[0].WriteTo? then events[0].data else []) + WrittenData(events[1..])
  }

  lemma {:induction false} WrittenDataPrepend(e: I2cEvent, events: seq<I2cEvent>)
    ensures WrittenData([e] + events) == (if e.WriteTo? then e.data else []) + WrittenData(events)
  {
    assert ([e] + events)[1..] == events;
  }

  /** One write_to per chunk, in plan order, at the chunk's address, up to the
      first chunk whose length the source refuses; the write completes exactly
      when no chunk asks for fewer than -1 bytes. */
  lemma {:induction false} WriteRunAddrs(plan: seq<Chunk>, src: seq<byte>, sp: nat)
    requires sp <= |src|
    ensures var r := WriteRun(plan, src, sp);
      && |r.events| <= |plan|
      && (forall i :: 0 <= i < |r.events| ==> r.events[i].WriteTo? && r.events[i].addr == plan[i].addr)
      && (r.result.Ok? <==> forall i :: 0 <= i < |plan| ==> plan[i].len >= -1)
      && (r.result.Ok? ==> |r.events| == |plan|)
      && (r.result.Err? ==> |r.events| < |plan| && plan[|r.events|].len < -1
                            && r.result.error == InvalidReadSize(plan[|r.events|].len))
    decreases |plan|
  {
    if plan != [] && plan[0].len >= -1 {
      var r := WriteRun(plan, src, sp);
      var data := Take(src, sp, plan[0].len);
      var q := sp + |data|;
      var rest := WriteRun(plan[1..], src, q);
      WriteRunAddrs(plan[1..], src, q);
      assert r.events == [I2cEvent.WriteTo(plan[0].addr, data)] + rest.events;
      forall i | 1 <= i < |plan|
        ensures plan[i] == plan[1..][i - 1]
      {
      }
      forall i | 1 <= i < |r.events|
        ensures r.events[i] == rest.events[i - 1]
      {
      }
      if rest.result.Ok? {
        forall i | 0 <= i < |plan|
          ensures plan[i].len >= -1
        {
          if i > 0 {
            assert plan[i] == plan[1..][i - 1];
          }
        }
      } else {
        assert plan[|r.events|] == plan[1..][|rest.events|];
      }
    }
  }

  /** The data the write_to calls carry is exactly the bytes consumed from the
      source, in order. */
  lemma {:induction false} WriteRunData(plan: seq<Chunk>, src: seq<byte>, sp: nat)
    requires sp <= |src|
    ensures var r := WriteRun(plan, src, sp); WrittenData(r.events) == src[sp .. r.srcPos]
    decreases |plan|
  {
    if plan != [] && plan[0].len >= -1 {
      var r := WriteRun(plan, src, sp);
      var data := Take(src, sp, plan[0].len);
      var q := sp + |data|;
      var rest := WriteRun(plan[1..], src, q);
      WriteRunData(plan[1..], src, q);
      WrittenDataPrepend(I2cEvent.WriteTo(plan[0].addr, data), rest.events);
      assert r.events == [I2cEvent.WriteTo(plan[0].addr, data)] + rest.events;
      assert data == src[sp .. q];
      SliceSplit(src, sp, q, rest.srcPos);
    }
  }

  /** With chunks of positive length the write completes and consumes the
      planned number of bytes, or all the source has left if that is less. */
  lemma {:induction false} WriteRunConsumes(plan: seq<Chunk>, src: seq<byte>, sp: nat)
    requires sp <= |src|
    requires forall c :: c in plan ==> c.len > 0
    ensures WriteRun(plan, src, sp).result.Ok?
    ensures WriteRun(plan, src, sp).srcPos == sp + Min(TotalLength(plan), |src| - sp)
    decreases |plan|
  {
    if plan != [] {
      assert plan[0] in plan;
      assert forall c :: c in plan[1..] ==> c in plan;
      var data := Take(src, sp, plan[0].len);
      TotalLengthPositive(plan[1..]);
      WriteRunConsumes(plan[1..], src, sp + |data|);
    }
  }

  /** Unfolding WriteRun by one chunk. */
  lemma WriteRunCons(c: Chunk, rest: seq<Chunk>, src: seq<byte>, sp: nat)
    requires sp <= |src|
    ensures WriteRun([c] + rest, src, sp)
      == if c.len < -1 then Written([], sp, Err(InvalidReadSize(c.len)))
         else var data := Take(src, sp, c.len);
              var r := WriteRun(rest, src, sp + |data|);
              Written([I2cEvent.WriteTo(c.addr, data)] + r.events, r.srcPos, r.result)
  {
    assert ([c] + rest)[0] == c && ([c] + rest)[1..] == rest;
  }

  /** A request shorter than offset % page: the leading write_to goes out as
      usual when the offset is unaligned, and the leftover count is then
      negative. A leftover of exactly -1 reads the rest of the source and
      writes it right after the leading chunk; any smaller leftover is refused
      by the source's read, and nothing more is written. */
  lemma WriteShortCountRun(offset: int, count: int, page: Positive, src: seq<byte>, sp: nat)
    requires sp <= |src| && count < offset % page
    ensures var r := WriteRun(WritePlan(offset, count, page), src, sp);
      var align := offset % page;
      var left := count - align;
      var data := Take(src, sp, align);
      var lead := if align != 0 then [I2cEvent.WriteTo(offset, data)] else [];
      var q := sp + |data|;
      && left <= -1
      && (left == -1 ==> r == Written(lead + [I2cEvent.WriteTo(offset + align, src[q..])], |src|, Ok(())))
      && (left < -1 ==> r == Written(lead, q, Err(InvalidReadSize(left))))
  {
    var align := offset % page;
    var left := count - align;
    var data := Take(src, sp, align);
    var q := sp + |data|;
    var last := Chunk(offset + align, left);
    WriteShortCount(offset, count, page);
    WriteRunCons(last, [], src, q);
    if align != 0 {
      assert WritePlan(offset, count, page) == [Chunk(offset, align)] + [last];
      WriteRunCons(Chunk(offset, align), [last], src, sp);
    } else {
      assert WritePlan(offset, count, page) == [last] + [];
      assert data == [];
    }
  }

  /** Loop invariant of write: what is still to be done, run from here,
      completes the whole write. */
  ghost predicate WriteRemains(target: Written, before: seq<I2cEvent>, now: seq<I2cEvent>, rest: Written)
  {
    before + target.events == now + rest.events && target.srcPos == rest.srcPos && target.result == rest.result
  }

  /** One write_to step of write from the state before it (`now`, `sp`) to
      the state after it (`now'`, `sp'`). */
  lemma WriteStep(c: Chunk, rest: seq<Chunk>, src: seq<byte>, sp: nat,
                  target: Written, before: seq<I2cEvent>, now: seq<I2cEvent>, now': seq<I2cEvent>, sp': nat)
    requires sp <= |src| && sp' <= |src| && c.len >= -1
    requires WriteRemains(target, before, now, WriteRun([c] + rest, src, sp))
    requires var data := Take(src, sp, c.len);
      now' == now + [I2cEvent.WriteTo(c.addr, data)] && sp' == sp + |data|
    ensures WriteRemains(target, before, now', WriteRun(rest, src, sp'))
  {
    WriteRunCons(c, rest, src, sp);
    var data := Take(src, sp, c.len);
    AppendAssoc(now, [I2cEvent.WriteTo(c.addr, data)], WriteRun(rest, src, sp').events);
  }

  /** write's first write_to at an unaligned offset, in terms of the
      variables after it (`o'`, `n'`). */
  lemma AlignStep(o: int, n: int, align: int, o': int, n': int, page: Positive, src: seq<byte>, sp: nat,
                  target: Written, before: seq<I2cEvent>, now: seq<I2cEvent>, now': seq<I2cEvent>, sp': nat)
    requires sp <= |src| && sp' <= |src| && align == o % page && align != 0 && o' == o + align && n' == n - align
    requires WriteRemains(target, before, now, WriteRun(WritePlan(o, n, page), src, sp))
    requires var data := Take(src, sp, align);
      now' == now + [I2cEvent.WriteTo(o, data)] && sp' == sp + |data|
    ensures WriteRemains(target, before, now', WriteRun(TailPlan(o', n', page), src, sp'))
  {
    assert WritePlan(o, n, page) == [Chunk(o, align)] + TailPlan(o', n', page);
    WriteStep(Chunk(o, align), TailPlan(o', n', page), src, sp, target, before, now, now', sp');
  }

  /** One step of write's page loop, in terms of the loop's variables before
      (`o`, `n`) and after (`o'`, `n'`) it. */
  lemma TailStep(o: int, n: int, o': int, n': int, page: Positive, src: seq<byte>, sp: nat,
                 target: Written, before: seq<I2cEvent>, now: seq<I2cEvent>, now': seq<I2cEvent>, sp': nat)
    requires sp <= |src| && sp' <= |src| && n > page && o' == o + page && n' == n - page
    requires WriteRemains(target, before, now, WriteRun(TailPlan(o, n, page), src, sp))
    requires var data := Take(src, sp, page);
      now' == now + [I2cEvent.WriteTo(o, data)] && sp' == sp + |data|
    ensures WriteRemains(target, before, now', WriteRun(TailPlan(o', n', page), src, sp'))
  {
    assert TailPlan(o, n, page) == [Chunk(o, page)] + TailPlan(o', n', page);
    WriteStep(Chunk(o, page), TailPlan(o', n', page), src, sp, target, before, now, now', sp');
  }

  /** write's final write_to completes the run. */
  lemma TailLast(o: int, n: int, page: Positive, src: seq<byte>, sp: nat,
                 target: Written, before: seq<I2cEvent>, now: seq<I2cEvent>, now': seq<I2cEvent>, sp': nat)
    requires sp <= |src| && sp' <= |src| && n <= page && n != 0 && n >= -1
    requires WriteRemains(target, before, now, WriteRun(TailPlan(o, n, page), src, sp))
    requires var data := Take(src, sp, n);
      now' == now + [I2cEvent.WriteTo(o, data)] && sp' == sp + |data|
    ensures before + target.events == now' && target.srcPos == sp' && target.result == Ok(())
  {
    assert TailPlan(o, n, page) == [Chunk(o, n)] + [];
    WriteStep(Chunk(o, n), [], src, sp, target, before, now, now', sp');
    assert now' + [] == now';
  }

  /** write's final read refuses a leftover below -1, which ends the run. */
  lemma TailRefused(o: int, n: int, page: Positive, src: seq<byte>, sp: nat,
                    target: Written, before: seq<I2cEvent>, now: seq<I2cEvent>)
    requires sp <= |src| && n < -1
    requires WriteRemains(target, before, now, WriteRun(TailPlan(o, n, page), src, sp))
    ensures before + target.events == now && target.srcPos == sp && target.result == Err(InvalidReadSize(n))
  {
    assert TailPlan(o, n, page) == [Chunk(o, n)] + [];
    WriteRunCons(Chunk(o, n), [], src, sp);
    assert now + [] == now;
  }

  // ---------------------------------------------------------------------------
  // Reading back a write from a flat memory image
  // ---------------------------------------------------------------------------

  /** A memory image after one bus call: a write_to that fits stores its data
      at its address; anything else leaves the image as it was. */
  function Store(mem: seq<byte>, e: I2cEvent): (r: seq<byte>)
    ensures |r| == |mem|
  {
    if e.WriteTo? && 0 <= e.addr && e.addr + |e.data| <= |mem|
    then mem[..e.addr] + e.data + mem[e.addr + |e.data|..]
    else mem
  }

  /** A memory image after a trace of bus calls, applied in order. */
  function Replay(mem: seq<byte>, events: seq<I2cEvent>): (r: seq<byte>)
    ensures |r| == |mem|
    decreases |events|
  {
    if events == [] then mem else Replay(Store(mem, events[0]), events[1..])
  }

  /** Tiling chunks cover a count that is not negative. */
  lemma {:induction false} TilesNonNegative(cs: seq<Chunk>, offset: int, count: int)
    requires Tiles(cs, offset, count)
    ensures count >= 0 && (cs != [] ==> cs[0].len <= count)
  {
    if cs != [] {
      TilesNonNegative(cs[1..], offset + cs[0].len, count - cs[0].len);
    }
  }

  /** `img` is `mem` with `bytes` stored at `offset` and nothing else changed. */
  ghost predicate StoredAt<T>(mem: seq<T>, img: seq<T>, offset: int, bytes: seq<T>)
  {
    && |img| == |mem| && 0 <= offset && offset + |bytes| <= |mem|
    && forall i :: 0 <= i < |img| ==> img[i] == if offset <= i < offset + |bytes| then bytes[i - offset] else mem[i]
  }

  /** The same fact as slices: the range holds `bytes`, the rest is `mem`'s. */
  lemma StoredAtSlices<T>(mem: seq<T>, img: seq<T>, offset: int, count: int, bytes: seq<T>)
    requires StoredAt(mem, img, offset, bytes) && |bytes| == count
    ensures img[offset .. offset + count] == bytes
    ensures img[..offset] == mem[..offset] && img[offset + count..] == mem[offset + count..]
  {
  }

  /** A write_to that fits stores its data at its address. */
  lemma StoreStores(mem: seq<byte>, offset: int, data: seq<byte>)
    requires 0 <= offset && offset + |data| <= |mem|
    ensures StoredAt(mem, Store(mem, I2cEvent.WriteTo(offset, data)), offset, data)
  {
    var r := Store(mem, I2cEvent.WriteTo(offset, data));
    forall i | 0 <= i < |r|
      ensures r[i] == if offset <= i < offset + |data| then data[i - offset] else mem[i]
    {
      if i < offset {
        assert r[i] == mem[..offset][i];
      } else if i < offset + |data| {
        assert r[i] == (mem[..offset] + data)[i];
      } else {
        assert r[i] == mem[offset + |data|..][i - offset - |data|];
      }
    }
  }

  /** Storing `data` at `offset` and then `tail` right after it stores
      data + tail at `offset`. */
  lemma StoredAtThen<T>(mem: seq<T>, mem1: seq<T>, img: seq<T>, offset: int, data: seq<T>, tail: seq<T>)
    requires StoredAt(mem, mem1, offset, data)
    requires StoredAt(mem1, img, offset + |data|, tail)
    requires offset + |data| + |tail| <= |mem|
    ensures StoredAt(mem, img, offset, data + tail)
  {
    forall i | 0 <= i < |img|
      ensures img[i] == if offset <= i < offset + |data + tail| then (data + tail)[i - offset] else mem[i]
    {
      assert mem1[i] == if offset <= i < offset + |data| then data[i - offset] else mem[i];
    }
  }

  /** A trace of write_to calls each starting where the previous one's data
      ended, the first at `offset`. */
  ghost predicate Contiguous(events: seq<I2cEvent>, offset: int)
    decreases |events|
  {
    events == [] ||
    (events[0].WriteTo? && events[0].addr == offset && Contiguous(events[1..], offset + |events[0].data|))
  }

  /** Replaying a contiguous trace that fits stores its data, concatenated,
      at its start and changes nothing else. */
  lemma {:induction false} ReplayContiguous(mem: seq<byte>, events: seq<I2cEvent>, offset: int)
    requires Contiguous(events, offset) && 0 <= offset && offset + |WrittenData(events)| <= |mem|
    ensures StoredAt(mem, Replay(mem, events), offset, WrittenData(events))
    decreases |events|
  {
    if events == [] {
      assert WrittenData(events) == [];
    } else {
      var e := events[0];
      var mem1 := Store(mem, e);
      var tail := WrittenData(events[1..]);
      assert WrittenData(events) == e.data + tail;
      StoreStores(mem, offset, e.data);
      ReplayContiguous(mem1, events[1..], offset + |e.data|);
      StoredAtThen(mem, mem1, Replay(mem1, events[1..]), offset, e.data, tail);
    }
  }

  /** The same on the ranges a read_from returns. */
  lemma ContiguousSlices(mem: seq<byte>, events: seq<I2cEvent>, offset: int, count: int, bytes: seq<byte>)
    requires Contiguous(events, offset) && WrittenData(events) == bytes && |bytes| == count
    requires 0 <= offset && offset + count <= |mem|
    ensures var img := Replay(mem, events);
      && img[offset .. offset + count] == bytes
      && img[..offset] == mem[..offset] && img[offset + count..] == mem[offset + count..]
  {
    ReplayContiguous(mem, events, offset);
    StoredAtSlices(mem, Replay(mem, events), offset, count, bytes);
  }

  /** Writing chunks that tile [offset, offset + count) from a source holding
      at least `count` more bytes completes, consumes exactly `count` bytes and
      issues a contiguous trace starting at `offset`. */
  lemma {:induction false} TilesContiguous(plan: seq<Chunk>, offset: int, count: int, src: seq<byte>, sp: nat)
    requires Tiles(plan, offset, count) && sp <= |src| && sp + count <= |src|
    ensures var w := WriteRun(plan, src, sp);
      w.result.Ok? && w.srcPos == sp + count && Contiguous(w.events, offset)
    decreases |plan|
  {
    TilesNonNegative(plan, offset, count);
    if plan != [] {
      var len := plan[0].len;
      var data := Take(src, sp, len);
      assert |data| == len;
      TilesContiguous(plan[1..], offset + len, count - len, src, sp + len);
      var rest := WriteRun(plan[1..], src, sp + len);
      var events := [I2cEvent.WriteTo(offset, data)] + rest.events;
      assert events[1..] == rest.events;
    }
  }

  /** What that trace carries: the next `count` source bytes. */
  lemma {:induction false} TilesWrite(plan: seq<Chunk>, offset: int, count: int, src: seq<byte>, sp: nat)
    requires Tiles(plan, offset, count) && sp <= |src| && sp + count <= |src|
    ensures var w := WriteRun(plan, src, sp);
      && w.result.Ok? && w.srcPos == sp + count && Contiguous(w.events, offset)
      && WrittenData(w.events) == src[sp .. sp + count]
  {
    TilesContiguous(plan, offset, count, src, sp);
    WriteRunData(plan, src, sp);
  }

  /** The same for any tiling plan, stated on the ranges a read_from returns. */
  lemma TilesRoundTrip(mem: seq<byte>, plan: seq<Chunk>, offset: int, count: int, src: seq<byte>, sp: nat)
    requires Tiles(plan, offset, count)
    requires 0 <= offset && offset + count <= |mem| && sp <= |src| && sp + count <= |src|
    ensures var w := WriteRun(plan, src, sp);
      var img := Replay(mem, w.events);
      && w.result.Ok? && w.srcPos == sp + count
      && img[offset .. offset + count] == src[sp .. sp + count]
      && img[..offset] == mem[..offset] && img[offset + count..] == mem[offset + count..]
  {
    TilesWrite(plan, offset, count, src, sp);
    ContiguousSlices(mem, WriteRun(plan, src, sp).events, offset, count, src[sp .. sp + count]);
  }

  /** Round trip on a flat memory image that applies each write_to and answers
      read_from(offset, count) with its bytes [offset, offset + count): a
      write of `count >= offset % page` bytes inside the image from a long
      enough source completes, and reading the same range back returns the
      bytes the write consumed; the rest of the image is untouched. */
  lemma WriteReadRoundTrip(mem: seq<byte>, offset: int, count: int, page: Positive, src: seq<byte>, sp: nat)
    requires 0 <= offset && offset + count <= |mem| && count >= offset % page && sp <= |src| && sp + count <= |src|
    ensures var w := WriteRun(WritePlan(offset, count, page), src, sp);
      var img := Replay(mem, w.events);
      && w.result.Ok? && w.srcPos == sp + count
      && img[offset .. offset + count] == src[sp .. sp + count]
      && img[..offset] == mem[..offset] && img[offset + count..] == mem[offset + count..]
  {
    WritePlanTiles(offset, count, page);
    TilesRoundTrip(mem, WritePlan(offset, count, page), offset, count, src, sp);
  }

  // ---------------------------------------------------------------------------
  // The driver
  // ---------------------------------------------------------------------------

  /** An EEPROM of a known model on an I2C port. */
  class Eeprom {
    const dev: I2cPort
    const model: EepromModel

    constructor Identified(dev: I2cPort, model: EepromModel)
      ensures this.dev == dev && this.model == model
    {
      this.dev := dev;
      this.model := model;
    }

    /** Construction: the named model from the table, or an error naming it;
        the bus is not touched either way. */
    static method Open(dev: I2cPort, name: string) returns (r: Result<Eeprom>)
      ensures r.Ok? <==> name in MODELS
      ensures r.Ok? ==> fresh(r.value) && r.value.dev == dev && r.value.model == MODELS[name]
      ensures r.Err? ==> r.error == UnsupportedEepromModel(name)
    {
      var model := Lookup(name);
      if model.Err? {
        return Err(model.error);
      }
      var e := new Eeprom.Identified(dev, model.value);
      r := Ok(e);
    }

    /** read: one read_from(offset, count), its bytes handed to the sink
        unchanged. */
    method Read(to: Sink, offset: int, count: int)
      requires dev.Valid()
      modifies dev, to
      ensures dev.Valid()
      ensures dev.trace == old(dev.trace) + [I2cEvent.ReadFrom(offset, count)]
      ensures to.writes == old(to.writes) + [Take(dev.miso, old(dev.pos), Max(count, 0))]
      ensures old(dev.pos) <= dev.pos
      ensures to.Contents() == old(to.Contents()) + dev.miso[old(dev.pos) .. dev.pos]
    {
      var data := dev.ReadFrom(offset, count);
      to.Write(data);
      FlattenAppend(old(to.writes), [data]);
      assert Flatten([data]) == data + Flatten([]);
    }

    /** write: the write_to calls of WritePlan, each carrying what the source
        yields for its chunk, up to a read the source refuses. */
    method Write(frm: Source, offset: int, count: int) returns (r: Result<()>)
      requires dev.Valid() && frm.Valid()
      modifies dev, frm
      ensures dev.Valid() && frm.Valid() && dev.pos == old(dev.pos)
      ensures var w := WriteRun(WritePlan(offset, count, model.page), frm.data, old(frm.pos));
        dev.trace == old(dev.trace) + w.events && frm.pos == w.srcPos && r == w.result
    {
      var page := model.page;
      ghost var target := WriteRun(WritePlan(offset, count, page), frm.data, frm.pos);
      var o, n := offset, count;
      var align := o % page;
      if align != 0 {
        ghost var o0, n0, t0, sp := o, n, dev.trace, frm.pos;
        var data := frm.Read(align);
        dev.WriteTo(o, data.value);
        n := n - align;
        o := o + align;
        AlignStep(o0, n0, align, o, n, page, frm.data, sp, target, old(dev.trace), t0, dev.trace, frm.pos);
      } else {
        assert WritePlan(o, n, page) == TailPlan(o, n, page);
      }
      while n > page
        invariant dev.Valid() && frm.Valid() && dev.pos == old(dev.pos)
        invariant WriteRemains(target, old(dev.trace), dev.trace, WriteRun(TailPlan(o, n, page), frm.data, frm.pos))
      {
        ghost var o0, n0, t0, sp := o, n, dev.trace, frm.pos;
        var data := frm.Read(page);
        dev.WriteTo(o, data.value);
        n := n - page;
        o := o + page;
        TailStep(o0, n0, o, n, page, frm.data, sp, target, old(dev.trace), t0, dev.trace, frm.pos);
      }
      if n != 0 {
        ghost var t0, sp := dev.trace, frm.pos;
        var data := frm.Read(n);
        if data.Err? {
          TailRefused(o, n, page, frm.data, sp, target, old(dev.trace), t0);
          return Err(data.error);
        }
        dev.WriteTo(o, data.value);
        TailLast(o, n, page, frm.data, sp, target, old(dev.trace), t0, dev.trace, frm.pos);
      } else {
        assert TailPlan(o, n, page) == [];
        assert dev.trace + [] == dev.trace;
      }
      r := Ok(());
    }
  }
}
