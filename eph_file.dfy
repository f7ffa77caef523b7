/**
 * The decoder of src/eph-file.c as the C code runs it: a cursor over the
 * caller's buffer that advances in place, a chunk record whose `pos` is
 * bumped by every payload read, and the eph_load loop that drives both.
 * Every CHECK and assert failure of the C code is the single outcome
 * Aborted; the callbacks already made stay in the result.
 */
module EphFile {
  import opened Wrappers
  import opened Bytes
  import opened Healpix
  import opened EphFormat

  /** The `*data` / `*data_size` pair: a read position and the bytes left. */
  class Cursor {
    const buf: seq<byte>
    var pos: nat
    var remaining: int

    ghost predicate Valid()
      reads this
    {
      pos <= |buf| && remaining == |buf| - pos
    }

    constructor (data: seq<byte>)
      ensures Valid() && buf == data && pos == 0
    {
      buf := data;
      pos := 0;
      remaining := |data|;
    }

    /** READ: check that n bytes remain, copy them, advance both counters. */
    method ReadBytes(n: nat) returns (ok: bool, bytes: seq<byte>)
      requires Valid()
      modifies this
      ensures Valid()
      ensures ok <==> old(remaining) >= n
      ensures ok ==> bytes == buf[old(pos)..old(pos) + n] && pos == old(pos) + n
      ensures ok ==> remaining == old(remaining) - n
      ensures !ok ==> pos == old(pos) && remaining == old(remaining)
    {
      if remaining < n {
        return false, [];
      }
      bytes := buf[pos..pos + n];
      pos := pos + n;
      remaining := remaining - n;
      ok := true;
    }

    /** READ(…, int32_t). */
    method ReadInt32() returns (ok: bool, v: int)
      requires Valid()
      modifies this
      ensures Valid()
      ensures ok <==> old(remaining) >= 4
      ensures ok ==> v == I32At(buf, old(pos)) && pos == old(pos) + 4
      ensures !ok ==> pos == old(pos)
    {
      var bytes;
      v := 0;
      ok, bytes := ReadBytes(4);
      if ok {
        v := DecodeI32(bytes);
      }
    }
  }

  datatype StartResult = Started | Ended | StartFailed

  /** chunk_t: the type tag, the declared length and the bytes read so far. */
  class Chunk {
    var tag: seq<byte>
    var length: int
    var pos: int

    constructor ()
      ensures tag == [0, 0, 0, 0] && length == 0 && pos == 0
    {
      tag, length, pos := [0, 0, 0, 0], 0, 0;
    }

    /**
     * chunk_read_start: zero the chunk; report end of stream on an empty
     * cursor; otherwise demand 8 bytes and read the tag and the length.
     */
    method ReadStart(cur: Cursor) returns (r: StartResult)
      requires cur.Valid()
      modifies this, cur
      ensures cur.Valid()
      ensures pos == 0
      ensures r == Ended <==> old(cur.remaining) == 0
      ensures r == StartFailed <==> 0 < old(cur.remaining) < CHUNK_HEADER_SIZE
      ensures r == Started ==>
        var p := old(cur.pos);
        tag == cur.buf[p..p + 4] && length == I32At(cur.buf, p + 4) && cur.pos == p + CHUNK_HEADER_SIZE
      ensures r != Started ==> tag == [0, 0, 0, 0] && length == 0 && cur.pos == old(cur.pos)
    {
      tag, length, pos := [0, 0, 0, 0], 0, 0;
      if cur.remaining == 0 {
        return Ended;
      }
      if cur.remaining < CHUNK_HEADER_SIZE {
        return StartFailed;
      }
      var ok, t := cur.ReadBytes(4);
      var v;
      ok, v := cur.ReadInt32();
      tag, length := t, v;
      r := Started;
    }

    /**
     * chunk_read: account for `size` payload bytes first, then demand that
     * the chunk is not overrun and that the bytes are there, and copy them.
     */
    method Read(cur: Cursor, size: nat) returns (ok: bool, bytes: seq<byte>)
      requires cur.Valid()
      modifies this`pos, cur
      ensures cur.Valid()
      ensures pos == old(pos) + size
      ensures ok <==> ChunkReadAcceptsAsWritten(old(pos), length, old(cur.remaining), size)
      ensures ok ==> bytes == cur.buf[old(cur.pos)..old(cur.pos) + size] && cur.pos == old(cur.pos) + size
      ensures !ok ==> cur.pos == old(cur.pos)
    {
      pos := pos + size;
      if pos > length {
        return false, [];
      }
      ok, bytes := cur.ReadBytes(size);
    }

    /** CHUNK_READ(…, int32_t). */
    method ReadInt32(cur: Cursor) returns (ok: bool, v: int)
      requires cur.Valid()
      modifies this`pos, cur
      ensures cur.Valid()
      ensures pos == old(pos) + 4
      ensures ok <==> pos <= length && old(cur.remaining) >= 4
      ensures ok ==> v == I32At(cur.buf, old(cur.pos)) && cur.pos == old(cur.pos) + 4
      ensures !ok ==> cur.pos == old(cur.pos)
    {
      var bytes;
      v := 0;
      ok, bytes := Read(cur, 4);
      if ok {
        v := DecodeI32(bytes);
      }
    }

    /** CHUNK_READ(…, uint64_t). */
    method ReadUint64(cur: Cursor) returns (ok: bool, v: nat)
      requires cur.Valid()
      modifies this`pos, cur
      ensures cur.Valid()
      ensures pos == old(pos) + 8
      ensures ok <==> pos <= length && old(cur.remaining) >= 8
      ensures ok ==> v == U64At(cur.buf, old(cur.pos)) && cur.pos == old(cur.pos) + 8
      ensures !ok ==> cur.pos == old(cur.pos)
    {
      var bytes;
      v := 0;
      ok, bytes := Read(cur, 8);
      if ok {
        v := DecodeU64(bytes);
      }
    }

    /**
     * chunk_read_finish: the payload must be used up exactly; the 4-byte
     * CRC is then read and discarded, so its value decides nothing.
     */
    method ReadFinish(cur: Cursor) returns (ok: bool)
      requires cur.Valid()
      modifies cur
      ensures cur.Valid()
      ensures ok <==> pos == length && old(cur.remaining) >= CRC_SIZE
      ensures ok ==> cur.pos == old(cur.pos) + CRC_SIZE
      ensures !ok ==> cur.pos == old(cur.pos)
    {
      if pos != length {
        return false;
      }
      var crc;
      ok, crc := cur.ReadInt32();
    }
  }

  /**
   * The body of the uppercase branch of eph_load: version, nuniq, size and
   * comp_size through the chunk, the nuniq decomposition, the compressed
   * bytes, and the inflated result that goes to the callback.
   */
  method ReadTile(c: Chunk, cur: Cursor, inflate: Inflater) returns (ok: bool, ev: TileEvent)
    requires cur.Valid() && c.pos == 0
    modifies c`pos, cur
    ensures cur.Valid()
    ensures var r := TilePayload(cur.buf, old(cur.pos), c.tag, c.length, inflate);
      ok == r.Some? && (ok ==> r.value == (ev, cur.pos) && c.pos == cur.pos - old(cur.pos))
  {
    ghost var p := cur.pos;
    ghost var data := cur.buf;
    ok := false;
    ev := TileEvent([], 0, 0, 0, []);
    var version, nuniq, size, compSize;
    var step;
    step, version := c.ReadInt32(cur);
    if !step { return; }
    step, nuniq := c.ReadUint64(cur);
    if !step { return; }
    var idx := DecodeNuniq(nuniq);
    if idx.None? { return; }
    step, size := c.ReadInt32(cur);
    if !step { return; }
    step, compSize := c.ReadInt32(cur);
    if !step { return; }
    if compSize < 0 { return; }
    var compressed;
    step, compressed := c.Read(cur, compSize);
    if !step { return; }
    assert c.pos == TILE_HEADER_SIZE + compSize;
    ev := TileEvent(c.tag, version, idx.value.order, idx.value.pix, inflate(compressed, ToUnsignedLong(size)));
    ok := true;
  }

  /**
   * One turn of the eph_load loop: chunk_read_start, the tile branch for
   * an uppercase tag, then chunk_read_finish.
   */
  method ReadChunk(c: Chunk, cur: Cursor, inflate: Inflater) returns (st: Step)
    requires cur.Valid()
    modifies c, cur
    ensures cur.Valid()
    ensures st == ChunkStep(cur.buf, old(cur.pos), inflate)
    ensures st.Next? ==> cur.pos == st.next
  {
    var started := c.ReadStart(cur);
    if started == Ended {
      return EndOfStream;
    }
    if started == StartFailed {
      return Abort(None);
    }
    var tileEvent: Option<TileEvent> := None;
    if IsTileTag(c.tag) {
      var tileOk, ev := ReadTile(c, cur, inflate);
      if !tileOk {
        return Abort(None);
      }
      tileEvent := Some(ev);
    }
    var ok := c.ReadFinish(cur);
    if !ok {
      return Abort(tileEvent);
    }
    st := Next(tileEvent, cur.pos);
  }

  /**
   * One turn of the eph_load loop, with the callbacks made so far: when
   * total is what the whole loop yields from the current position on top
   * of events, it still is after this chunk, on top of the new events.
   */
  method LoadChunk(c: Chunk, cur: Cursor, inflate: Inflater, events: seq<TileEvent>, ghost total: Outcome)
      returns (st: Step, events': seq<TileEvent>)
    requires cur.Valid()
    requires total ==
      var rest := DecodeChunks(cur.buf, cur.pos, inflate);
      Outcome(rest.ok, events + rest.events)
    modifies c, cur
    ensures cur.Valid()
    ensures st.Next? ==> old(cur.pos) < cur.pos
    ensures events' == events + (if st.EndOfStream? then [] else Emitted(st.tile))
    ensures st.EndOfStream? ==> total == Outcome(true, events')
    ensures st.Abort? ==> total == Outcome(false, events')
    ensures st.Next? ==>
      (var rest := DecodeChunks(cur.buf, cur.pos, inflate);
       total == Outcome(rest.ok, events' + rest.events))
  {
    ghost var off := cur.pos;
    st := ReadChunk(c, cur, inflate);
    match st
    case EndOfStream =>
      events' := events;
      assert events + [] == events;
    case Abort(t) =>
      StepAborts(cur.buf, off, inflate);
      events' := events + Emitted(t);
    case Next(t, next) =>
      StepContinues(cur.buf, off, inflate);
      ghost var rest := DecodeChunks(cur.buf, next, inflate);
      assert events + (Emitted(t) + rest.events) == (events + Emitted(t)) + rest.events;
      events' := events + Emitted(t);
  }

  /** The start of eph_load: at least 4 bytes, the magic "EPHE", then version 2. */
  method ReadHeader(cur: Cursor) returns (ok: bool)
    requires cur.Valid() && cur.pos == 0
    modifies cur
    ensures cur.Valid()
    ensures ok <==> HeaderOk(cur.buf)
    ensures ok ==> cur.pos == FILE_HEADER_SIZE
  {
    var magic;
    ok, magic := cur.ReadBytes(4);
    if !ok || magic != MAGIC {
      return false;
    }
    var version;
    ok, version := cur.ReadInt32();
    ok := ok && version == FILE_VERSION;
  }

  /** The value eph_load returns, or the terminal failure of a CHECK or assert. */
  datatype LoadResult =
    | Returned(code: int, events: seq<TileEvent>)
    | Aborted(events: seq<TileEvent>)

  /**
   * eph_load: check the magic and the file version, then run the chunk loop
   * until end of stream; each tile chunk produces one callback.
   */
  method Load(data: seq<byte>, inflate: Inflater) returns (r: LoadResult)
    ensures r.Returned? == Decode(data, inflate).ok
    ensures r.events == Decode(data, inflate).events
    ensures r.Returned? ==> r.code == 0
    ensures !HeaderOk(data) ==> r == Aborted([])
  {
    var cur := new Cursor(data);
    var ok := ReadHeader(cur);
    if !ok {
      return Aborted([]);
    }
    ghost var total := Decode(data, inflate);
    assert total == DecodeChunks(data, FILE_HEADER_SIZE, inflate);
    var c := new Chunk();
    var events: seq<TileEvent> := [];
    while true
      invariant cur.Valid() && cur.buf == data
      invariant total ==
        var rest := DecodeChunks(data, cur.pos, inflate);
        Outcome(rest.ok, events + rest.events)
      decreases cur.remaining
    {
      var st;
      st, events := LoadChunk(c, cur, inflate, events, total);
      if st.EndOfStream? {
        break;
      }
      if st.Abort? {
        return Aborted(events);
      }
    }
    r := Returned(0, events);
  }
}
