/**
 * The EPHE container as eph_load reads it, stated as pure functions over
 * the buffer and a read offset.  It is the specification the imperative
 * decoder in module EphFile is proved against.
 *
 *   file  := "EPHE" version:int32 chunk*
 *   chunk := type[4] length:int32 payload[length] crc[4]
 *   tile payload (type starting with 'A'..'Z') :=
 *            version:int32 nuniq:uint64 size:int32 comp_size:int32 data[comp_size]
 */
module EphFormat {
  import opened Wrappers
  import opened Bytes
  import opened Healpix

  const MAGIC: seq<byte> := [0x45, 0x50, 0x48, 0x45]  // "EPHE"
  const FILE_VERSION: int := 2
  /** Magic plus file version. */
  const FILE_HEADER_SIZE: nat := 8
  /** Type tag plus declared length. */
  const CHUNK_HEADER_SIZE: nat := 8
  const CRC_SIZE: nat := 4
  /** version, nuniq, size and comp_size of a tile payload. */
  const TILE_HEADER_SIZE: nat := 20

  /** A chunk type whose first character is an uppercase ASCII letter is a tile. */
  predicate IsTileTag(tag: seq<byte>) {
    |tag| > 0 && 0x41 <= tag[0] <= 0x5A
  }

  /** The zlib `uncompress` call: compressed bytes and capacity to delivered bytes. */
  type Inflater = (seq<byte>, nat) -> seq<byte>

  /** One invocation of the caller's callback. */
  datatype TileEvent = TileEvent(tag: seq<byte>, version: int, order: nat, pix: int, data: seq<byte>)

  /** What one turn of the chunk loop does. */
  datatype Step =
    | EndOfStream
    | Next(tile: Option<TileEvent>, next: nat)
    | Abort(tile: Option<TileEvent>)

  /** Whether eph_load returned, and every callback it made, in order. */
  datatype Outcome = Outcome(ok: bool, events: seq<TileEvent>)

  function I32At(data: seq<byte>, i: nat): (r: int)
    requires i + 4 <= |data|
    ensures IsInt32(r)
  {
    DecodeI32(data[i..i + 4])
  }

  function U64At(data: seq<byte>, i: nat): (r: nat)
    requires i + 8 <= |data|
    ensures r < TWO_64
  {
    DecodeU64(data[i..i + 8])
  }

  function Emitted(t: Option<TileEvent>): seq<TileEvent> {
    if t.Some? then [t.value] else []
  }

  predicate HeaderOk(data: seq<byte>) {
    |data| >= FILE_HEADER_SIZE && data[..4] == MAGIC && I32At(data, 4) == FILE_VERSION
  }

  /**
   * The tile payload that starts at offset p of a chunk declaring `length`:
   * the callback's arguments and the offset just after the compressed bytes,
   * or None when a read overruns the chunk or the buffer, the nuniq does not
   * decompose, or comp_size is negative.  The inflated size is handed to
   * inflate as the `unsigned long` it is stored in, whatever its sign.
   */
  function TilePayload(data: seq<byte>, p: nat, tag: seq<byte>, length: int, inflate: Inflater)
    : (r: Option<(TileEvent, nat)>)
    requires p <= |data|
  {
    if length < TILE_HEADER_SIZE || |data| - p < TILE_HEADER_SIZE then None
    else
      var version := I32At(data, p);
      var nuniq := U64At(data, p + 4);
      var size := I32At(data, p + 12);
      var compSize := I32At(data, p + 16);
      var q := p + TILE_HEADER_SIZE;
      match DecodeNuniq(nuniq)
      case None => None
      case Some(idx) =>
        if compSize < 0 then None
        else if length < TILE_HEADER_SIZE + compSize || |data| - q < compSize then None
        else
          var ev := TileEvent(tag, version, idx.order, idx.pix, inflate(data[q..q + compSize], ToUnsignedLong(size)));
          Some((ev, q + compSize))
  }

  /**
   * The corrected tile read: the compressed bytes handed to inflate are the
   * comp_size bytes right after the 20-byte tile header, inside both the
   * chunk's declared length and the buffer.
   */
  lemma TilePayloadInBounds(data: seq<byte>, p: nat, tag: seq<byte>, length: int, inflate: Inflater)
    requires p <= |data| && TilePayload(data, p, tag, length, inflate).Some?
    ensures var (ev, q) := TilePayload(data, p, tag, length, inflate).value;
      p + TILE_HEADER_SIZE <= q <= |data| && q - p <= length &&
      q - (p + TILE_HEADER_SIZE) == I32At(data, p + 16) &&
      ev.data == inflate(data[p + TILE_HEADER_SIZE..q], ToUnsignedLong(I32At(data, p + 12))) && ev.tag == tag
  {
  }

  /** The two checks of chunk_read exactly as written, on a signed int size. */
  predicate ChunkReadAcceptsAsWritten(pos: int, length: int, remaining: int, size: int) {
    pos + size <= length && remaining >= size
  }

  /**
   * A tile chunk of declared length 20 whose comp_size field is -1 passes
   * both checks of chunk_read, after which memcpy is asked for
   * (size_t)-1 = 2^64 - 1 bytes, more than any buffer holds.
   */
  lemma NegativeCompSizeAccepted(remaining: nat)
    requires remaining < TWO_64 - 1
    ensures ChunkReadAcceptsAsWritten(TILE_HEADER_SIZE, TILE_HEADER_SIZE, remaining, -1)
    ensures (-1) % TWO_64 > remaining
  {
  }

  /** chunk_read_finish at offset q, with `consumed` payload bytes accounted. */
  function Finish(data: seq<byte>, q: nat, consumed: int, length: int, tile: Option<TileEvent>): (r: Step)
    requires q <= |data|
    ensures r.Next? <==> consumed == length && |data| - q >= CRC_SIZE
    ensures r.Next? ==> r.next == q + CRC_SIZE <= |data| && r.tile == tile
    ensures r.Abort? <==> consumed != length || |data| - q < CRC_SIZE
    ensures r.Abort? ==> r.tile == tile
  {
    if consumed == length && |data| - q >= CRC_SIZE then Next(tile, q + CRC_SIZE) else Abort(tile)
  }

  /** One turn of the `while (chunk_read_start(...))` loop at offset off. */
  function ChunkStep(data: seq<byte>, off: nat, inflate: Inflater): (r: Step)
    requires off <= |data|
    ensures r.Next? ==> off < r.next <= |data|
  {
    if off == |data| then EndOfStream
    else if |data| - off < CHUNK_HEADER_SIZE then Abort(None)
    else
      var tag := data[off..off + 4];
      var length := I32At(data, off + 4);
      var p := off + CHUNK_HEADER_SIZE;
      if IsTileTag(tag) then
        match TilePayload(data, p, tag, length, inflate)
        case None => Abort(None)
        case Some((ev, q)) => Finish(data, q, q - p, length, Some(ev))
      else
        Finish(data, p, 0, length, None)
  }

  /** The chunk loop from offset off to end of stream or the first failure. */
  function DecodeChunks(data: seq<byte>, off: nat, inflate: Inflater): (r: Outcome)
    requires off <= |data|
    decreases |data| - off
  {
    match ChunkStep(data, off, inflate)
    case EndOfStream => Outcome(true, [])
    case Abort(t) => Outcome(false, Emitted(t))
    case Next(t, next) =>
      var rest := DecodeChunks(data, next, inflate);
      Outcome(rest.ok, Emitted(t) + rest.events)
  }

  lemma StepContinues(data: seq<byte>, off: nat, inflate: Inflater)
    requires off <= |data| && ChunkStep(data, off, inflate).Next?
    ensures var st := ChunkStep(data, off, inflate);
      var rest := DecodeChunks(data, st.next, inflate);
      DecodeChunks(data, off, inflate) == Outcome(rest.ok, Emitted(st.tile) + rest.events)
  {
  }

  lemma StepAborts(data: seq<byte>, off: nat, inflate: Inflater)
    requires off <= |data| && ChunkStep(data, off, inflate).Abort?
    ensures DecodeChunks(data, off, inflate) == Outcome(false, Emitted(ChunkStep(data, off, inflate).tile))
  {
  }

  /** eph_load on the whole buffer. */
  function Decode(data: seq<byte>, inflate: Inflater): (r: Outcome) {
    if !HeaderOk(data) then Outcome(false, []) else DecodeChunks(data, FILE_HEADER_SIZE, inflate)
  }

  /**
   * Framing of one chunk: the loop ends exactly at the end of the buffer;
   * a turn that continues consumed 8 + length + 4 bytes; a tile chunk
   * continues only when its declared length is 20 + comp_size, any other
   * chunk only when its declared length is 0; only a tile chunk emits.
   */
  lemma ChunkFraming(data: seq<byte>, off: nat, inflate: Inflater)
    requires off <= |data|
    ensures var st := ChunkStep(data, off, inflate);
      (st == EndOfStream <==> off == |data|) &&
      (st.Next? ==> off + CHUNK_HEADER_SIZE + CRC_SIZE <= |data| &&
                    st.next == off + CHUNK_HEADER_SIZE + I32At(data, off + 4) + CRC_SIZE) &&
      (!st.EndOfStream? && st.tile.Some? ==> IsTileTag(data[off..off + 4])) &&
      (st.Next? && !IsTileTag(data[off..off + 4]) ==> I32At(data, off + 4) == 0) &&
      (st.Next? && IsTileTag(data[off..off + 4]) ==>
         st.tile.Some? && I32At(data, off + 4) == TILE_HEADER_SIZE + I32At(data, off + 24))
  {
  }

  /** The CRC bytes of a chunk never influence the step. */
  lemma CrcIgnored(data: seq<byte>, off: nat, crc: seq<byte>, inflate: Inflater)
    requires off <= |data|
    requires ChunkStep(data, off, inflate).Next?
    requires |crc| == CRC_SIZE
    ensures var k := ChunkStep(data, off, inflate).next - CRC_SIZE;
      ChunkStep(data[..k] + crc + data[k + CRC_SIZE..], off, inflate) == ChunkStep(data, off, inflate)
  {
    var k := ChunkStep(data, off, inflate).next - CRC_SIZE;
    var data' := data[..k] + crc + data[k + CRC_SIZE..];
    assert |data'| == |data|;
    forall i, j | off <= i <= j <= k
      ensures data'[i..j] == data[i..j]
    {
      assert data'[i..j] == data'[..k][i..j];
    }
  }
}
