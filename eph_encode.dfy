/**
 * The files eph_load accepts, described by how they are written.  A file
 * is the magic, the version and a list of chunk records; the lemmas show
 * that decoding such a file succeeds and makes exactly one callback per
 * tile chunk, in file order, and that every buffer that decodes
 * successfully is such a file, with those callbacks.
 */
module EphEncode {
  import opened Wrappers
  import opened Bytes
  import opened Healpix
  import opened EphFormat

  /** A chunk as the decoder can accept it. */
  datatype ChunkRec =
    | TileChunk(tag: seq<byte>, version: int, nuniq: nat, size: int, comp: seq<byte>, crc: seq<byte>)
    | OtherChunk(tag: seq<byte>, crc: seq<byte>)

  predicate WellFormed(c: ChunkRec) {
    |c.tag| == 4 && |c.crc| == CRC_SIZE &&
    match c
    case TileChunk(tag, version, nuniq, size, comp, _) =>
      IsTileTag(tag) && IsInt32(version) && 4 <= nuniq < TWO_32 && IsInt32(size) &&
      TILE_HEADER_SIZE + |comp| < TWO_31
    case OtherChunk(tag, _) => !IsTileTag(tag)
  }

  predicate AllWellFormed(cs: seq<ChunkRec>) {
    forall i :: 0 <= i < |cs| ==> WellFormed(cs[i])
  }

  /** The declared length of a record's chunk. */
  function PayloadLength(c: ChunkRec): nat {
    if c.TileChunk? then TILE_HEADER_SIZE + |c.comp| else 0
  }

  /** The number of bytes a record's chunk takes in the file. */
  function ChunkSize(c: ChunkRec): nat {
    CHUNK_HEADER_SIZE + PayloadLength(c) + CRC_SIZE
  }

  function EncodeChunk(c: ChunkRec): (r: seq<byte>)
    requires WellFormed(c)
    ensures |r| == ChunkSize(c)
  {
    match c
    case TileChunk(tag, version, nuniq, size, comp, crc) =>
      tag + EncodeI32(TILE_HEADER_SIZE + |comp|) +
      EncodeI32(version) + EncodeU64(nuniq) + EncodeI32(size) + EncodeI32(|comp|) + comp +
      crc
    case OtherChunk(tag, crc) =>
      tag + EncodeI32(0) + crc
  }

  function EncodeChunks(cs: seq<ChunkRec>): seq<byte>
    requires AllWellFormed(cs)
  {
    if cs == [] then [] else EncodeChunk(cs[0]) + EncodeChunks(cs[1..])
  }

  function EncodeFile(cs: seq<ChunkRec>): seq<byte>
    requires AllWellFormed(cs)
  {
    MAGIC + EncodeI32(FILE_VERSION) + EncodeChunks(cs)
  }

  /** The callback a record's chunk produces, if any. */
  function EventOf(c: ChunkRec, inflate: Inflater): Option<TileEvent>
    requires WellFormed(c)
  {
    match c
    case TileChunk(tag, version, nuniq, size, comp, _) =>
      NuniqDomain(nuniq);
      var idx := DecodeNuniq(nuniq).value;
      Some(TileEvent(tag, version, idx.order, idx.pix, inflate(comp, ToUnsignedLong(size))))
    case OtherChunk(_, _) => None
  }

  function EventsOf(cs: seq<ChunkRec>, inflate: Inflater): seq<TileEvent>
    requires AllWellFormed(cs)
  {
    if cs == [] then [] else Emitted(EventOf(cs[0], inflate)) + EventsOf(cs[1..], inflate)
  }

  lemma SliceSplit(s: seq<byte>, i: nat, j: nat, k: nat)
    requires i <= j <= k <= |s|
    ensures s[i..k] == s[i..j] + s[j..k]
  {
  }

  lemma JoinAt(s: seq<byte>, i: nat, j: nat, a: seq<byte>, b: seq<byte>)
    requires i <= j <= |s| && s[i..j] == a && s[j..] == b
    ensures s[i..] == a + b
  {
    assert s[i..] == s[i..j] + s[j..];
  }

  lemma SplitAt(s: seq<byte>, i: nat, a: seq<byte>, b: seq<byte>)
    requires i <= |s| && s[i..] == a + b
    ensures i + |a| <= |s| && s[i..i + |a|] == a && s[i + |a|..] == b
  {
    assert s[i..i + |a|] == s[i..][..|a|];
    assert s[i + |a|..] == s[i..][|a|..];
  }

  lemma SubSlice(s: seq<byte>, i: nat, j: nat, k: nat, l: nat)
    requires i <= j <= k <= l <= |s|
    ensures s[i..l][j - i..k - i] == s[j..k]
  {
    var t := s[i..l][j - i..k - i];
    assert |t| == k - j;
    forall x | 0 <= x < k - j ensures t[x] == s[j..k][x] {
      assert t[x] == s[i..l][j - i + x] == s[j + x];
    }
  }

  lemma PrefixSlice(a: seq<byte>, b: seq<byte>, i: nat, j: nat)
    requires i <= j <= |a|
    ensures (a + b)[i..j] == a[i..j]
  {
  }

  lemma LastSlice(a: seq<byte>, b: seq<byte>)
    ensures (a + b)[|a|..|a| + |b|] == b
  {
  }

  /** Where the fields of a tile record sit in its encoding. */
  lemma TileFields(c: ChunkRec)
    requires WellFormed(c) && c.TileChunk?
    ensures var e := EncodeChunk(c); var n := |c.comp|;
      e[0..4] == c.tag && e[4..8] == EncodeI32(TILE_HEADER_SIZE + n) &&
      e[8..12] == EncodeI32(c.version) && e[12..20] == EncodeU64(c.nuniq) &&
      e[20..24] == EncodeI32(c.size) && e[24..28] == EncodeI32(n) &&
      e[28..28 + n] == c.comp
  {
    var n := |c.comp|;
    var a1 := c.tag + EncodeI32(TILE_HEADER_SIZE + n);
    var a2 := a1 + EncodeI32(c.version);
    var a3 := a2 + EncodeU64(c.nuniq);
    var a4 := a3 + EncodeI32(c.size);
    var a5 := a4 + EncodeI32(n);
    var a6 := a5 + c.comp;
    var e := a6 + c.crc;
    assert e == EncodeChunk(c);
    LastSlice(a5, c.comp);
    PrefixSlice(a6, c.crc, 28, 28 + n);
    LastSlice(a4, EncodeI32(n));
    PrefixSlice(a5, c.comp, 24, 28);
    PrefixSlice(a6, c.crc, 24, 28);
    LastSlice(a3, EncodeI32(c.size));
    PrefixSlice(a4, EncodeI32(n), 20, 24);
    PrefixSlice(a5, c.comp, 20, 24);
    PrefixSlice(a6, c.crc, 20, 24);
    LastSlice(a2, EncodeU64(c.nuniq));
    PrefixSlice(a3, EncodeI32(c.size), 12, 20);
    PrefixSlice(a4, EncodeI32(n), 12, 20);
    PrefixSlice(a5, c.comp, 12, 20);
    PrefixSlice(a6, c.crc, 12, 20);
    LastSlice(a1, EncodeI32(c.version));
    PrefixSlice(a2, EncodeU64(c.nuniq), 8, 12);
    PrefixSlice(a3, EncodeI32(c.size), 8, 12);
    PrefixSlice(a4, EncodeI32(n), 8, 12);
    PrefixSlice(a5, c.comp, 8, 12);
    PrefixSlice(a6, c.crc, 8, 12);
    assert a1[0..4] == c.tag && a1[4..8] == EncodeI32(TILE_HEADER_SIZE + n);
    PrefixSlice(a1, EncodeI32(c.version), 0, 4);
    PrefixSlice(a1, EncodeI32(c.version), 4, 8);
    PrefixSlice(a2, EncodeU64(c.nuniq), 0, 4);
    PrefixSlice(a2, EncodeU64(c.nuniq), 4, 8);
    PrefixSlice(a3, EncodeI32(c.size), 0, 4);
    PrefixSlice(a3, EncodeI32(c.size), 4, 8);
    PrefixSlice(a4, EncodeI32(n), 0, 4);
    PrefixSlice(a4, EncodeI32(n), 4, 8);
    PrefixSlice(a5, c.comp, 0, 4);
    PrefixSlice(a5, c.comp, 4, 8);
    PrefixSlice(a6, c.crc, 0, 4);
    PrefixSlice(a6, c.crc, 4, 8);
  }

  /** The bytes of an encoded chunk are found at its offset in the buffer. */
  lemma Embedded(data: seq<byte>, off: nat, e: seq<byte>, i: nat, j: nat)
    requires off + |e| <= |data| && data[off..off + |e|] == e
    requires i <= j <= |e|
    ensures data[off + i..off + j] == e[i..j]
  {
    SubSlice(data, off, off + i, off + j, off + |e|);
  }

  lemma TileChunkStepAt(data: seq<byte>, off: nat, c: ChunkRec, inflate: Inflater)
    requires WellFormed(c) && c.TileChunk?
    requires off + |EncodeChunk(c)| <= |data| && data[off..off + |EncodeChunk(c)|] == EncodeChunk(c)
    ensures ChunkStep(data, off, inflate) == Next(EventOf(c, inflate), off + |EncodeChunk(c)|)
  {
    var e := EncodeChunk(c);
    var n := |c.comp|;
    TileFields(c);
    Embedded(data, off, e, 0, 4);
    Embedded(data, off, e, 4, 8);
    Embedded(data, off, e, 8, 12);
    Embedded(data, off, e, 12, 20);
    Embedded(data, off, e, 20, 24);
    Embedded(data, off, e, 24, 28);
    Embedded(data, off, e, 28, 28 + n);
    I32RoundTrip(TILE_HEADER_SIZE + n);
    I32RoundTrip(c.version);
    U64RoundTrip(c.nuniq);
    I32RoundTrip(c.size);
    I32RoundTrip(n);
    NuniqDomain(c.nuniq);
    var idx := DecodeNuniq(c.nuniq).value;
    var ev := TileEvent(c.tag, c.version, idx.order, idx.pix, inflate(c.comp, ToUnsignedLong(c.size)));
    assert TilePayload(data, off + 8, c.tag, TILE_HEADER_SIZE + n, inflate) == Some((ev, off + 28 + n));
  }

  /** An encoded chunk anywhere in a buffer is one successful loop turn. */
  lemma ChunkStepAt(data: seq<byte>, off: nat, c: ChunkRec, inflate: Inflater)
    requires WellFormed(c)
    requires off + |EncodeChunk(c)| <= |data| && data[off..off + |EncodeChunk(c)|] == EncodeChunk(c)
    ensures ChunkStep(data, off, inflate) == Next(EventOf(c, inflate), off + |EncodeChunk(c)|)
  {
    if c.TileChunk? {
      TileChunkStepAt(data, off, c, inflate);
    } else {
      var e := EncodeChunk(c);
      assert e[0..4] == c.tag && e[4..8] == EncodeI32(0);
      Embedded(data, off, e, 0, 4);
      Embedded(data, off, e, 4, 8);
      I32RoundTrip(0);
    }
  }

  lemma {:induction false} DecodeChunksAt(data: seq<byte>, off: nat, cs: seq<ChunkRec>, inflate: Inflater)
    requires AllWellFormed(cs)
    requires off <= |data| && data[off..] == EncodeChunks(cs)
    ensures DecodeChunks(data, off, inflate) == Outcome(true, EventsOf(cs, inflate))
    decreases cs
  {
    if cs == [] {
      assert |data[off..]| == 0;
    } else {
      var c, tail := cs[0], cs[1..];
      var e := EncodeChunk(c);
      var next := off + |e|;
      var ev := EventOf(c, inflate);
      TailWellFormed(cs);
      var rest := EncodeChunks(tail);
      assert data[off..] == e + rest;
      assert next <= |data| && data[off..next] == e && data[next..] == rest by {
        SplitAt(data, off, e, rest);
      }
      assert ChunkStep(data, off, inflate) == Next(ev, next) by {
        ChunkStepAt(data, off, c, inflate);
      }
      assert DecodeChunks(data, next, inflate) == Outcome(true, EventsOf(tail, inflate)) by {
        DecodeChunksAt(data, next, tail, inflate);
      }
      StepContinues(data, off, inflate);
      assert EventsOf(cs, inflate) == Emitted(ev) + EventsOf(tail, inflate) by {
        assert cs[1..] == tail;
      }
    }
  }

  /**
   * Decoding an encoded file succeeds and makes one callback per tile
   * chunk, in order, carrying that chunk's tag, version, decomposed nuniq
   * and inflated bytes; the CRC bytes are arbitrary.
   */
  lemma DecodeEncoded(cs: seq<ChunkRec>, inflate: Inflater)
    requires AllWellFormed(cs)
    ensures Decode(EncodeFile(cs), inflate) == Outcome(true, EventsOf(cs, inflate))
  {
    var data := EncodeFile(cs);
    assert data[..4] == MAGIC;
    assert data[4..8] == EncodeI32(FILE_VERSION);
    assert data[8..] == EncodeChunks(cs);
    I32RoundTrip(FILE_VERSION);
    DecodeChunksAt(data, FILE_HEADER_SIZE, cs, inflate);
  }

  /** A successful turn over a tile chunk reads the encoding of a tile record. */
  lemma TileChunkParsed(data: seq<byte>, off: nat, inflate: Inflater) returns (c: ChunkRec)
    requires off <= |data| && ChunkStep(data, off, inflate).Next?
    requires IsTileTag(data[off..off + 4])
    ensures WellFormed(c)
    ensures var st := ChunkStep(data, off, inflate);
      data[off..st.next] == EncodeChunk(c) && st.tile == EventOf(c, inflate)
  {
    var st := ChunkStep(data, off, inflate);
    var p := off + CHUNK_HEADER_SIZE;
    var length := I32At(data, off + 4);
    var version := I32At(data, p);
    var nuniq := U64At(data, p + 4);
    var size := I32At(data, p + 12);
    var n := I32At(data, p + 16);
    var k := st.next - CRC_SIZE;
    assert n >= 0 && k == p + 20 + n && length == TILE_HEADER_SIZE + n by {
      ChunkFraming(data, off, inflate);
    }
    var comp := data[p + 20..k];
    var crc := data[k..st.next];
    NuniqDomain(nuniq);
    c := TileChunk(data[off..off + 4], version, nuniq, size, comp, crc);
    assert st.tile == EventOf(c, inflate);
    assert data[off..st.next] == EncodeChunk(c) by {
      I32Canonical(data[off + 4..off + 8]);
      I32Canonical(data[p..p + 4]);
      U64Canonical(data[p + 4..p + 12]);
      I32Canonical(data[p + 12..p + 16]);
      I32Canonical(data[p + 16..p + 20]);
      SliceSplit(data, off, off + 4, off + 8);
      SliceSplit(data, off, off + 8, p + 4);
      SliceSplit(data, off, p + 4, p + 12);
      SliceSplit(data, off, p + 12, p + 16);
      SliceSplit(data, off, p + 16, p + 20);
      SliceSplit(data, off, p + 20, k);
      SliceSplit(data, off, k, st.next);
    }
  }

  /** The first chunk of a successful decode that does not start at the end. */
  lemma SoundHead(data: seq<byte>, off: nat, inflate: Inflater) returns (c: ChunkRec, next: nat)
    requires off < |data| && DecodeChunks(data, off, inflate).ok
    ensures off < next <= |data| && WellFormed(c)
    ensures data[off..next] == EncodeChunk(c)
    ensures DecodeChunks(data, next, inflate).ok
    ensures DecodeChunks(data, off, inflate).events ==
      Emitted(EventOf(c, inflate)) + DecodeChunks(data, next, inflate).events
  {
    var st := ChunkStep(data, off, inflate);
    assert st.Next? by {
      if st.Abort? {
        StepAborts(data, off, inflate);
      }
    }
    c := ChunkStepParsed(data, off, inflate);
    next := st.next;
    StepContinues(data, off, inflate);
  }

  /** A successful loop turn reads exactly the encoding of some record. */
  lemma ChunkStepParsed(data: seq<byte>, off: nat, inflate: Inflater) returns (c: ChunkRec)
    requires off <= |data| && ChunkStep(data, off, inflate).Next?
    ensures WellFormed(c)
    ensures var st := ChunkStep(data, off, inflate);
      data[off..st.next] == EncodeChunk(c) && st.tile == EventOf(c, inflate)
  {
    var st := ChunkStep(data, off, inflate);
    var tag := data[off..off + 4];
    if IsTileTag(tag) {
      c := TileChunkParsed(data, off, inflate);
    } else {
      var crc := data[off + 8..st.next];
      c := OtherChunk(tag, crc);
      assert st.next == off + 12 && I32At(data, off + 4) == 0 by {
        ChunkFraming(data, off, inflate);
      }
      I32Canonical(data[off + 4..off + 8]);
      SliceSplit(data, off, off + 4, off + 8);
      SliceSplit(data, off, off + 8, st.next);
    }
  }

  lemma {:induction false} DecodeChunksSound(data: seq<byte>, off: nat, inflate: Inflater) returns (cs: seq<ChunkRec>)
    requires off <= |data| && DecodeChunks(data, off, inflate).ok
    ensures AllWellFormed(cs)
    ensures data[off..] == EncodeChunks(cs)
    ensures DecodeChunks(data, off, inflate).events == EventsOf(cs, inflate)
    decreases |data| - off
  {
    if off == |data| {
      cs := [];
    } else {
      var c, next := SoundHead(data, off, inflate);
      var rest := DecodeChunksSound(data, next, inflate);
      cs := [c] + rest;
      var e, tail := EncodeChunk(c), EncodeChunks(rest);
      assert AllWellFormed(cs) && EncodeChunks(cs) == e + tail by {
        EncodeCons(c, rest);
      }
      assert EventsOf(cs, inflate) == Emitted(EventOf(c, inflate)) + EventsOf(rest, inflate) by {
        assert cs[1..] == rest;
      }
      assert data[off..] == e + tail by {
        JoinAt(data, off, next, e, tail);
      }
    }
  }

  /**
   * Every buffer eph_load decodes successfully is the encoding of a list of
   * well-formed records, and the callbacks are that list's tile events.
   */
  lemma DecodeSound(data: seq<byte>, inflate: Inflater) returns (cs: seq<ChunkRec>)
    requires Decode(data, inflate).ok
    ensures AllWellFormed(cs)
    ensures data == EncodeFile(cs)
    ensures Decode(data, inflate).events == EventsOf(cs, inflate)
  {
    assert Decode(data, inflate) == DecodeChunks(data, FILE_HEADER_SIZE, inflate);
    cs := DecodeChunksSound(data, FILE_HEADER_SIZE, inflate);
    I32Canonical(data[4..8]);
    assert data[4..8] == EncodeI32(FILE_VERSION);
    assert data == data[..4] + data[4..8] + data[8..];
  }

  /**
   * A file holding a chunk tagged "data" and then a tile chunk tagged "STAR"
   * with nuniq 18 = 4 * 4^1 + 2 makes one callback, for order 1 and pix 2,
   * whatever the sign of its inflated size; nothing of the first chunk
   * reaches the callback.
   */
  lemma LowercaseThenTile(comp: seq<byte>, size: int, crc1: seq<byte>, crc2: seq<byte>, inflate: Inflater)
    requires |crc1| == CRC_SIZE && |crc2| == CRC_SIZE
    requires IsInt32(size) && TILE_HEADER_SIZE + |comp| < TWO_31
    ensures var other := OtherChunk([0x64, 0x61, 0x74, 0x61], crc1);
      var tile := TileChunk([0x53, 0x54, 0x41, 0x52], 1, 18, size, comp, crc2);
      AllWellFormed([other, tile]) &&
      Decode(EncodeFile([other, tile]), inflate) ==
        Outcome(true, [TileEvent([0x53, 0x54, 0x41, 0x52], 1, 1, 2, inflate(comp, ToUnsignedLong(size)))])
  {
    var other := OtherChunk([0x64, 0x61, 0x74, 0x61], crc1);
    var tile := TileChunk([0x53, 0x54, 0x41, 0x52], 1, 18, size, comp, crc2);
    var cs := [other, tile];
    var ev := TileEvent([0x53, 0x54, 0x41, 0x52], 1, 1, 2, inflate(comp, ToUnsignedLong(size)));
    assert AllWellFormed(cs);
    assert EventOf(tile, inflate) == Some(ev) by {
      NuniqRoundTrip(1, 2);
      assert OrderBase(1) + 2 == 18;
    }
    assert EventsOf(cs, inflate) == [ev] by {
      assert cs[1..] == [tile] && [tile][1..] == [];
      assert EventsOf([tile], inflate) == [ev];
    }
    DecodeEncoded(cs, inflate);
  }

  /** The declared-length field of an encoded chunk. */
  lemma LengthField(c: ChunkRec)
    requires WellFormed(c)
    ensures EncodeChunk(c)[4..8] == EncodeI32(PayloadLength(c))
  {
    if c.TileChunk? {
      TileFields(c);
    } else {
      var a := c.tag + EncodeI32(0);
      assert EncodeChunk(c) == a + c.crc;
      PrefixSlice(a, c.crc, 4, 8);
      LastSlice(c.tag, EncodeI32(0));
    }
  }

  /** A buffer that ends k bytes into an encoded chunk holds its first k bytes. */
  lemma Truncated(data: seq<byte>, off: nat, e: seq<byte>, k: nat, i: nat, j: nat)
    requires off <= |data| && k <= |e| && data[off..] == e[..k]
    requires i <= j <= k
    ensures data[off + i..off + j] == e[i..j]
  {
    forall x | 0 <= x < j - i ensures data[off + i..off + j][x] == e[i..j][x] {
      assert data[off + i + x] == data[off..][i + x] == e[..k][i + x];
    }
  }

  /**
   * A buffer that ends strictly inside an encoded chunk makes the turn at
   * that chunk fail: either the header is cut, or the declared length asks
   * for bytes past the end.
   */
  lemma TruncatedChunkAborts(data: seq<byte>, off: nat, c: ChunkRec, k: nat, inflate: Inflater)
    requires WellFormed(c) && 0 < k < |EncodeChunk(c)|
    requires off <= |data| && data[off..] == EncodeChunk(c)[..k]
    ensures ChunkStep(data, off, inflate).Abort?
  {
    var e := EncodeChunk(c);
    assert |data| == off + k;
    if k >= CHUNK_HEADER_SIZE {
      assert data[off + 4..off + 8] == EncodeI32(PayloadLength(c)) by {
        Truncated(data, off, e, k, 4, 8);
        LengthField(c);
      }
      I32RoundTrip(PayloadLength(c));
      ChunkFraming(data, off, inflate);
    }
  }

  /** Whether the first k bytes of the encoded list end on a chunk boundary. */
  predicate ChunkBoundary(cs: seq<ChunkRec>, k: nat)
    decreases cs
  {
    k == 0 || (cs != [] && ChunkSize(cs[0]) <= k && ChunkBoundary(cs[1..], k - ChunkSize(cs[0])))
  }

  /** Taking a prefix that reaches past the first piece of a concatenation. */
  lemma TakePastFirst(e: seq<byte>, rest: seq<byte>, front: seq<byte>, k: nat)
    requires |e| <= k <= |e| + |rest| && rest[..k - |e|] == front
    ensures (e + rest)[..k] == e + front
  {
  }

  /** Encoding a list with one more chunk in front. */
  lemma EncodeCons(c: ChunkRec, cs: seq<ChunkRec>)
    requires WellFormed(c) && AllWellFormed(cs)
    ensures AllWellFormed([c] + cs)
    ensures EncodeChunks([c] + cs) == EncodeChunk(c) + EncodeChunks(cs)
  {
    assert ([c] + cs)[1..] == cs;
  }

  lemma TailWellFormed(cs: seq<ChunkRec>)
    requires AllWellFormed(cs) && cs != []
    ensures AllWellFormed(cs[1..])
  {
    forall i | 0 <= i < |cs| - 1 ensures WellFormed(cs[1..][i]) {
      assert cs[1..][i] == cs[i + 1];
    }
  }

  /** Equal prefixes of two concatenations agree on the length field. */
  lemma SameField(x: seq<byte>, p: seq<byte>, y: seq<byte>, q: seq<byte>, k: nat)
    requires 8 <= |x| && 8 <= |y| <= k <= |x| + |p| && (x + p)[..k] == y + q
    ensures x[4..8] == y[4..8]
  {
    assert (x + p)[..k][4..8] == x[4..8];
    assert (y + q)[4..8] == y[4..8];
  }

  /** Dropping a first piece of the same length from both sides. */
  lemma DropFirst(x: seq<byte>, p: seq<byte>, y: seq<byte>, q: seq<byte>, k: nat)
    requires |x| == |y| <= k <= |x| + |p| && (x + p)[..k] == y + q
    ensures p[..k - |x|] == q
  {
    assert (x + p)[..k][|x|..] == p[..k - |x|];
    assert (y + q)[|y|..] == q;
  }

  /** Two well-formed chunks whose encodings start the same bytes have the same size. */
  lemma SameChunkSize(a: ChunkRec, b: ChunkRec, p: seq<byte>, q: seq<byte>, k: nat)
    requires WellFormed(a) && WellFormed(b)
    requires |EncodeChunk(b)| <= k <= |EncodeChunk(a)| + |p| && (EncodeChunk(a) + p)[..k] == EncodeChunk(b) + q
    ensures ChunkSize(a) == ChunkSize(b)
  {
    SameField(EncodeChunk(a), p, EncodeChunk(b), q, k);
    LengthField(a);
    LengthField(b);
    I32RoundTrip(PayloadLength(a));
    I32RoundTrip(PayloadLength(b));
  }

  /**
   * If the first k bytes of an encoded list are themselves an encoded list,
   * k is a chunk boundary: the length fields leave no other way to frame them.
   */
  lemma {:induction false} PrefixBoundary(cs: seq<ChunkRec>, ds: seq<ChunkRec>, k: nat)
    requires AllWellFormed(cs) && AllWellFormed(ds)
    requires k <= |EncodeChunks(cs)| && EncodeChunks(cs)[..k] == EncodeChunks(ds)
    ensures ChunkBoundary(cs, k)
    decreases ds
  {
    if ds != [] {
      TailWellFormed(ds);
      var d, e := EncodeChunk(ds[0]), EncodeChunks(ds[1..]);
      assert EncodeChunks(ds) == d + e;
      assert 0 < k <= |EncodeChunks(cs)|;
      TailWellFormed(cs);
      var c, r := EncodeChunk(cs[0]), EncodeChunks(cs[1..]);
      assert EncodeChunks(cs) == c + r;
      assert ChunkSize(cs[0]) == ChunkSize(ds[0]) by {
        SameChunkSize(cs[0], ds[0], r, e, k);
      }
      var n := ChunkSize(cs[0]);
      assert r[..k - n] == e by {
        DropFirst(c, r, d, e, k);
      }
      PrefixBoundary(cs[1..], ds[1..], k - n);
    }
  }

  /** The chunk bytes that end on a boundary encode a prefix of the list. */
  lemma {:induction false} BoundaryPrefix(cs: seq<ChunkRec>, k: nat) returns (j: nat)
    requires AllWellFormed(cs) && ChunkBoundary(cs, k)
    ensures j <= |cs| && AllWellFormed(cs[..j])
    ensures k <= |EncodeChunks(cs)| && EncodeChunks(cs)[..k] == EncodeChunks(cs[..j])
    decreases cs
  {
    if k == 0 {
      j := 0;
    } else {
      var c, tail := cs[0], cs[1..];
      var e := EncodeChunk(c);
      TailWellFormed(cs);
      var j' := BoundaryPrefix(tail, k - |e|);
      j := j' + 1;
      var front := EncodeChunks(tail[..j']);
      assert cs[..j] == [c] + tail[..j'];
      assert AllWellFormed(cs[..j]) && EncodeChunks(cs[..j]) == e + front by {
        EncodeCons(c, tail[..j']);
      }
      assert EncodeChunks(cs) == e + EncodeChunks(tail);
      assert (e + EncodeChunks(tail))[..k] == e + front by {
        TakePastFirst(e, EncodeChunks(tail), front, k);
      }
    }
  }

  /**
   * A cut on a chunk boundary is itself an encoded file, of the first j
   * chunks, and decodes successfully with those chunks' callbacks.
   */
  lemma TruncatedAtBoundary(cs: seq<ChunkRec>, k: nat, inflate: Inflater) returns (j: nat)
    requires AllWellFormed(cs) && ChunkBoundary(cs, k)
    ensures j <= |cs| && AllWellFormed(cs[..j])
    ensures FILE_HEADER_SIZE + k <= |EncodeFile(cs)|
    ensures EncodeFile(cs)[..FILE_HEADER_SIZE + k] == EncodeFile(cs[..j])
    ensures Decode(EncodeFile(cs)[..FILE_HEADER_SIZE + k], inflate) == Outcome(true, EventsOf(cs[..j], inflate))
  {
    j := BoundaryPrefix(cs, k);
    var head := MAGIC + EncodeI32(FILE_VERSION);
    assert EncodeFile(cs) == head + EncodeChunks(cs);
    assert (head + EncodeChunks(cs))[..FILE_HEADER_SIZE + k] == head + EncodeChunks(cs)[..k];
    DecodeEncoded(cs[..j], inflate);
  }
  /** A cut of an encoded file that decodes keeps the header and ends on a chunk boundary. */
  lemma AcceptedCut(cs: seq<ChunkRec>, k: nat, inflate: Inflater)
    requires AllWellFormed(cs) && k <= |EncodeFile(cs)|
    requires Decode(EncodeFile(cs)[..k], inflate).ok
    ensures FILE_HEADER_SIZE <= k && ChunkBoundary(cs, k - FILE_HEADER_SIZE)
  {
    var data := EncodeFile(cs)[..k];
    var head := MAGIC + EncodeI32(FILE_VERSION);
    var ds := DecodeSound(data, inflate);
    var whole, cut := EncodeChunks(cs), EncodeChunks(ds);
    assert EncodeFile(cs) == head + whole;
    assert data == head + cut;
    assert whole[..k - FILE_HEADER_SIZE] == cut by {
      DropFirst(head, whole, head, cut, k);
    }
    PrefixBoundary(cs, ds, k - FILE_HEADER_SIZE);
  }

  /**
   * A cut of an encoded file decodes successfully exactly when it keeps the
   * whole header and ends on a chunk boundary; every other cut fails.
   */
  lemma TruncatedFile(cs: seq<ChunkRec>, k: nat, inflate: Inflater)
    requires AllWellFormed(cs) && k <= |EncodeFile(cs)|
    ensures Decode(EncodeFile(cs)[..k], inflate).ok <==>
      FILE_HEADER_SIZE <= k && ChunkBoundary(cs, k - FILE_HEADER_SIZE)
  {
    if Decode(EncodeFile(cs)[..k], inflate).ok {
      AcceptedCut(cs, k, inflate);
    }
    if FILE_HEADER_SIZE <= k && ChunkBoundary(cs, k - FILE_HEADER_SIZE) {
      var j := TruncatedAtBoundary(cs, k - FILE_HEADER_SIZE, inflate);
    }
  }

}
