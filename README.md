# EPHE chunked tile file decoder

A Dafny model of `eph_load` in `src/eph-file.c`, the Stellarium Web Engine
reader for the EPHE container. The model covers the parts below.

- The file header: the 4-byte magic `"EPHE"` and the int32 file version 2.
- The chunk list. Each chunk is a 4-byte type, an int32 length, the payload
  and a 4-byte CRC.
- Tile chunks, whose type starts with an uppercase ASCII letter. Their
  payload is a version, a HEALPix `nuniq`, the inflated size, the
  compressed size and the compressed bytes.
- For each tile, the callback that receives the type, the version, the
  `(order, pix)` decomposition of `nuniq` and the inflated bytes.

The model has these modules:

- `Bytes`: the little-endian integer codec behind the `READ` macro. It also
  holds the conversions to a 32-bit C `int`.
- `Healpix`: the `nuniq -> (order, pix)` split. It uses an exact integer
  floor-log2 in place of the double `log2`.
- `EphFormat`: the pure specification of what one turn of the chunk loop
  does (`ChunkStep`), what the whole loop yields (`DecodeChunks`) and what
  `eph_load` yields (`Decode`).
- `EphFile`: the decoder as the C code runs it. It has a `Cursor` class
  for the `*data` / `*data_size` pair, which both advance in place. It has
  a `Chunk` class for `chunk_t`, which is reset at every chunk start and
  whose `pos` grows with every payload read. Its `Load` method drives the
  `while (chunk_read_start(...))` loop. Each method is proved against the
  `EphFormat` functions.
- `EphEncode`: a writer for the accepted files, which is the partner of
  the decoder. Decoding an encoded file yields exactly one callback per
  tile chunk, in order. Conversely, every buffer that decodes successfully
  is such an encoding, and its callbacks are those of the decoded chunks.

Every `CHECK` failure and every `assert` failure in the C code is the single
terminal outcome `Aborted(events)`. `events` holds the callbacks already
made. The callback of a tile chunk fires before `chunk_read_finish` runs.
So a tile whose chunk then fails to close still appears in `events`.
`eph_load` itself always returns 0 (`Returned(0, events)`).

Behaviour taken from the code:

- A chunk whose type does not start with `'A'`-`'Z'` is not skipped. No
  payload byte of it is read, so `chunk_read_finish` succeeds only when
  its declared length is 0. Such a chunk is exactly 12 bytes: tag,
  length 0 and CRC.
- The return values of `uncompress` and of the callback are not looked at.
  A decompression failure therefore does not change the outcome. The
  callback receives whatever bytes the inflater delivered.
- A buffer cut short is a successful file exactly when the cut keeps the
  8-byte header and falls on a chunk boundary. It then decodes as the file
  of the chunks before the cut. A cut anywhere else fails: a cut inside the
  file header fails a header check, and a cut inside a chunk makes
  `chunk_read_start`'s 8-byte check or one of the chunk's reads run out of
  bytes (`EphEncode.TruncatedFile`, `EphEncode.TruncatedAtBoundary`).
- A negative inflated `size` does not stop the tile. The int32 is stored in
  an `unsigned long` (a defined conversion, modulo 2^64 on a 64-bit
  `unsigned long`), and that value goes to `uncompress`. The callback then
  fires and the loop goes on (`Bytes.ToUnsignedLong`,
  `EphEncode.LowercaseThenTile`).
- A tile's `pix` ranges over the 12 * 4^order pixels of its order. It is
  stored in an `int`, so at order 14 the values of pix from 2^31 up become
  negative ints (`Healpix.NuniqDecodeSound`). C leaves that out-of-range
  conversion implementation-defined; the model assumes the modulo-2^32
  reduction that GCC and Clang define.

The inflater (zlib `uncompress`) is a parameter of type `Inflater`. It maps
the compressed bytes and the declared size, as an `unsigned long`, to the delivered bytes.

## Model

| member | source | states |
|---|---|---|
| Bytes.DecodeEncodeLE | src/eph-file.c:57-64 | decoding the n-byte little-endian encoding of any x < 256^n gives back x |
| Bytes.EncodeDecodeLE | src/eph-file.c:57-64 | re-encoding the value of a byte string, at the same width, gives the same bytes |
| Bytes.ToInt32 | src/eph-file.c:60 | an int32_t read from a 32-bit pattern is in the int range and equals the pattern or the pattern minus 2^32 |
| Bytes.I32RoundTrip | src/eph-file.c:57-64 | the int32 read of the 4-byte encoding of any int returns that int |
| Bytes.I32Canonical | src/eph-file.c:57-64 | every 4 bytes are the encoding of the int32 read from them, so the int32 read loses nothing |
| Bytes.U64RoundTrip | src/eph-file.c:57-64 | the uint64 read of the 8-byte encoding of any x < 2^64 returns x |
| Bytes.U64Canonical | src/eph-file.c:57-64 | every 8 bytes are the encoding of the uint64 read from them |
| Bytes.WrapInt32 | src/eph-file.c:126 | storing a wider integer in an int gives a value in the int range, congruent to it modulo 2^32, and unchanged when it already fits |
| Bytes.ToUnsignedLong | src/eph-file.c:127 | storing the int32 size in an unsigned long gives a value below 2^64, congruent to it modulo 2^64, and unchanged when it is not negative |
| Bytes.WrapUnsigned32 | src/eph-file.c:126 | on an unsigned 32-bit difference the stored int is that difference below 2^31 and the difference minus 2^32 from 2^31 up |
| Healpix.FloorLog2 | src/eph-file.c:125 | the integer log2 r of n >= 1 satisfies 2^r <= n < 2^(r+1) |
| Healpix.FloorLog2Unique | src/eph-file.c:125 | any k with 2^k <= n < 2^(k+1) is the floor-log2 of n |
| Healpix.NuniqDomain | src/eph-file.c:124-126 | a nuniq decomposes exactly when 4 <= nuniq < 2^32: below 4 log2(0) is taken, above that the order exceeds 14 and the int product 4 * (1 << (2 * order)) overflows |
| Healpix.NuniqRoundTrip | src/eph-file.c:124-126 | for order <= 14 and 0 <= pix < 12 * 4^order (and pix < 2^31), nuniq = 4 * 4^order + pix decomposes to exactly (order, pix) |
| Healpix.NuniqDecodeSound | src/eph-file.c:124-126 | every decomposed nuniq lies in [4 * 4^order, 16 * 4^order) of its order; pix = nuniq - 4 * 4^order when pix >= 0, and a negative pix happens only at order 14 and is that difference minus 2^32 |
| EphFormat.Finish | src/eph-file.c:77-83 | closing a chunk succeeds exactly when the consumed payload equals the declared length and 4 CRC bytes remain; it then moves past the CRC and keeps the chunk's callback |
| EphFormat.ChunkStep | src/eph-file.c:120-137 | a turn that continues moves strictly forward and stays inside the buffer |
| EphFormat.ChunkFraming | src/eph-file.c:120-137 | the loop ends exactly at the end of the buffer; a turn that continues consumes 8 + length + 4 bytes; only a tile chunk makes a callback; another chunk closes only with length 0, and a tile chunk only with length 20 + comp_size |
| EphFormat.CrcIgnored | src/eph-file.c:77-83 | replacing a chunk's 4 CRC bytes by any 4 bytes leaves the turn unchanged |
| EphFormat.TilePayloadInBounds | src/eph-file.c:122-136 | an accepted tile hands inflate exactly the comp_size bytes after the 20-byte tile header, inside the chunk and the buffer, with the chunk's tag and the declared size as the unsigned long it is stored in |
| EphFormat.NegativeCompSizeAccepted | src/eph-file.c:128-131 | the two checks of chunk_read pass a comp_size of -1 in a chunk of length 20, while memcpy is then asked for more bytes than remain |
| EphEncode.EncodeChunk | src/eph-file.c:25-38 | an encoded chunk is 8 + its payload length + 4 bytes long |
| EphEncode.ChunkStepAt | src/eph-file.c:120-137 | an encoded well-formed chunk at any offset is one successful turn that emits that chunk's callback and moves past its bytes |
| EphEncode.DecodeChunksAt | src/eph-file.c:120-138 | a buffer tail that encodes a chunk list is read to end of stream, emitting the list's callbacks in order |
| EphEncode.DecodeEncoded | src/eph-file.c:102-140 | eph_load on an encoded file succeeds, with one callback per tile chunk, in file order, carrying its tag, version, order, pix and inflated bytes |
| EphEncode.ChunkStepParsed | src/eph-file.c:120-137 | every successful turn read exactly the encoding of some well-formed chunk, and its callback is that chunk's |
| EphEncode.DecodeChunksSound | src/eph-file.c:120-138 | a buffer tail on which the loop succeeds is the encoding of a well-formed chunk list, and the callbacks are that list's |
| EphEncode.DecodeSound | src/eph-file.c:102-140 | every buffer eph_load accepts is the encoding of a well-formed chunk list, and the callbacks made are exactly that list's tile callbacks |
| EphEncode.TruncatedChunkAborts | src/eph-file.c:66-94 | a buffer tail that holds only a proper, non-empty prefix of a well-formed chunk's encoding makes the turn abort: chunk_read_start, chunk_read or chunk_read_finish runs out of bytes |
| EphEncode.PrefixBoundary | src/eph-file.c:66-75 | if the first k bytes of an encoded chunk list are themselves the encoding of a chunk list, k is a chunk boundary of the first list, because the int32 length fields fix the framing |
| EphEncode.AcceptedCut | src/eph-file.c:102-140 | a cut of an encoded file that eph_load accepts keeps the whole header and ends on a chunk boundary |
| EphEncode.TruncatedAtBoundary | src/eph-file.c:102-140 | a cut of an encoded file 8 + k bytes long, with k on a chunk boundary, is the encoding of the first j chunks and decodes successfully to exactly their callbacks |
| EphEncode.TruncatedFile | src/eph-file.c:102-140 | eph_load accepts a cut of an encoded file if and only if the cut keeps the 8-byte header and ends on a chunk boundary |
| EphEncode.LowercaseThenTile | src/eph-file.c:122-136 | a "data" chunk followed by a "STAR" tile with nuniq 18 makes one callback, for order 1 and pix 2, whatever the sign of the tile's inflated size, and nothing for the "data" chunk |
| EphFile.Cursor.constructor | src/eph-file.c:102 | the cursor starts at position 0 with the whole buffer remaining |
| EphFile.Cursor.ReadBytes | src/eph-file.c:57-64 | a read of n bytes succeeds exactly when n bytes remain; it then returns buf[pos..pos+n] and moves the position up and the remaining count down by n; on failure nothing moves; remaining == len - pos is kept |
| EphFile.Cursor.ReadInt32 | src/eph-file.c:57-64 | READ of an int32_t succeeds exactly when 4 bytes remain and returns the little-endian int32 at the position |
| EphFile.Chunk.constructor | src/eph-file.c:44-52 | a chunk starts with a zero type, length and pos |
| EphFile.Chunk.ReadStart | src/eph-file.c:66-75 | the chunk is reset (pos = 0); end of stream exactly when nothing remains; failure exactly when 1-7 bytes remain; otherwise the tag and the int32 length are read and the cursor moves by 8 |
| EphFile.Chunk.Read | src/eph-file.c:85-94 | pos grows by size before the checks; the read succeeds exactly when the new pos is still <= length and size bytes remain, which is exactly the guard of chunk_read as written (`EphFormat.ChunkReadAcceptsAsWritten`), and then returns those bytes |
| EphFile.Chunk.ReadInt32 | src/eph-file.c:96-100 | CHUNK_READ of an int32_t: pos grows by 4, and on success the little-endian int32 at the cursor is returned |
| EphFile.Chunk.ReadUint64 | src/eph-file.c:96-100 | CHUNK_READ of a uint64_t: pos grows by 8, and on success the little-endian uint64 at the cursor is returned |
| EphFile.Chunk.ReadFinish | src/eph-file.c:77-83 | closing succeeds exactly when pos == length and 4 bytes remain, and then consumes exactly those 4 CRC bytes |
| EphFile.ReadTile | src/eph-file.c:122-136 | the tile branch succeeds exactly when the tile payload specification accepts; the callback's arguments and the new cursor position are the specified ones |
| EphFile.ReadChunk | src/eph-file.c:120-137 | one turn of the loop returns exactly the specified step and leaves the cursor at the step's next offset |
| EphFile.LoadChunk | src/eph-file.c:120-138 | one turn keeps the loop invariant: the callbacks made so far followed by what the rest of the buffer yields are the whole result |
| EphFile.ReadHeader | src/eph-file.c:114-119 | the header is accepted exactly when the buffer has 8 bytes, starts with "EPHE" and holds version 2 at bytes 4-7 |
| EphFile.Load | src/eph-file.c:102-140 | eph_load returns (always 0) exactly when the file decodes; the callbacks made are the specified ones; a bad header aborts before any callback |

## Left out

- zlib `uncompress` is a parameter (`Inflater`), not modelled. Its status and the size it reports back are not separate outputs. The callback receives the delivered bytes.
- `malloc` and `free` of the two staging buffers are not modelled. They have no behaviour to state.
- The double `log2` is replaced by exact integer floor-log2. The two agree on every nuniq the model accepts, since those nuniq are below 2^32. A nuniq below 4 (`log2(0)`) and an order above 14 (the `int` overflow of `4 * (1 << (2 * order))`) are aborts in the model. In C they are undefined behaviour.
- A negative `comp_size` is an abort in the model. In C the value becomes a huge `size_t` for `memcpy`, which is undefined behaviour (see Findings).
- The 32-bit `int` arithmetic on `pos`, `length` and `data_size` is not modelled. These values are unbounded integers here. `data_size` and the cursor position stay within the buffer length. `chunk_read` adds `size` to `c->pos` before any check (src/eph-file.c:88), so with `pos` at 20 a comp_size above INT_MAX - 20 overflows `c->pos` whatever the buffer length. The outcome still agrees with the model, which aborts. Without the wrap, the assert `c->pos <= c->length` fails, because the length is an int. This signed overflow is undefined behaviour in C, like the cases above, so nothing forces either reading. If the sum does wrap to a negative value, the assert passes but the CHECK `*data_size >= size` (src/eph-file.c:90) fails, because such a comp_size exceeds any remaining int size.
- The host byte order of the `memcpy` reads is fixed to little-endian, `unsigned long` is taken to be 64 bits wide, as on LP64 hosts, and converting an out-of-range value to `int` is taken to reduce it modulo 2^32. C leaves that conversion implementation-defined; GCC and Clang define it that way.
- The chunk's writer-side `buffer` field, the `crc` field and `CHUNK_BUFF_SIZE` are not modelled. They are not used while reading.
- The consumer of the callback is not modelled. Each callback is recorded as a `TileEvent` in a trace. The `size` argument is the length of the delivered data.
- `CHECK` is defined in swe.h, which is not part of this model. Each `CHECK` failure is the single outcome `Aborted`, like each `assert` failure.
- The `assert(data)` null-pointer check is not modelled. A buffer is always present here.
- Healpix.NuniqRoundTrip: it is stated only for order <= 14 and pix < 2^31. Larger orders overflow the C int product 4 * (1 << (2 * order)). At order 14, a pix from 2^31 up comes back wrapped to a negative int, as NuniqDecodeSound states.

## Findings

| source | as written | input that shows it | evidently intended | confidence | as-written member | corrected member |
|---|---|---|---|---|---|---|
| src/eph-file.c:128-131 | `comp_size` is read as a signed int32. `chunk_read` checks only `c->pos + size <= c->length` and `*data_size >= size`, and both pass for a negative size. | A tile chunk of length 20 with comp_size = -1. `chunk_read` accepts it, then `memcpy` copies (size_t)-1 bytes, far past the buffer. | A negative comp_size rejects the tile, so only bytes inside the chunk and the buffer are handed to `uncompress`. | not executed | EphFormat.NegativeCompSizeAccepted | EphFormat.TilePayloadInBounds |
