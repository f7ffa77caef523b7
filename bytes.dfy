/**
 * Fixed-width integers as the decoder reads them from the buffer.
 * The C code copies bytes into an int32_t or uint64_t with memcpy, so it
 * uses the host byte order; this model assumes little-endian order.
 */
module Bytes {
  /** One octet of the buffer. */
  type byte = x: int | 0 <= x < 256

  const TWO_31: int := 0x8000_0000
  const TWO_32: int := 0x1_0000_0000
  const TWO_64: int := 0x1_0000_0000_0000_0000

  predicate IsInt32(x: int) {
    -TWO_31 <= x < TWO_31
  }

  function Pow256(n: nat): (r: nat)
    ensures r >= 1
  {
    if n == 0 then 1 else 256 * Pow256(n - 1)
  }

  lemma Pow256Values()
    ensures Pow256(4) == TWO_32 && Pow256(8) == TWO_64
  {
  }

  /** The unsigned value of a little-endian byte string. */
  function DecodeLE(s: seq<byte>): (r: nat)
    ensures r < Pow256(|s|)
  {
    if s == [] then 0 else s[0] as nat + 256 * DecodeLE(s[1..])
  }

  /** The n-byte little-endian representation of x modulo 256^n. */
  function EncodeLE(x: nat, n: nat): (r: seq<byte>)
    ensures |r| == n
  {
    if n == 0 then [] else [(x % 256) as byte] + EncodeLE(x / 256, n - 1)
  }

  lemma {:induction false} DecodeEncodeLE(x: nat, n: nat)
    requires x < Pow256(n)
    ensures DecodeLE(EncodeLE(x, n)) == x
  {
    if n > 0 {
      var e := EncodeLE(x, n);
      var lo, hi := x % 256, x / 256;
      assert hi < Pow256(n - 1) && x == lo + 256 * hi by {
        DivModSplit(x, Pow256(n - 1));
      }
      assert e[0] as nat == lo;
      assert e[1..] == EncodeLE(hi, n - 1);
      DecodeEncodeLE(hi, n - 1);
      assert DecodeLE(e) == e[0] as nat + 256 * DecodeLE(e[1..]);
    }
  }


  lemma {:induction false} EncodeDecodeLE(s: seq<byte>)
    ensures EncodeLE(DecodeLE(s), |s|) == s
  {
    if s != [] {
      EncodeDecodeLE(s[1..]);
      DivModByte(s[0] as nat, DecodeLE(s[1..]));
      var e := EncodeLE(DecodeLE(s), |s|);
      assert e[0] == s[0];
      assert e[1..] == s[1..];
    }
  }

  lemma DivModSplit(x: nat, m: nat)
    requires x < 256 * m
    ensures x / 256 < m && x == x % 256 + 256 * (x / 256)
  {
  }

  lemma DivModByte(b: nat, d: nat)
    requires b < 256
    ensures (b + 256 * d) % 256 == b && (b + 256 * d) / 256 == d
  {
  }

  /** Two's-complement reading of a 32-bit pattern (the int32_t memcpy). */
  function ToInt32(u: nat): (r: int)
    requires u < TWO_32
    ensures IsInt32(r) && (r == u || r == u - TWO_32)
  {
    if u < TWO_31 then u else u - TWO_32
  }

  /**
   * The conversion of a wider integer to a 32-bit C int, as done when
   * an unsigned 64-bit result is assigned to an int.  C leaves an
   * out-of-range conversion implementation-defined; this model assumes the
   * GCC and Clang choice, the value modulo 2^32 brought into the int32 range.
   */
  function WrapInt32(x: int): (r: int)
    ensures IsInt32(r) && (x - r) % TWO_32 == 0
    ensures IsInt32(x) ==> r == x
  {
    (x + TWO_31) % TWO_32 - TWO_31
  }

  /**
   * Storing an int32 in a 64-bit `unsigned long`: the value modulo 2^64, so
   * a negative value becomes a huge size and a non-negative one is kept.
   */
  function ToUnsignedLong(x: int): (r: nat)
    requires IsInt32(x)
    ensures r < TWO_64 && (r - x) % TWO_64 == 0
    ensures x >= 0 ==> r == x
  {
    if x < 0 then x + TWO_64 else x
  }

  /** On an unsigned 32-bit value, the wrap is the two's-complement reading. */
  lemma WrapUnsigned32(x: int)
    requires 0 <= x < TWO_32
    ensures WrapInt32(x) == if x < TWO_31 then x else x - TWO_32
  {
  }

  /** READ(…, int32_t): four little-endian bytes read as a two's-complement int. */
  function DecodeI32(s: seq<byte>): (r: int)
    requires |s| == 4
    ensures IsInt32(r)
  {
    Pow256Values();
    ToInt32(DecodeLE(s))
  }

  /** READ(…, uint64_t): eight little-endian bytes. */
  function DecodeU64(s: seq<byte>): (r: nat)
    requires |s| == 8
    ensures r < TWO_64
  {
    Pow256Values();
    DecodeLE(s)
  }

  function EncodeI32(x: int): (r: seq<byte>)
    requires IsInt32(x)
    ensures |r| == 4
  {
    EncodeLE(if x >= 0 then x else x + TWO_32, 4)
  }

  function EncodeU64(x: nat): (r: seq<byte>)
    requires x < TWO_64
    ensures |r| == 8
  {
    EncodeLE(x, 8)
  }

  lemma I32RoundTrip(x: int)
    requires IsInt32(x)
    ensures DecodeI32(EncodeI32(x)) == x
  {
    Pow256Values();
    DecodeEncodeLE(if x >= 0 then x else x + TWO_32, 4);
  }

  lemma I32Canonical(s: seq<byte>)
    requires |s| == 4
    ensures EncodeI32(DecodeI32(s)) == s
  {
    Pow256Values();
    EncodeDecodeLE(s);
  }

  lemma U64RoundTrip(x: nat)
    requires x < TWO_64
    ensures DecodeU64(EncodeU64(x)) == x
  {
    Pow256Values();
    DecodeEncodeLE(x, 8);
  }

  lemma U64Canonical(s: seq<byte>)
    requires |s| == 8
    ensures EncodeU64(DecodeU64(s)) == s
  {
    EncodeDecodeLE(s);
  }
}
