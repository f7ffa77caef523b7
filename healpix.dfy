/**
 * Decomposition of a HEALPix "nuniq" index into (order, pix), as eph_load
 * computes it for every tile chunk:  order = log2(nuniq / 4) / 2  and
 * pix = nuniq - 4 * (1 << (2 * order)).  The C code goes through a double
 * log2 and truncates; here the logarithm is the exact integer floor-log2,
 * which agrees with the double path on every nuniq the model accepts.
 */
module Healpix {
  import opened Wrappers
  import opened Bytes

  /** Highest order for which 4 * (1 << (2 * order)) fits a 32-bit int. */
  const MAX_ORDER: nat := 14

  function Pow2(k: nat): (r: nat)
    ensures r >= 1
  {
    if k == 0 then 1 else 2 * Pow2(k - 1)
  }

  function Pow4(k: nat): (r: nat)
    ensures r >= 1
  {
    if k == 0 then 1 else 4 * Pow4(k - 1)
  }

  lemma {:induction false} Pow4IsPow2(k: nat)
    ensures Pow4(k) == Pow2(2 * k)
  {
    if k > 0 {
      Pow4IsPow2(k - 1);
      assert Pow2(2 * k) == 4 * Pow2(2 * (k - 1));
    }
  }

  lemma {:induction false} Pow2Monotone(a: nat, b: nat)
    requires a <= b
    ensures Pow2(a) <= Pow2(b)
  {
    if a < b {
      Pow2Monotone(a, b - 1);
    }
  }

  /** The integer floor of log2(n): the unique r with 2^r <= n < 2^(r+1). */
  function FloorLog2(n: nat): (r: nat)
    requires n >= 1
    ensures Pow2(r) <= n < Pow2(r + 1)
  {
    if n == 1 then 0 else 1 + FloorLog2(n / 2)
  }

  lemma FloorLog2Unique(n: nat, k: nat)
    requires Pow2(k) <= n < Pow2(k + 1)
    ensures FloorLog2(n) == k
  {
    var r := FloorLog2(n);
    if r < k {
      Pow2Monotone(r + 1, k);
    } else if r > k {
      Pow2Monotone(k + 1, r);
    }
  }

  /** The pair the callback receives for one tile. */
  datatype TileIndex = TileIndex(order: nat, pix: int)

  /** Offset of the first nuniq of an order: 4 * (1 << (2 * order)). */
  function OrderBase(order: nat): nat {
    4 * Pow4(order)
  }

  /**
   * nuniq -> (order, pix).  A nuniq below 4 would take log2(0) and an order
   * above MAX_ORDER overflows the int product 4 * (1 << (2 * order));
   * both are failures here.
   * The difference nuniq - base is an unsigned 64-bit value stored in an int,
   * assumed to be reduced modulo 2^32 (implementation-defined in C).
   */
  function DecodeNuniq(nuniq: nat): (r: Option<TileIndex>)
  {
    if nuniq < 4 then None
    else
      var order := FloorLog2(nuniq / 4) / 2;
      if order > MAX_ORDER then None
      else Some(TileIndex(order, WrapInt32(nuniq - OrderBase(order))))
  }

  /** Where nuniq / 4 lies for a nuniq of a given order. */
  lemma QuarterRange(nuniq: nat)
    requires nuniq >= 4
    ensures var order := FloorLog2(nuniq / 4) / 2;
      Pow4(order) <= nuniq / 4 < 4 * Pow4(order)
  {
    var k := FloorLog2(nuniq / 4);
    var order := k / 2;
    Pow4IsPow2(order);
    Pow2Monotone(2 * order, k);
    Pow2Monotone(k + 1, 2 * order + 2);
    assert Pow2(2 * order + 2) == 4 * Pow2(2 * order);
  }

  /** The nuniq values that decode are exactly 4 <= nuniq < 2^32. */
  lemma NuniqDomain(nuniq: nat)
    ensures DecodeNuniq(nuniq).Some? <==> 4 <= nuniq < TWO_32
  {
    if nuniq >= 4 {
      var k := FloorLog2(nuniq / 4);
      assert Pow2(30) == 0x4000_0000 by { Pow2Thirty(); }
      if k <= 29 {
        Pow2Monotone(k + 1, 30);
      } else {
        Pow2Monotone(30, k);
      }
    }
  }

  lemma Pow2Thirty()
    ensures Pow2(30) == 0x4000_0000
  {
    assert Pow2(10) == 1024;
    assert Pow2(20) == 1024 * Pow2(10) by { Pow2Add(10, 10); }
    assert Pow2(30) == 1024 * Pow2(20) by { Pow2Add(10, 20); }
  }

  lemma {:induction false} Pow2Add(a: nat, b: nat)
    ensures Pow2(a + b) == Pow2(a) * Pow2(b)
  {
    if a > 0 {
      Pow2Add(a - 1, b);
    }
  }

  lemma QuarterOf(base: nat, pix: nat)
    requires pix < 12 * base
    ensures (4 * base + pix) / 4 == base + pix / 4
    ensures base <= (4 * base + pix) / 4 < 4 * base
  {
  }

  /** Floor-log2 of every nuniq / 4 of an order is 2 * order or 2 * order + 1. */
  lemma OrderOfQuarter(order: nat, q: nat)
    requires Pow4(order) <= q < 4 * Pow4(order)
    ensures q >= 1 && FloorLog2(q) / 2 == order
  {
    Pow4IsPow2(order);
    var p := Pow2(2 * order);
    assert Pow2(2 * order + 1) == 2 * p;
    assert Pow2(2 * order + 2) == 4 * p;
    if q < 2 * p {
      FloorLog2Unique(q, 2 * order);
    } else {
      FloorLog2Unique(q, 2 * order + 1);
    }
  }

  /**
   * Decomposition round trip: every (order, pix) with pix below the
   * 12 * 4^order pixels of that order, and small enough for an int, is
   * recovered from nuniq = 4 * 4^order + pix.
   */
  lemma NuniqRoundTrip(order: nat, pix: nat)
    requires order <= MAX_ORDER
    requires pix < 12 * Pow4(order) && pix < TWO_31
    ensures DecodeNuniq(OrderBase(order) + pix) == Some(TileIndex(order, pix))
  {
    var nuniq := OrderBase(order) + pix;
    OrderOfNuniq(order, pix);
    DecodeAtOrder(nuniq, order);
    assert WrapInt32(pix) == pix by { assert IsInt32(pix); }
    assert nuniq - OrderBase(order) == pix;
  }

  /** The order that the floor-log2 recovers from 4 * 4^order + pix. */
  lemma OrderOfNuniq(order: nat, pix: nat)
    requires pix < 12 * Pow4(order)
    ensures OrderBase(order) + pix >= 4
    ensures FloorLog2((OrderBase(order) + pix) / 4) / 2 == order
  {
    var base := Pow4(order);
    var q := (4 * base + pix) / 4;
    assert base <= q < 4 * base by { QuarterOf(base, pix); }
    OrderOfQuarter(order, q);
  }

  /** DecodeNuniq once the order is known. */
  lemma DecodeAtOrder(nuniq: nat, order: nat)
    requires nuniq >= 4 && order <= MAX_ORDER
    requires FloorLog2(nuniq / 4) / 2 == order
    ensures DecodeNuniq(nuniq) == Some(TileIndex(order, WrapInt32(nuniq - OrderBase(order))))
  {
  }

  /** Every nuniq of order below MAX_ORDER is less than 2^30. */
  lemma SmallOrderBound(order: nat)
    requires order < MAX_ORDER
    ensures 4 * OrderBase(order) <= 0x4000_0000
  {
    Pow4IsPow2(order);
    Pow4IsPow2(order + 2);
    Pow2Monotone(2 * order + 4, 2 * MAX_ORDER + 2);
    assert Pow2(30) == 0x4000_0000 by { Pow2Thirty(); }
  }

  /**
   * The converse: whatever decodes lies in the range of its order, and pix
   * is nuniq minus the order's base, wrapped into an int only at order 14.
   */
  lemma NuniqDecodeSound(nuniq: nat)
    requires DecodeNuniq(nuniq).Some?
    ensures var t := DecodeNuniq(nuniq).value;
      t.order <= MAX_ORDER &&
      OrderBase(t.order) <= nuniq < 4 * OrderBase(t.order) &&
      (t.pix >= 0 ==> nuniq == OrderBase(t.order) + t.pix) &&
      (t.pix < 0 ==> t.order == MAX_ORDER && nuniq == OrderBase(t.order) + t.pix + TWO_32)
  {
    QuarterRange(nuniq);
    NuniqDomain(nuniq);
    var order := FloorLog2(nuniq / 4) / 2;
    var base := OrderBase(order);
    var d := nuniq - base;
    assert DecodeNuniq(nuniq).value == TileIndex(order, WrapInt32(d));
    assert base <= nuniq < 4 * base;
    WrapUnsigned32(d);
    if order < MAX_ORDER {
      SmallOrderBound(order);
    }
  }
}
