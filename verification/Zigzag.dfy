/** The order in which the coefficients of a block are sent. */
module Zigzag {
  import opened AcScan

  /** Natural-order position of each zigzag coefficient, in rows of 8.  The two extra rows catch
      decoders that run past the end of a block on corrupt data. */
  const NATURAL_ORDER: seq<seq<nat>> := [
    [ 0,  1,  8, 16,  9,  2,  3, 10],
    [17, 24, 32, 25, 18, 11,  4,  5],
    [12, 19, 26, 33, 40, 48, 41, 34],
    [27, 20, 13,  6,  7, 14, 21, 28],
    [35, 42, 49, 56, 57, 50, 43, 36],
    [29, 22, 15, 23, 30, 37, 44, 51],
    [58, 59, 52, 45, 38, 31, 39, 46],
    [53, 60, 61, 54, 47, 55, 62, 63],
    [63, 63, 63, 63, 63, 63, 63, 63],
    [63, 63, 63, 63, 63, 63, 63, 63]]

  const ZIGZAG_ORDER: seq<seq<nat>> := [
    [ 0,  1,  5,  6, 14, 15, 27, 28],
    [ 2,  4,  7, 13, 16, 26, 29, 42],
    [ 3,  8, 12, 17, 25, 30, 41, 43],
    [ 9, 11, 18, 24, 31, 40, 44, 53],
    [10, 19, 23, 32, 39, 45, 52, 54],
    [20, 22, 33, 38, 46, 51, 55, 60],
    [21, 34, 37, 47, 50, 56, 59, 61],
    [35, 36, 48, 49, 57, 58, 62, 63]]

  function Natural(k: nat): (pos: nat)
    requires k < 80
    ensures pos < 64
  {
    NATURAL_ORDER[k / 8][k % 8]
  }

  lemma NaturalInverse(k: nat)
    requires k < 64
    ensures ZIGZAG_ORDER[Natural(k) / 8][Natural(k) % 8] == k
  {
    if k < 32 {
      UpperInverse(k);
    } else {
      LowerInverse(k);
    }
  }

  lemma UpperInverse(k: nat)
    requires k < 32
    ensures ZIGZAG_ORDER[Natural(k) / 8][Natural(k) % 8] == k
  {
  }

  lemma LowerInverse(k: nat)
    requires 32 <= k < 64
    ensures ZIGZAG_ORDER[Natural(k) / 8][Natural(k) % 8] == k
  {
  }

  lemma NaturalInjective(j: nat, k: nat)
    requires j < 64 && k < 64 && Natural(j) == Natural(k)
    ensures j == k
  {
    hide Natural;
    NaturalInverse(j);
    NaturalInverse(k);
  }

  lemma NaturalOverrun(k: nat)
    requires 64 <= k < 80
    ensures Natural(k) == Natural(63)
  {
  }

  /** A stored block, in zigzag order. */
  function ZigzagOf(b: seq<int>): (z: Block)
    requires |b| == 64
  {
    seq(64, k requires 0 <= k < 64 => b[Natural(k)])
  }

  lemma StoreNatural(b: seq<int>, k: nat, v: int)
    requires |b| == 64 && k < 80
    ensures ZigzagOf(b[Natural(k) := v]) == ZigzagOf(b)[Slot(k) := v]
  {
    hide Natural;
    if k >= 64 {
      NaturalOverrun(k);
    }
    assert Natural(k) == Natural(Slot(k));
    var z, z' := ZigzagOf(b[Natural(k) := v]), ZigzagOf(b)[Slot(k) := v];
    forall j: nat | j < 64
      ensures z[j] == z'[j]
    {
      if Natural(j) == Natural(Slot(k)) {
        NaturalInjective(j, Slot(k));
      }
    }
  }
}
