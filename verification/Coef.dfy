/** Arithmetic on DCT coefficients: the point transforms of progressive coding, the
    magnitude-category code of T.81 sections F.1.2.1 and F.1.2.2, and correction bits. */
module Coef {
  import opened Bits
  import opened Reading

  function Abs(c: int): (a: nat) { if c < 0 then -c else c }

  /** Arithmetic shift right. */
  function Shr(v: int, k: nat): (r: int)
    ensures v >= 0 ==> r >= 0
    decreases k
  {
    if k == 0 then v else Shr(v / 2, k - 1)
  }

  /** Point transform for AC coefficients: the magnitude without its low `al` bits. */
  function Mag(c: int, al: nat): (a: nat) { Shr(Abs(c), al) }

  /** An AC coefficient at precision `al`: truncated toward zero to a multiple of 2^al. */
  function Trunc(c: int, al: nat): int
  {
    if c < 0 then -(Mag(c, al) * Pow2(al)) else Mag(c, al) * Pow2(al)
  }

  /** A DC coefficient at precision `al`: rounded down to a multiple of 2^al. */
  function Floor(c: int, al: nat): int
  {
    Shr(c, al) * Pow2(al)
  }

  /** Number of bits in a magnitude. */
  function BitLen(n: nat): (b: nat)
    ensures n < Pow2(b)
    ensures n > 0 ==> b > 0 && Pow2(b - 1) <= n
  {
    if n == 0 then 0 else 1 + BitLen(n / 2)
  }

  /** The appended bits for a value of magnitude category `n`: its low bits, or those of the
      complement of its magnitude when it is negative. */
  function MagBits(v: int, n: nat): (b: BitSeq)
    ensures |b| == n
  {
    ToBits(if v < 0 then v - 1 else v, n)
  }

  /** HUFF_EXTEND. */
  function Extend(x: int, s: nat): int
    requires s >= 1
  {
    if x < Pow2(s - 1) then x + 1 - Pow2(s) else x
  }

  lemma ExtendMag(v: int, rest: BitSeq)
    requires v != 0
    ensures BitLen(Abs(v)) >= 1
    ensures Take(BitLen(Abs(v)), MagBits(v, BitLen(Abs(v))) + rest).Got?
    ensures Extend(Take(BitLen(Abs(v)), MagBits(v, BitLen(Abs(v))) + rest).value, BitLen(Abs(v))) == v
    ensures Take(BitLen(Abs(v)), MagBits(v, BitLen(Abs(v))) + rest).rest == rest
  {
    var n := BitLen(Abs(v));
    var x := if v < 0 then v - 1 + Pow2(n) else v;
    ToBitsWrap(v - 1, n);
    TakeToBits(x, n, rest);
  }

  lemma {:induction false} BitLenBound(n: nat, b: nat)
    requires n < Pow2(b)
    ensures BitLen(n) <= b
  {
    if BitLen(n) > b {
      Pow2Mono(b, BitLen(n) - 1);
    }
  }

  /** Bit `al` of a two's complement coefficient. */
  predicate BitSet(c: int, al: nat) { Shr(c, al) % 2 == 1 }

  /** Appending a correction bit to a nonzero coefficient: its magnitude grows by 2^al when
      the bit is 1, unless an earlier, interrupted attempt already did so. */
  function Correct(c: int, bit: bool, al: nat): int
  {
    if bit && !BitSet(c, al) then (if c >= 0 then c + Pow2(al) else c - Pow2(al)) else c
  }

  lemma CorrectKeepsNonzero(c: int, bit: bool, al: nat)
    requires c != 0
    ensures Correct(c, bit, al) != 0
  {
  }

  lemma {:induction false} ShrAdd(c: int, q: int, k: nat)
    ensures Shr(c + q * Pow2(k), k) == Shr(c, k) + q
    decreases k
  {
    if k > 0 {
      MulDouble(q, Pow2(k - 1));
      ShrAdd(c / 2, q, k - 1);
    }
  }

  lemma {:induction false} ShrHalves(v: int, k: nat)
    ensures Shr(v, k + 1) == Shr(v, k) / 2
    decreases k
  {
    if k > 0 {
      ShrHalves(v / 2, k - 1);
    }
  }

  lemma {:induction false} ShrOfZero(k: nat)
    ensures Shr(0, k) == 0
  {
    if k > 0 {
      ShrOfZero(k - 1);
    }
  }

  /** Applying the same correction bit again changes nothing. */
  lemma CorrectTwice(c: int, bit: bool, al: nat)
    ensures Correct(Correct(c, bit, al), bit, al) == Correct(c, bit, al)
  {
    ShrAdd(c, 1, al);
    ShrAdd(c, -1, al);
  }

  lemma MultipleNotSet(h: int, al: nat)
    ensures !BitSet(h * Pow2(al + 1), al)
  {
    hide Shr;
    ShrAdd(0, 2 * h, al);
    ShrOfZero(al);
    TwiceProduct(h, al);
  }

  lemma TwiceProduct(h: int, al: nat)
    ensures 0 + (2 * h) * Pow2(al) == h * Pow2(al + 1)
  {
    MulDouble(h, Pow2(al));
  }

  lemma TruncMag(c: int, al: nat)
    ensures Trunc(c, al) == 0 <==> Mag(c, al) == 0
    ensures Mag(c, al) > 0 ==> (Trunc(c, al) < 0 <==> c < 0)
  {
    MulAtLeast(Mag(c, al), Pow2(al));
  }

  /** How one refinement step changes a coefficient, by its magnitude at the new precision. */
  lemma TruncStep(c: int, al: nat)
    ensures Mag(c, al) == 0 ==> Trunc(c, al + 1) == Trunc(c, al) == 0
    ensures Mag(c, al) == 1 ==> Trunc(c, al + 1) == 0 && Trunc(c, al) == (if c < 0 then -Pow2(al) else Pow2(al))
    ensures Mag(c, al) > 1 ==> Trunc(c, al + 1) != 0
    ensures Mag(c, al) > 1 ==> Trunc(c, al) == Correct(Trunc(c, al + 1), Mag(c, al) % 2 == 1, al)
  {
    ShrHalves(Abs(c), al);
    TruncMag(c, al + 1);
    var h := Mag(c, al) / 2;
    assert Mag(c, al) == 2 * h + Mag(c, al) % 2;
    DoubleProduct(h, Mag(c, al) % 2, Pow2(al));
    MultipleNotSet(h, al);
    MultipleNotSet(-h, al);
  }

  lemma DoubleProduct(h: int, d: int, p: int)
    requires d == 0 || d == 1
    ensures (2 * h + d) * p == h * (2 * p) + (if d == 1 then p else 0)
    ensures -h * (2 * p) == -(h * (2 * p))
  {
  }

  lemma TruncZero(c: int)
    ensures Trunc(c, 0) == c && Floor(c, 0) == c
  {
  }

  /** How one DC refinement step changes a coefficient. */
  lemma FloorStep(c: int, al: nat)
    ensures !BitSet(Floor(c, al + 1), al)
    ensures Floor(c, al) == Floor(c, al + 1) + (if BitSet(c, al) then Pow2(al) else 0)
  {
    ShrHalves(c, al);
    MultipleNotSet(Shr(c, al) / 2, al);
    DoubleProduct(Shr(c, al) / 2, Shr(c, al) % 2, Pow2(al));
  }
}
