/** Bit strings, most significant bit first: the common ground of the entropy encoders,
    which append them, and the entropy decoders, which take them apart. */
module Bits {

  type BitSeq = seq<bool>

  function Pow2(n: nat): (r: int)
    ensures r >= 1
  {
    if n == 0 then 1 else 2 * Pow2(n - 1)
  }

  /** The low `n` bits of `v` in two's complement. */
  function ToBits(v: int, n: nat): (b: BitSeq)
    ensures |b| == n
    decreases n
  {
    if n == 0 then [] else ToBits(v / 2, n - 1) + [v % 2 == 1]
  }

  function BitVal(b: bool): (r: nat) { if b then 1 else 0 }

  function Value(b: BitSeq): (r: nat)
    decreases |b|
  {
    if |b| == 0 then 0 else 2 * Value(b[..|b| - 1]) + BitVal(b[|b| - 1])
  }

  lemma {:induction false} Pow2Add(a: nat, b: nat)
    ensures Pow2(a + b) == Pow2(a) * Pow2(b)
  {
    if b > 0 {
      Pow2Add(a, b - 1);
      assert Pow2(a + b) == 2 * Pow2(a + (b - 1));
      assert Pow2(a) * (2 * Pow2(b - 1)) == 2 * (Pow2(a) * Pow2(b - 1));
    }
  }

  lemma Pow2Values()
    ensures Pow2(4) == 16 && Pow2(8) == 256 && Pow2(10) == 1024 && Pow2(15) == 0x8000 && Pow2(16) == 0x1_0000
  {
    assert Pow2(4) == 2 * Pow2(3) == 4 * Pow2(2);
    Pow2Add(4, 4);
    Pow2Add(8, 2);
    Pow2Add(8, 8);
    assert Pow2(16) == 2 * Pow2(15);
  }

  lemma {:induction false} Pow2Mono(a: nat, b: nat)
    requires a <= b
    ensures Pow2(a) <= Pow2(b)
  {
    if a < b {
      Pow2Mono(a, b - 1);
    }
  }

  lemma {:induction false} ValueBound(b: BitSeq)
    ensures Value(b) < Pow2(|b|)
    decreases |b|
  {
    if |b| > 0 {
      ValueBound(b[..|b| - 1]);
    }
  }

  lemma ValueSnoc(b: BitSeq, x: bool)
    ensures Value(b + [x]) == 2 * Value(b) + BitVal(x)
  {
    assert (b + [x])[..|b|] == b;
  }

  /** `n` bits carry every number below 2^n ... */
  lemma {:induction false} ValueToBits(v: int, n: nat)
    requires 0 <= v < Pow2(n)
    ensures Value(ToBits(v, n)) == v
    decreases n
  {
    if n > 0 {
      ValueToBits(v / 2, n - 1);
      ValueSnoc(ToBits(v / 2, n - 1), v % 2 == 1);
    }
  }

  /** ... and two's complement wraps at 2^n. */
  lemma {:induction false} ToBitsWrap(v: int, n: nat)
    ensures ToBits(v + Pow2(n), n) == ToBits(v, n)
    decreases n
  {
    if n > 0 {
      ToBitsWrap(v / 2, n - 1);
      assert (v + Pow2(n)) / 2 == v / 2 + Pow2(n - 1);
    }
  }

  lemma {:induction false} ToBitsOfValue(b: BitSeq)
    ensures ToBits(Value(b), |b|) == b
    decreases |b|
  {
    if |b| > 0 {
      var p := b[..|b| - 1];
      ToBitsOfValue(p);
      assert p + [b[|b| - 1]] == b;
      assert Value(b) / 2 == Value(p);
    }
  }

  lemma {:induction false} ValueConcat(a: BitSeq, b: BitSeq)
    ensures Value(a + b) == Value(a) * Pow2(|b|) + Value(b)
    decreases |b|
  {
    if |b| == 0 {
      assert a + b == a;
    } else {
      var p := b[..|b| - 1];
      assert (a + b)[..|a + b| - 1] == a + p;
      ValueConcat(a, p);
      MulDouble(Value(a), Pow2(|p|));
    }
  }

  lemma MulDouble(x: int, y: int)
    ensures x * (2 * y) == 2 * (x * y)
  {
  }

  /** Splitting a bit field: high part, then low part. */
  lemma {:induction false} ToBitsConcat(hi: int, lo: int, m: nat, n: nat)
    requires 0 <= lo < Pow2(n)
    ensures ToBits(hi * Pow2(n) + lo, m + n) == ToBits(hi, m) + ToBits(lo, n)
    decreases n
  {
    if n == 0 {
      assert ToBits(hi, m) + ToBits(lo, n) == ToBits(hi, m);
    } else {
      var v := hi * Pow2(n) + lo;
      assert v == 2 * (hi * Pow2(n - 1)) + lo;
      assert v / 2 == hi * Pow2(n - 1) + lo / 2;
      ToBitsConcat(hi, lo / 2, m, n - 1);
    }
  }

  /** Dropping low bits of a number keeps a prefix of its bits. */
  lemma {:induction false} ToBitsPrefix(v: int, n: nat, l: nat)
    requires l <= n
    ensures ToBits(v, n)[..l] == ToBits(v / Pow2(n - l), l)
    decreases n
  {
    if l < n {
      ToBitsPrefix(v / 2, n - 1, l);
      var m := n - 1 - l;
      DivDiv(v, Pow2(m));
      assert ToBits(v, n)[..l] == ToBits(v / 2, n - 1)[..l];
    }
  }

  lemma DivDiv(v: int, p: int)
    requires p > 0
    ensures v / 2 / p == v / (2 * p)
  {
    var q := v / 2 / p;
    var r := v / 2 % p;
    assert v / 2 == q * p + r;
    var d := v % 2;
    assert v == 2 * (q * p + r) + d;
    assert v == q * (2 * p) + (2 * r + d) by {
      assert 2 * (q * p) == q * (2 * p);
    }
    assert 0 <= 2 * r + d < 2 * p;
    DivUnique(v, 2 * p, q, 2 * r + d);
  }

  lemma DivUnique(v: int, d: int, q: int, r: int)
    requires d > 0 && v == q * d + r && 0 <= r < d
    ensures v / d == q && v % d == r
  {
    var q', r' := v / d, v % d;
    assert (q - q') * d == r' - r;
    MulAtLeast(q - q', d);
  }

  lemma MulAtLeast(x: int, d: int)
    requires d > 0
    ensures x >= 1 ==> x * d >= d
    ensures x <= -1 ==> x * d <= -d
  {
    if x >= 1 {
      assert (x - 1) * d >= 0;
    } else if x <= -1 {
      assert (-1 - x) * d >= 0;
    }
  }

  lemma QuotientAtLeast(f: int, v: int, w: int, lo: int)
    requires 0 <= lo < w && f * w <= v * w + lo
    ensures f <= v
  {
    MulAtLeast(f - v, w);
    assert (f - v) * w == f * w - v * w;
  }

  lemma BlockBound(c: int, m: int, w: int, ctr: int)
    requires 0 <= c < m && 0 <= ctr < w
    ensures 0 <= c * w && c * w + ctr < m * w
  {
    MulAtLeast(m - c, w);
    assert (m - c) * w == m * w - c * w;
    if c > 0 {
      MulAtLeast(c, w);
    }
  }
}
