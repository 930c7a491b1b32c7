/** Output dimensions of the decompressor: every component of an image has the same number of row groups. */
module OutputSize {
  import opened Bits
  import opened ContextRows
  import opened MainControl

  const DCTSIZE: nat := 8

  /** jdiv_round_up. */
  function DivRoundUp(a: nat, b: nat): (q: nat)
    requires b > 0
    ensures q * b >= a && (q == 0 ==> a == 0) && (q > 0 ==> (q - 1) * b < a)
  {
    var q := (a + b - 1) / b;
    Quotients(a + b - 1, b);
    q
  }

  lemma Quotients(a: int, b: int)
    requires a >= 0 && b > 0
    ensures a / b >= 0 && a / b * b <= a < a / b * b + b && (a / b - 1) * b == a / b * b - b
  {
  }

  /** A component with this sampling factor, at scaled size `size`, has no more samples than the largest. */
  predicate Fits(samp: nat, size: nat, maxSamp: nat, minSize: nat) { samp * size <= maxSamp * minSize }

  lemma Doubled(samp: nat, size: nat, maxSamp: nat, minSize: nat)
    ensures Fits(samp, size * 2, maxSamp, minSize) <==> samp * size * 2 <= maxSamp * minSize
  {
    assert samp * (size * 2) == samp * size * 2;
  }

  ghost predicate DoublingOf(size: nat, minSize: nat) { exists k: nat :: size == minSize * Pow2(k) }

  lemma NotDoubled(minSize: nat)
    ensures DoublingOf(minSize, minSize)
  {
    assert minSize == minSize * Pow2(0);
  }

  lemma DoubledAgain(size: nat, minSize: nat)
    requires DoublingOf(size, minSize)
    ensures DoublingOf(size * 2, minSize)
  {
    var k: nat :| size == minSize * Pow2(k);
    assert size * 2 == minSize * Pow2(k + 1);
  }

  /** The scaled DCT size of a component: as large as possible, in powers of two, without scaling it up past the
      component with the most samples. */
  method ScaledSize(hSamp: nat, vSamp: nat, maxH: nat, maxV: nat, minSize: nat) returns (ssize: nat)
    requires minSize > 0
    ensures DoublingOf(ssize, minSize) && ssize >= minSize && (ssize == minSize || ssize < 16)
    ensures ssize == minSize || (Fits(hSamp, ssize, maxH, minSize) && Fits(vSamp, ssize, maxV, minSize))
    ensures ssize >= 8 || !Fits(hSamp, ssize * 2, maxH, minSize) || !Fits(vSamp, ssize * 2, maxV, minSize)
  {
    hide Fits, DoublingOf;
    ssize := minSize;
    NotDoubled(minSize);
    Doubled(hSamp, ssize, maxH, minSize);
    Doubled(vSamp, ssize, maxV, minSize);
    while ssize < DCTSIZE && hSamp * ssize * 2 <= maxH * minSize && vSamp * ssize * 2 <= maxV * minSize
      invariant DoublingOf(ssize, minSize) && ssize >= minSize && (ssize == minSize || ssize < 2 * DCTSIZE)
      invariant ssize == minSize || (Fits(hSamp, ssize, maxH, minSize) && Fits(vSamp, ssize, maxV, minSize))
      invariant Fits(hSamp, ssize * 2, maxH, minSize) <==> hSamp * ssize * 2 <= maxH * minSize
      invariant Fits(vSamp, ssize * 2, maxV, minSize) <==> vSamp * ssize * 2 <= maxV * minSize
      decreases 2 * DCTSIZE - ssize
    {
      DoubledAgain(ssize, minSize);
      ssize := ssize * 2;
      Doubled(hSamp, ssize, maxH, minSize);
      Doubled(vSamp, ssize, maxV, minSize);
    }
  }

  /** Row groups of an image, which is no matter of its components. */
  function RowGroups(imageHeight: nat, maxV: nat, m: nat): nat
    requires maxV > 0
  {
    DivRoundUp(imageHeight * m, maxV * DCTSIZE)
  }

  lemma CancelScale(a: int, b: int, d: int)
    requires d > 0
    ensures a * d < b * d ==> a < b
  {
    if a >= b {
      assert (a - b) * d >= 0;
      assert (a - b) * d == a * d - b * d;
    }
  }

  lemma HeightAbove(q: int, d: int, g: int, h: int, n: int)
    requires d > 0 && n > 0 && g * d < q && n * q <= h * d
    ensures n * g < h
  {
    assert n * (q - g * d) > 0;
    assert n * (q - g * d) == n * q - (n * g) * d;
    CancelScale(n * g, h, d);
  }

  lemma HeightBelow(q: int, d: int, g: int, h: int, n: int)
    requires d > 0 && n > 0 && q <= g * d && h * d < n * q
    ensures h < n * g
  {
    assert n * (g * d - q) >= 0;
    assert n * (g * d - q) == (n * g) * d - n * q;
    CancelScale(h, n * g, d);
  }

  /** A component whose row groups have `n` rows: its height is that of the row groups of the image, the last one
      perhaps incomplete. */
  lemma SameRowGroups(imageHeight: nat, maxV: nat, m: nat, n: nat)
    requires imageHeight > 0 && maxV > 0 && m >= 2 && n > 0
    ensures RowGroups(imageHeight, maxV, m) > 0
    ensures CompOk(Comp(n, n * m, DivRoundUp(imageHeight * (n * m), maxV * 8)), m,
        RowGroups(imageHeight, maxV, m))
  {
    hide DivRoundUp;
    var d, q := maxV * DCTSIZE, imageHeight * m;
    var g, h := DivRoundUp(q, d), DivRoundUp(imageHeight * (n * m), d);
    MulAtLeast(imageHeight, m);
    assert imageHeight * (n * m) == n * q;
    MulAtLeast(n, q);
    HeightAbove(q, d, g - 1, h, n);
    HeightBelow(q, d, g, h - 1, n);
    Scaled(2, m, n);
    assert m * n == n * m;
  }

  /** The number of iMCU rows. */
  lemma IMcuRows(imageHeight: nat, maxV: nat, m: nat)
    requires imageHeight > 0 && maxV > 0 && m >= 2
    ensures DivRoundUp(imageHeight, maxV * 8) == (RowGroups(imageHeight, maxV, m) - 1) / m + 1
  {
    hide DivRoundUp;
    var d, q := maxV * DCTSIZE, imageHeight * m;
    var k, g := DivRoundUp(imageHeight, d), DivRoundUp(q, d);
    MulAtLeast(imageHeight, m);
    assert m * imageHeight == q;
    HeightAbove(imageHeight, d, k - 1, g, m);
    HeightBelow(imageHeight, d, k, g - 1, m);
    assert (k - 1) * m == m * (k - 1) == m * k - m;
    DivUnique(g - 1, m, k - 1, g - 1 - (k - 1) * m);
  }
}
