/** What a progressive AC scan sends, said without the recursion of its specification: the symbols before a
    coefficient (T.81, figures G.3 and G.7), and when a run of ended bands goes out (figures G.4 to G.6). */
module AcLaws {
  import opened Bits
  import opened Coef
  import opened AcScan
  import opened AcRoundTrip

  // ---------------------------------------------------------------- the point transform

  /** Shifting right divides, rounding down. */
  lemma {:induction false} ShrDivides(v: int, k: nat)
    ensures Shr(v, k) * Pow2(k) <= v < Shr(v, k) * Pow2(k) + Pow2(k)
    decreases k
  {
    if k > 0 {
      ShrDivides(v / 2, k - 1);
      MulDouble(Shr(v, k), Pow2(k - 1));
      assert Shr(v, k) * Pow2(k - 1) * 2 == Shr(v, k) * Pow2(k);
    }
  }

  /** Only one number of steps of `p` fits. */
  lemma OneQuotient(a: int, b: int, p: int, v: int)
    requires p > 0 && a * p <= v < a * p + p && b * p <= v < b * p + p
    ensures a == b
  {
    QuotientAtLeast(a, b, p, v - b * p);
    QuotientAtLeast(b, a, p, v - a * p);
  }

  /** The multiples of 2^al around a coefficient: truncated toward zero, and rounded down. */
  lemma PrecisionLaw(c: int, al: nat)
    ensures Trunc(c, al) == (if c < 0 then -1 else 1) * (Mag(c, al) * Pow2(al))
    ensures Mag(c, al) * Pow2(al) <= Abs(c) < Mag(c, al) * Pow2(al) + Pow2(al)
    ensures Floor(c, al) == Shr(c, al) * Pow2(al) <= c < Floor(c, al) + Pow2(al)
  {
    hide Shr, Pow2;
    ShrDivides(Abs(c), al);
    ShrDivides(c, al);
  }

  lemma ZeroMag(c: int, al: nat)
    ensures Mag(c, al) == 0 <==> Abs(c) < Pow2(al)
    ensures Mag(c, al) <= 1 <==> Abs(c) < 2 * Pow2(al)
  {
    hide Shr, Pow2;
    ShrDivides(Abs(c), al);
    var m, p := Mag(c, al), Pow2(al);
    if m > 0 {
      MulLess(1, m, p);
    }
    if m > 1 {
      MulLess(2, m, p);
    }
  }

  // ---------------------------------------------------------------- magnitude categories

  lemma CategoryLaw(v: int, n: nat)
    requires n > 0 && Pow2(n - 1) <= Abs(v) < Pow2(n)
    ensures BitLen(Abs(v)) == n
    ensures |MagBits(v, n)| == n && Value(MagBits(v, n)) == if v > 0 then v else Pow2(n) - 1 + v
  {
    var b := BitLen(Abs(v));
    if b < n {
      Pow2Mono(b, n - 1);
    } else if b > n {
      Pow2Mono(n, b - 1);
    }
    if v > 0 {
      ValueToBits(v, n);
    } else {
      ToBitsWrap(v - 1, n);
      ValueToBits(v - 1 + Pow2(n), n);
    }
  }

  // ---------------------------------------------------------------- first pass: the symbols of a coefficient

  /** Run lengths of 16. */
  function Sixteens(q: nat): (s: seq<Token>) { seq(q, _ => Sym(0xF0)) }

  lemma {:induction false} Skipped(sc: Scan, z: Block, k: nat, m: nat, e: nat, r: nat)
    requires sc.Valid() && sc.ss <= k <= m <= e <= sc.se + 1 && forall i | k <= i < m :: Mag(z[i], sc.al) == 0
    ensures InitialHead(sc, z, k, e, r) == InitialHead(sc, z, m, e, r + m - k)
    decreases m - k
  {
    hide Mag, SignedMag, MagBits, BitLen;
    if k < m {
      Skipped(sc, z, k + 1, m, e, r + 1);
    }
  }

  lemma SixteenSent(sc: Scan, z: Block, m: nat, e: nat, r: nat)
    requires sc.Valid() && sc.ss <= m < e <= sc.se + 1 && Mag(z[m], sc.al) != 0 && r >= 16
    ensures InitialHead(sc, z, m, e, r) == [Sym(0xF0)] + InitialHead(sc, z, m, e, r - 16)
  {
    hide Mag, SignedMag, MagBits, BitLen;
  }

  lemma {:induction false} SixteensSent(sc: Scan, z: Block, m: nat, e: nat, q: nat, r: nat)
    requires sc.Valid() && sc.ss <= m < e <= sc.se + 1 && Mag(z[m], sc.al) != 0
    ensures InitialHead(sc, z, m, e, 16 * q + r) == Sixteens(q) + InitialHead(sc, z, m, e, r)
    decreases q
  {
    hide Mag, InitialHead;
    var rest := InitialHead(sc, z, m, e, r);
    if q == 0 {
      assert Sixteens(0) + rest == rest;
    } else {
      SixteensSent(sc, z, m, e, q - 1, r);
      SixteenSent(sc, z, m, e, 16 * q + r);
      assert Sixteens(q) == [Sym(0xF0)] + Sixteens(q - 1);
      assert [Sym(0xF0)] + (Sixteens(q - 1) + rest) == [Sym(0xF0)] + Sixteens(q - 1) + rest;
    }
  }

  /** A coefficient of value `v` at the precision of the scan, of `n` bits, after `16 * q + r` zeroes: that many run
      lengths of 16, then the run of the remaining zeroes with the number of bits, then the bits of the value. */
  lemma FirstPassLaw(sc: Scan, z: Block, k: nat, m: nat, e: nat, zeros: nat, q: nat, r: nat, v: int, n: nat)
    requires sc.Valid() && sc.ss <= k <= m < e <= sc.se + 1
    requires forall i | k <= i < m :: Abs(z[i]) < Pow2(sc.al)
    requires Abs(v) * Pow2(sc.al) <= Abs(z[m]) < Abs(v) * Pow2(sc.al) + Pow2(sc.al) && (v < 0 <==> z[m] < 0)
    requires n > 0 && Pow2(n - 1) <= Abs(v) < Pow2(n) && zeros + (m - k) == 16 * q + r && r < 16
    ensures InitialHead(sc, z, k, e, zeros)
        == Sixteens(q) + [Sym(16 * r + n), Raw(MagBits(v, n))] + InitialHead(sc, z, m + 1, e, 0)
  {
    hide Shr, Pow2, BitLen, MagBits;
    forall i | k <= i < m
      ensures Mag(z[i], sc.al) == 0
    {
      ZeroMag(z[i], sc.al);
    }
    ShrDivides(Abs(z[m]), sc.al);
    OneQuotient(Mag(z[m], sc.al), Abs(v), Pow2(sc.al), Abs(z[m]));
    CategoryLaw(v, n);
    Skipped(sc, z, k, m, e, zeros);
    SixteensSent(sc, z, m, e, q, r);
    var two, rest := [Sym(16 * r + n), Raw(MagBits(v, n))], InitialHead(sc, z, m + 1, e, 0);
    assert InitialHead(sc, z, m, e, r) == two + rest;
    assert Sixteens(q) + (two + rest) == Sixteens(q) + two + rest;
  }

  // ---------------------------------------------------------------- refinement: the symbols of a coefficient

  /** How many coefficients from `k` to `m` are zero at precision `al`. */
  function Zeros(al: nat, z: Block, k: nat, m: nat): (n: nat)
    requires k <= m <= 64
    ensures n <= m - k
    decreases m - k
  {
    if k == m then 0 else (if Abs(z[k]) < Pow2(al) then 1 else 0) + Zeros(al, z, k + 1, m)
  }

  /** Not one that becomes nonzero in the scan. */
  predicate NotNew(al: nat, c: int) { Abs(c) < Pow2(al) || Abs(c) >= 2 * Pow2(al) }

  /** Up to `m` the coefficients only count as zeroes or add correction bits; none of those comes after 16 zeroes. */
  predicate Plain(sc: Scan, z: Block, k: nat, m: nat, r: nat)
    requires k <= m <= 64
  {
    forall i | k <= i < m :: NotNew(sc.al, z[i]) && (Abs(z[i]) >= Pow2(sc.al) ==> r + Zeros(sc.al, z, k, i) <= 15)
  }

  lemma {:induction false} PlainRefine(sc: Scan, z: Block, k: nat, m: nat, e: nat, r: nat, br: BitSeq)
    requires sc.Valid() && sc.ss <= k <= m <= e <= sc.se + 1 && Plain(sc, z, k, m, r)
    ensures RefineHead(sc, z, k, e, r, br)
        == RefineHead(sc, z, m, e, r + Zeros(sc.al, z, k, m), br + Corrections(sc.al, z, k, m))
    decreases m - k
  {
    hide Mag, Pow2;
    if k == m {
      assert br + [] == br;
    } else {
      ZeroMag(z[k], sc.al);
      PlainNext(sc, z, k, m, r);
      var b := [Mag(z[k], sc.al) % 2 == 1];
      if Abs(z[k]) < Pow2(sc.al) {
        PlainRefine(sc, z, k + 1, m, e, r + 1, br);
      } else {
        PlainFirst(sc, z, k, m, r);
        PlainRefine(sc, z, k + 1, m, e, r, br + b);
        assert br + b + Corrections(sc.al, z, k + 1, m) == br + (b + Corrections(sc.al, z, k + 1, m));
      }
    }
  }

  lemma PlainNext(sc: Scan, z: Block, k: nat, m: nat, r: nat)
    requires k < m <= 64 && Plain(sc, z, k, m, r)
    ensures Plain(sc, z, k + 1, m, r + if Abs(z[k]) < Pow2(sc.al) then 1 else 0) && NotNew(sc.al, z[k])
  {
    hide Pow2;
    forall i | k + 1 <= i < m
      ensures NotNew(sc.al, z[i])
      ensures Zeros(sc.al, z, k, i) == (if Abs(z[k]) < Pow2(sc.al) then 1 else 0) + Zeros(sc.al, z, k + 1, i)
    {
      assert NotNew(sc.al, z[i]);
    }
  }

  lemma PlainFirst(sc: Scan, z: Block, k: nat, m: nat, r: nat)
    requires k < m <= 64 && Plain(sc, z, k, m, r) && Abs(z[k]) >= Pow2(sc.al)
    ensures r <= 15
  {
    hide Pow2;
    assert Zeros(sc.al, z, k, k) == 0;
    assert NotNew(sc.al, z[k]);
  }

  /** The correction bit of a coefficient that was nonzero before: the last bit of its magnitude at the precision of
      the scan. */
  lemma CorrectionLaw(al: nat, z: Block, k: nat, m: nat, h: nat, bit: bool)
    requires k < m <= 64 && h > 0
    requires var v := if bit then 2 * h + 1 else 2 * h; v * Pow2(al) <= Abs(z[k]) < v * Pow2(al) + Pow2(al)
    ensures Corrections(al, z, k, m) == [bit] + Corrections(al, z, k + 1, m)
  {
    hide Shr, Pow2;
    ShrDivides(Abs(z[k]), al);
    OneQuotient(Mag(z[k], al), if bit then 2 * h + 1 else 2 * h, Pow2(al), Abs(z[k]));
  }

  /** A coefficient that becomes nonzero: the zeroes before it, its sign, and the correction bits of the coefficients
      passed over, if there are fewer than 16 zeroes. */
  lemma RefineLaw(sc: Scan, z: Block, k: nat, m: nat, e: nat, r: nat, br: BitSeq)
    requires sc.Valid() && sc.ss <= k <= m < e <= sc.se + 1 && Plain(sc, z, k, m, r)
    requires Pow2(sc.al) <= Abs(z[m]) < 2 * Pow2(sc.al) && r + Zeros(sc.al, z, k, m) <= 15
    ensures RefineHead(sc, z, k, e, r, br)
        == [Sym(16 * (r + Zeros(sc.al, z, k, m)) + 1), Raw([z[m] >= 0]), Raw(br + Corrections(sc.al, z, k, m))]
           + RefineHead(sc, z, m + 1, e, 0, [])
  {
    hide Mag, Pow2, Plain, Corrections, Zeros;
    PlainRefine(sc, z, k, m, e, r, br);
    ZeroMag(z[m], sc.al);
  }

  /** After 16 zeroes, the next coefficient that is not zero makes the run length of 16 go out, with the correction
      bits up to there. */
  lemma RefineSixteenLaw(sc: Scan, z: Block, k: nat, m: nat, e: nat, r: nat, br: BitSeq)
    requires sc.Valid() && sc.ss <= k <= m < e <= sc.se + 1 && Plain(sc, z, k, m, r)
    requires Abs(z[m]) >= Pow2(sc.al) && r + Zeros(sc.al, z, k, m) >= 16
    ensures RefineHead(sc, z, k, e, r, br)
        == [Sym(0xF0), Raw(br + Corrections(sc.al, z, k, m))]
           + RefineHead(sc, z, m, e, r + Zeros(sc.al, z, k, m) - 16, [])
  {
    hide Mag, Pow2, Plain, Corrections, Zeros;
    PlainRefine(sc, z, k, m, e, r, br);
    ZeroMag(z[m], sc.al);
  }

  // ---------------------------------------------------------------- ended bands

  /** The block sends no symbol in this scan. */
  ghost predicate Silent(sc: Scan, z: Block)
  {
    forall k: nat | sc.ss <= k <= sc.se && k < 64 ::
      if sc.mode == Initial then Abs(z[k]) < Pow2(sc.al) else NotNew(sc.al, z[k])
  }

  lemma SilentHead(sc: Scan, z: Block)
    requires sc.Valid() && Silent(sc, z)
    ensures HeadEnd(sc, z) == sc.ss
  {
    hide Mag, Pow2, EndBefore;
    var e := HeadEnd(sc, z);
    if e > sc.ss {
      assert Sends(sc, z[e - 1]);
      ZeroMag(z[e - 1], sc.al);
    }
  }

  /** A run from 2^b up to 2^(b + 1), exclusive: its symbol says `b`, the bits how much it is above 2^b. */
  lemma RunLaw(p: Pending, b: nat)
    requires Pow2(b) <= p.eobrun < 2 * Pow2(b)
    ensures EobTokens(p) == [Sym(16 * b), Raw(ToBits(p.eobrun, b)), Raw(p.be)]
    ensures Value(ToBits(p.eobrun, b)) == p.eobrun - Pow2(b)
  {
    CategoryLaw(p.eobrun, b + 1);
    ToBitsWrap(p.eobrun - Pow2(b), b);
    ValueToBits(p.eobrun - Pow2(b), b);
  }

  /** A silent block adds itself to the pending run, and the run goes out exactly if one more would no longer fit 15
      bits, or if the 63 correction bits of another block might not fit into 1000. */
  lemma FlushLaw(sc: Scan, z: Block, p: Pending)
    requires sc.Valid() && Silent(sc, z) && p.eobrun + 1 < 0x8000
    ensures var more := if sc.mode == Refine then Corrections(sc.al, z, sc.ss, sc.se + 1) else [];
      var p2 := Pending(p.eobrun + 1, p.be + more);
      EncodeBlock(sc, z, p)
      == if p2.eobrun + 1 >= 0x8000 || |p2.be| + 63 > 1000 then (EobTokens(p2), NONE) else ([], p2)
  {
    hide HeadEnd, Corrections, EobTokens, Silent;
    SilentHead(sc, z);
    var p2 := Pending(p.eobrun + 1, p.be + Tail(sc, z, sc.ss));
    assert [] + EobTokens(p2) == EobTokens(p2);
  }

  /** All zero at the precision of the scan: nothing to send, nothing to correct. */
  ghost predicate Quiet(sc: Scan, z: Block)
  {
    forall k: nat | sc.ss <= k <= sc.se && k < 64 :: Abs(z[k]) < Pow2(sc.al)
  }

  lemma QuietSilent(sc: Scan, z: Block)
    requires sc.Valid() && Quiet(sc, z)
    ensures Silent(sc, z) && Corrections(sc.al, z, sc.ss, sc.se + 1) == []
  {
    hide Mag, Pow2;
    NoCorrections(sc, z, sc.ss);
  }

  lemma {:induction false} NoCorrections(sc: Scan, z: Block, k: nat)
    requires sc.Valid() && Quiet(sc, z) && sc.ss <= k <= sc.se + 1
    ensures Corrections(sc.al, z, k, sc.se + 1) == []
    decreases sc.se + 1 - k
  {
    hide Mag, Pow2;
    if k <= sc.se {
      ZeroMag(z[k], sc.al);
      NoCorrections(sc, z, k + 1);
    }
  }

  /** Quiet blocks make one run of up to 32767 blocks; what follows starts with nothing pending after 32767. */
  lemma {:induction false} QuietRun(sc: Scan, zs: seq<Block>, rest: seq<Block>, eobrun: nat)
    requires sc.Valid() && (forall i | 0 <= i < |zs| :: Quiet(sc, zs[i])) && eobrun + |zs| <= 32767 && eobrun < 32767
    ensures EncodeScan(sc, zs + rest, Pending(eobrun, []))
        == if eobrun + |zs| < 32767 then EncodeScan(sc, rest, Pending(eobrun + |zs|, []))
           else EobTokens(Pending(32767, [])) + EncodeScan(sc, rest, NONE)
    decreases |zs|
  {
    hide EncodeBlock, EobTokens, Quiet, Corrections;
    if zs == [] {
      assert zs + rest == rest;
    } else {
      QuietSilent(sc, zs[0]);
      FlushLaw(sc, zs[0], Pending(eobrun, []));
      assert (zs + rest)[1..] == zs[1..] + rest;
      if |zs| == 1 {
        assert zs[1..] + rest == rest;
      }
      if eobrun + 1 < 32767 {
        QuietRun(sc, zs[1..], rest, eobrun + 1);
        assert [] + EncodeScan(sc, zs[1..] + rest, Pending(eobrun + 1, []))
            == EncodeScan(sc, zs[1..] + rest, Pending(eobrun + 1, []));
      }
    }
  }

  /** Between 2^b and 2^(b + 1) quiet blocks, no more than 32767, are sent as one run. */
  lemma OneRun(sc: Scan, zs: seq<Block>, b: nat)
    requires sc.Valid() && (forall i | 0 <= i < |zs| :: Quiet(sc, zs[i]))
    requires Pow2(b) <= |zs| < 2 * Pow2(b) && |zs| <= 32767
    ensures EncodeScan(sc, zs, NONE) == [Sym(16 * b), Raw(ToBits(|zs|, b)), Raw([])]
    ensures Value(ToBits(|zs|, b)) == |zs| - Pow2(b)
  {
    hide EobTokens, EncodeBlock, Quiet, Pow2, ToBits;
    QuietRun(sc, zs, [], 0);
    assert zs + [] == zs;
    RunLaw(Pending(|zs|, []), b);
    assert EncodeScan(sc, [], NONE) == [] by { NothingPending(sc); }
    assert EobTokens(Pending(|zs|, [])) + [] == EobTokens(Pending(|zs|, []));
  }

  lemma NothingPending(sc: Scan)
    requires sc.Valid()
    ensures EncodeScan(sc, [], NONE) == []
  {
  }

  /** More of them: the first 32767 are one run of 14 bits, and the others start anew. */
  lemma LongRun(sc: Scan, zs: seq<Block>, rest: seq<Block>)
    requires sc.Valid() && |zs| == 32767 && forall i | 0 <= i < |zs| :: Quiet(sc, zs[i])
    ensures EncodeScan(sc, zs + rest, NONE)
        == [Sym(16 * 14), Raw(ToBits(32767, 14)), Raw([])] + EncodeScan(sc, rest, NONE)
  {
    hide EobTokens, EncodeBlock, Quiet, ToBits;
    QuietRun(sc, zs, rest, 0);
    Pow2Values();
    RunLaw(Pending(32767, []), 14);
  }

  // ---------------------------------------------------------------- the range of coefficients

  lemma ShortMag(c: int, al: nat)
    ensures Mag(c, al) < Pow2(10) <==> Abs(c) < 1024 * Pow2(al)
  {
    hide Shr, Pow2;
    ShrDivides(Abs(c), al);
    Pow2Values();
    var m, p := Mag(c, al), Pow2(al);
    if m < 1024 {
      MulLess(m, 1023, p);
    } else {
      MulLess(1024, m, p);
    }
  }

  /** The first pass takes the blocks whose magnitudes have at most 10 bits left, refinement takes all blocks. */
  lemma RangeLaw(sc: Scan, z: Block)
    requires sc.Valid()
    ensures InRange(sc, z)
        <==> sc.mode == Refine || forall k | sc.ss <= k <= sc.se :: -1024 * Pow2(sc.al) < z[k] < 1024 * Pow2(sc.al)
  {
    hide Mag, Pow2;
    forall k | sc.ss <= k <= sc.se
      ensures Mag(z[k], sc.al) < Pow2(10) <==> -1024 * Pow2(sc.al) < z[k] < 1024 * Pow2(sc.al)
    {
      ShortMag(z[k], sc.al);
    }
  }

  lemma MulLess(a: int, b: int, p: int)
    requires a <= b && p >= 0
    ensures a * p <= b * p
  {
    assert (b - a) * p >= 0;
    assert (b - a) * p == b * p - a * p;
  }
}
