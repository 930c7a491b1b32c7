/** Decoding what a progressive AC scan sends restores every coefficient of the band at the
    precision of the scan, across zero runs, end-of-band runs and deferred correction bits. */
module AcRoundTrip {
  import opened Bits
  import opened Reading
  import opened Coef
  import opened Huffman
  import opened AcScan

  /** What the decoder holds for a coefficient before the scan. */
  function OldValue(sc: Scan, c: int): int
  {
    if sc.mode == Initial then 0 else Trunc(c, sc.al + 1)
  }

  /** The decoder's block agrees with the original from coefficient `lo` on. */
  predicate HoldsFrom(sc: Scan, d: Block, z: Block, lo: nat)
    requires sc.Valid()
  {
    forall k | lo <= k <= sc.se :: d[k] == OldValue(sc, z[k])
  }

  /** The first pass sends magnitudes of at most 10 bits (MAX_COEF_BITS). */
  predicate InRange(sc: Scan, z: Block)
    requires sc.Valid()
  {
    sc.mode == Initial ==> forall k | sc.ss <= k <= sc.se :: Mag(z[k], sc.al) < Pow2(10)
  }

  /** `d` with coefficients `lo` up to `hi` at the precision of the scan. */
  function Patch(sc: Scan, d: Block, z: Block, lo: nat, hi: nat): (p: Block)
    ensures forall i | 0 <= i < 64 :: p[i] == if lo <= i < hi then Trunc(z[i], sc.al) else d[i]
  {
    seq(64, i requires 0 <= i < 64 => if lo <= i < hi then Trunc(z[i], sc.al) else d[i])
  }

  function Refined(sc: Scan, d: Block, z: Block): Block
    requires sc.Valid()
  {
    Patch(sc, d, z, sc.ss, sc.se + 1)
  }

  // ---------------------------------------------------------------- tokens

  lemma {:induction false} ToksBitsConcat(t: HuffTable, a: seq<Token>, b: seq<Token>)
    requires t.Shaped() && t.ValidCounts() && Coded(t, a + b)
    ensures Coded(t, a) && Coded(t, b)
    ensures ToksBits(t, a + b) == ToksBits(t, a) + ToksBits(t, b)
  {
    hide TokenBits, HuffTable.Shaped, HuffTable.ValidCounts, HuffTable.HasCode;
    CodedParts(t, a, b);
    if a == [] {
      assert a + b == b;
      assert ToksBits(t, a) + ToksBits(t, b) == ToksBits(t, b);
    } else {
      assert (a + b)[1..] == a[1..] + b;
      CodedParts(t, a[1..], b);
      ToksBitsConcat(t, a[1..], b);
      var x, y, w := TokenBits(t, a[0]), ToksBits(t, a[1..]), ToksBits(t, b);
      assert x + (y + w) == (x + y) + w;
    }
  }

  lemma CodedParts(t: HuffTable, a: seq<Token>, b: seq<Token>)
    requires t.Shaped()
    ensures Coded(t, a + b) <==> Coded(t, a) && Coded(t, b)
  {
    if Coded(t, a + b) {
      forall i | 0 <= i < |a| && a[i].Sym?
        ensures t.HasCode(a[i].sym)
      {
        assert (a + b)[i] == a[i];
      }
      forall i | 0 <= i < |b| && b[i].Sym?
        ensures t.HasCode(b[i].sym)
      {
        assert (a + b)[|a| + i] == b[i];
      }
    }
  }

  /** A stream that starts with a symbol. */
  lemma ReadSym(t: HuffTable, s: nat, toks: seq<Token>, rest: BitSeq)
    requires t.Shaped() && t.ValidCounts() && Coded(t, [Sym(s)] + toks)
    ensures Coded(t, toks)
    ensures t.DecodeSym(ToksBits(t, [Sym(s)] + toks) + rest) == Got(s, ToksBits(t, toks) + rest)
  {
    hide HuffTable.DecodeSym, HuffTable.EncodeSym, HuffTable.Shaped, HuffTable.ValidCounts, HuffTable.HasCode;
    CodedParts(t, [Sym(s)], toks);
    assert [Sym(s)][0].Sym?;
    var all := [Sym(s)] + toks;
    assert all[1..] == toks;
    t.DecodeEncode(s, ToksBits(t, toks) + rest);
    assert ToksBits(t, all) + rest == t.EncodeSym(s) + (ToksBits(t, toks) + rest);
  }

  /** A stream that starts with raw bits. */
  lemma SplitRaw(t: HuffTable, b: BitSeq, toks: seq<Token>, rest: BitSeq)
    requires t.Shaped() && t.ValidCounts() && Coded(t, [Raw(b)] + toks)
    ensures Coded(t, toks)
    ensures ToksBits(t, [Raw(b)] + toks) + rest == b + (ToksBits(t, toks) + rest)
  {
    CodedParts(t, [Raw(b)], toks);
    var all := [Raw(b)] + toks;
    assert all[1..] == toks;
  }

  // ---------------------------------------------------------------- the head of a block, first pass

  /** `e` is one past a coefficient the first pass sends, and `j` is where the decoder stands:
      the coefficients from there up to `k` are zero. */
  predicate InitialAt(sc: Scan, d: Block, z: Block, j: nat, k: nat, e: nat)
    requires sc.Valid()
  {
    && sc.ss <= j <= k <= e <= sc.se + 1
    && (if k == e then j == k else Mag(z[e - 1], sc.al) != 0)
    && (forall i | j <= i < k :: Mag(z[i], sc.al) == 0)
    && (forall i | j <= i <= sc.se :: d[i] == 0)
  }

  lemma {:induction false} InitialHeadDecodes(
      t: HuffTable, sc: Scan, d: Block, z: Block, j: nat, k: nat, e: nat, rest: BitSeq)
    requires t.Shaped() && t.ValidCounts() && sc.Valid() && sc.mode == Initial && InRange(sc, z)
    requires InitialAt(sc, d, z, j, k, e)
    requires Coded(t, InitialHead(sc, z, k, e, k - j))
    ensures InitialLoop(t, sc, d, j, ToksBits(t, InitialHead(sc, z, k, e, k - j)) + rest)
         == InitialLoop(t, sc, Patch(sc, d, z, j, e), e, rest)
    decreases e - k, k - j
  {
    hide InitialLoop, InitialHead, Mag, Trunc, Coded, InRange, HuffTable.Shaped, HuffTable.ValidCounts, ToksBits;
    if k == e {
      InitialDone(t, sc, d, z, e, rest);
    } else if Mag(z[k], sc.al) == 0 {
      InitialSkip(sc, z, k, e, k - j);
      InitialHeadDecodes(t, sc, d, z, j, k + 1, e, rest);
    } else if k - j > 15 {
      InitialZrl(t, sc, d, z, j, k, e, rest);
      InitialHeadDecodes(t, sc, d, z, j + 16, k, e, rest);
    } else {
      InitialValue(t, sc, d, z, j, k, e, rest);
      InitialHeadDecodes(t, sc, d[k := Trunc(z[k], sc.al)], z, k + 1, k + 1, e, rest);
      PatchOne(sc, d, z, j, k, e);
    }
  }

  lemma InitialDone(t: HuffTable, sc: Scan, d: Block, z: Block, e: nat, rest: BitSeq)
    requires t.Shaped() && t.ValidCounts() && sc.Valid() && sc.ss <= e <= sc.se + 1
    ensures Patch(sc, d, z, e, e) == d
    ensures InitialHead(sc, z, e, e, 0) == [] && Coded(t, []) && ToksBits(t, []) + rest == rest
  {
    hide HuffTable.Shaped, HuffTable.ValidCounts, Trunc;
  }

  lemma InitialSkip(sc: Scan, z: Block, k: nat, e: nat, r: nat)
    requires sc.Valid() && sc.ss <= k < e <= sc.se + 1 && Mag(z[k], sc.al) == 0
    ensures InitialHead(sc, z, k, e, r) == InitialHead(sc, z, k + 1, e, r + 1)
  {
    hide Mag;
  }

  lemma InitialZrl(t: HuffTable, sc: Scan, d: Block, z: Block, j: nat, k: nat, e: nat, rest: BitSeq)
    requires t.Shaped() && t.ValidCounts() && sc.Valid() && sc.mode == Initial
    requires InitialAt(sc, d, z, j, k, e) && j + 16 <= k < e && Mag(z[k], sc.al) != 0
    requires Coded(t, InitialHead(sc, z, k, e, k - j))
    ensures Coded(t, InitialHead(sc, z, k, e, k - j - 16)) && InitialAt(sc, d, z, j + 16, k, e)
    ensures InitialLoop(t, sc, d, j, ToksBits(t, InitialHead(sc, z, k, e, k - j)) + rest)
         == InitialLoop(t, sc, d, j + 16, ToksBits(t, InitialHead(sc, z, k, e, k - j - 16)) + rest)
    ensures Patch(sc, d, z, j, e) == Patch(sc, d, z, j + 16, e)
  {
    hide InitialLoop, ToksBits, Mag, Trunc, Coded, HuffTable.Shaped, HuffTable.ValidCounts, HuffTable.DecodeSym;
    var toks := InitialHead(sc, z, k, e, k - j - 16);
    assert InitialHead(sc, z, k, e, k - j) == [Sym(ZRL)] + toks;
    ReadSym(t, ZRL, toks, rest);
    InitialLoopZrl(t, sc, d, j, ToksBits(t, [Sym(ZRL)] + toks) + rest, ToksBits(t, toks) + rest);
    ZeroesHold(sc, d, z, j, k, e);
    assert Patch(sc, d, z, j, e) == Patch(sc, d, z, j + 16, e);
  }

  lemma InitialLoopZrl(t: HuffTable, sc: Scan, d: Block, k: nat, bs: BitSeq, b1: BitSeq)
    requires t.Shaped() && t.ValidCounts() && sc.Valid() && k <= sc.se && t.DecodeSym(bs) == Got(ZRL, b1)
    ensures InitialLoop(t, sc, d, k, bs) == InitialLoop(t, sc, d, k + 16, b1)
  {
    hide HuffTable.DecodeSym, HuffTable.ValidCounts, HuffTable.Shaped, Take, Extend, Pow2;
  }

  lemma ZeroesHold(sc: Scan, d: Block, z: Block, j: nat, k: nat, e: nat)
    requires sc.Valid() && InitialAt(sc, d, z, j, k, e)
    ensures forall i | j <= i < k :: d[i] == Trunc(z[i], sc.al)
  {
    hide Mag, Trunc;
    forall i | j <= i < k
      ensures d[i] == Trunc(z[i], sc.al)
    {
      TruncMag(z[i], sc.al);
    }
  }

  lemma InitialValue(t: HuffTable, sc: Scan, d: Block, z: Block, j: nat, k: nat, e: nat, rest: BitSeq)
    requires t.Shaped() && t.ValidCounts() && sc.Valid() && sc.mode == Initial && InRange(sc, z)
    requires InitialAt(sc, d, z, j, k, e) && k - j <= 15 && k < e && Mag(z[k], sc.al) != 0
    requires Coded(t, InitialHead(sc, z, k, e, k - j))
    ensures Coded(t, InitialHead(sc, z, k + 1, e, 0))
    ensures InitialAt(sc, d[k := Trunc(z[k], sc.al)], z, k + 1, k + 1, e)
    ensures InitialLoop(t, sc, d, j, ToksBits(t, InitialHead(sc, z, k, e, k - j)) + rest)
         == InitialLoop(t, sc, d[k := Trunc(z[k], sc.al)], k + 1, ToksBits(t, InitialHead(sc, z, k + 1, e, 0)) + rest)
    ensures forall i | j <= i < k :: d[i] == Trunc(z[i], sc.al)
  {
    hide InitialLoop, InitialHead, ToksBits, Mag, Trunc, Coded, HuffTable.Shaped, HuffTable.ValidCounts, InRange;
    var toks := InitialHead(sc, z, k + 1, e, 0);
    var v := SignedMag(z[k], sc.al);
    InitialUnfold(sc, z, k, e, k - j);
    InitialPieces(t, sc, d, j, k - j, v, toks, rest);
    SignedMagTrunc(z[k], sc.al);
    ZeroesHold(sc, d, z, j, k, e);
  }

  lemma InitialUnfold(sc: Scan, z: Block, k: nat, e: nat, r: nat)
    requires sc.Valid() && InRange(sc, z) && sc.mode == Initial && sc.ss <= k < e <= sc.se + 1
    requires Mag(z[k], sc.al) != 0 && r <= 15
    ensures SignedMag(z[k], sc.al) != 0 && BitLen(Abs(SignedMag(z[k], sc.al))) <= 15
    ensures InitialHead(sc, z, k, e, r) == SendValue(r, SignedMag(z[k], sc.al)) + InitialHead(sc, z, k + 1, e, 0)
  {
    hide Mag, Pow2, HeadEnd, BitLen, MagBits, InRange;
    SignedInRange(sc, z, k);
  }

  lemma SignedInRange(sc: Scan, z: Block, k: nat)
    requires sc.Valid() && InRange(sc, z) && sc.mode == Initial && sc.ss <= k <= sc.se && Mag(z[k], sc.al) != 0
    ensures SignedMag(z[k], sc.al) != 0 && BitLen(Abs(SignedMag(z[k], sc.al))) <= 15
  {
    hide Mag, Pow2, BitLen;
    BitLenBound(Abs(SignedMag(z[k], sc.al)), 10);
  }

  /** A zero run and the value that ends it. */
  function SendValue(r: nat, v: int): seq<Token>
  {
    [Sym(16 * r + BitLen(Abs(v))), Raw(MagBits(v, BitLen(Abs(v))))]
  }

  lemma InitialPieces(t: HuffTable, sc: Scan, d: Block, j: nat, r: nat, v: int, toks: seq<Token>, rest: BitSeq)
    requires t.Shaped() && t.ValidCounts() && sc.Valid() && j <= sc.se && r <= 15
    requires v != 0 && BitLen(Abs(v)) <= 15
    requires Coded(t, SendValue(r, v) + toks)
    ensures Coded(t, toks)
    ensures InitialLoop(t, sc, d, j, ToksBits(t, SendValue(r, v) + toks) + rest)
         == InitialLoop(t, sc, d[Slot(j + r) := v * Pow2(sc.al)], j + r + 1, ToksBits(t, toks) + rest)
  {
    hide ToksBits, HuffTable.DecodeSym, HuffTable.Shaped, HuffTable.ValidCounts, Take, Extend, InitialLoop,
        Coded, BitLen, MagBits, Pow2;
    var n := BitLen(Abs(v));
    var raw := MagBits(v, n);
    assert SendValue(r, v) + toks == [Sym(16 * r + n)] + ([Raw(raw)] + toks);
    ReadSym(t, 16 * r + n, [Raw(raw)] + toks, rest);
    SplitRaw(t, raw, toks, rest);
    var b2 := ToksBits(t, toks) + rest;
    ExtendMag(v, b2);
    InitialLoopValue(t, sc, d, j, ToksBits(t, SendValue(r, v) + toks) + rest, r, n, raw + b2, Take(n, raw + b2).value,
        b2);
  }

  lemma SignedMagTrunc(c: int, al: nat)
    ensures SignedMag(c, al) * Pow2(al) == Trunc(c, al)
  {
  }

  lemma InitialLoopValue(t: HuffTable, sc: Scan, d: Block, k: nat, bs: BitSeq, r: nat, s: nat, b1: BitSeq,
        x: nat, b2: BitSeq)
    requires t.Shaped() && t.ValidCounts() && sc.Valid()
    requires k <= sc.se && r <= 15 && 1 <= s <= 15
    requires t.DecodeSym(bs) == Got(16 * r + s, b1) && Take(s, b1) == Got(x, b2)
    ensures InitialLoop(t, sc, d, k, bs)
         == InitialLoop(t, sc, d[Slot(k + r) := Extend(x, s) * Pow2(sc.al)], k + r + 1, b2)
  {
    hide HuffTable.DecodeSym, HuffTable.ValidCounts, HuffTable.Shaped, Take, Extend, Pow2;
  }

  lemma PatchOne(sc: Scan, d: Block, z: Block, j: nat, k: nat, e: nat)
    requires sc.Valid() && j <= k < e <= 64
    requires forall i | j <= i < k :: d[i] == Trunc(z[i], sc.al)
    ensures Patch(sc, d[k := Trunc(z[k], sc.al)], z, k + 1, e) == Patch(sc, d, z, j, e)
  {
  }

  // ---------------------------------------------------------------- the head of a block, refinement

  function Zeroes(al: nat, z: Block, j: nat, k: nat): (r: nat)
    requires k <= 64
    ensures j <= k ==> r <= k - j
    decreases if j < k then k - j else 0
  {
    if j >= k then 0 else (if Mag(z[j], al) == 0 then 1 else 0) + Zeroes(al, z, j + 1, k)
  }

  lemma {:induction false} SplitZeroes(al: nat, z: Block, j: nat, m: nat, k: nat)
    requires j <= m <= k <= 64
    ensures Zeroes(al, z, j, k) == Zeroes(al, z, j, m) + Zeroes(al, z, m, k)
    decreases m - j
  {
    hide Mag;
    if j < m {
      SplitZeroes(al, z, j + 1, m, k);
    }
  }

  lemma {:induction false} SplitCorrections(al: nat, z: Block, j: nat, m: nat, k: nat)
    requires j <= m <= k <= 64
    ensures Corrections(al, z, j, k) == Corrections(al, z, j, m) + Corrections(al, z, m, k)
    decreases m - j
  {
    hide Mag;
    if j == m {
      assert Corrections(al, z, j, m) == [];
    } else {
      SplitCorrections(al, z, j + 1, m, k);
      if Mag(z[j], al) > 1 {
        var b := [Mag(z[j], al) % 2 == 1];
        assert b + (Corrections(al, z, j + 1, m) + Corrections(al, z, m, k))
            == (b + Corrections(al, z, j + 1, m)) + Corrections(al, z, m, k);
      }
    }
  }

  lemma SplitRange(al: nat, z: Block, j: nat, m: nat, k: nat)
    requires j <= m <= k <= 64
    ensures Zeroes(al, z, j, k) == Zeroes(al, z, j, m) + Zeroes(al, z, m, k)
    ensures Corrections(al, z, j, k) == Corrections(al, z, j, m) + Corrections(al, z, m, k)
  {
    SplitZeroes(al, z, j, m, k);
    SplitCorrections(al, z, j, m, k);
  }

  lemma RangeSnoc(al: nat, z: Block, j: nat, k: nat)
    requires j <= k < 64
    ensures Zeroes(al, z, j, k + 1) == Zeroes(al, z, j, k) + (if Mag(z[k], al) == 0 then 1 else 0)
    ensures Corrections(al, z, j, k + 1)
         == Corrections(al, z, j, k) + (if Mag(z[k], al) > 1 then [Mag(z[k], al) % 2 == 1] else [])
  {
    hide Mag;
    SplitRange(al, z, j, k, k + 1);
    assert Corrections(al, z, k + 1, k + 1) == [];
  }

  lemma {:induction false} SixteenthZero(al: nat, z: Block, j: nat, k: nat) returns (m: nat)
    requires j <= k <= 64 && Zeroes(al, z, j, k) > 15
    ensures j <= m < k && Mag(z[m], al) == 0 && Zeroes(al, z, j, m) == 15
    decreases k
  {
    hide Mag;
    RangeSnoc(al, z, j, k - 1);
    if Zeroes(al, z, j, k - 1) > 15 {
      m := SixteenthZero(al, z, j, k - 1);
    } else {
      m := k - 1;
    }
  }

  /** Between `j` and `k` there are only zeroes: nothing to correct. */
  lemma {:induction false} OnlyZeroes(al: nat, z: Block, j: nat, k: nat)
    requires k <= 64 && forall i | j <= i < k :: Mag(z[i], al) == 0
    ensures Corrections(al, z, j, k) == []
    decreases if j < k then k - j else 0
  {
    hide Mag;
    if j < k {
      OnlyZeroes(al, z, j + 1, k);
    }
  }

  predicate NoNew(sc: Scan, z: Block, j: nat, k: nat)
    requires k <= 64
  {
    forall i | j <= i < k :: Mag(z[i], sc.al) != 1
  }

  lemma {:induction false} AdvanceCorrects(sc: Scan, d: Block, z: Block, j: nat, m: nat, rest: BitSeq)
    requires sc.Valid() && sc.mode == Refine && j <= m <= sc.se
    requires HoldsFrom(sc, d, z, j) && NoNew(sc, z, j, m) && Mag(z[m], sc.al) <= 1
    ensures Advance(sc, d, j, Zeroes(sc.al, z, j, m), Corrections(sc.al, z, j, m) + rest)
         == Got((Patch(sc, d, z, j, m), m), rest)
    decreases m - j
  {
    hide Mag, Trunc, Correct, Pow2, Shr;
    TruncStep(z[j], sc.al);
    if j == m {
      assert Patch(sc, d, z, j, m) == d;
      assert Corrections(sc.al, z, j, m) + rest == rest;
    } else {
      var d' := d[j := Trunc(z[j], sc.al)];
      AdvanceCorrects(sc, d', z, j + 1, m, rest);
      AdvanceStep(sc, d, z, j, m, rest);
      assert Patch(sc, d, z, j, m) == Patch(sc, d', z, j + 1, m);
    }
  }

  lemma AdvanceStep(sc: Scan, d: Block, z: Block, j: nat, m: nat, rest: BitSeq)
    requires sc.Valid() && sc.mode == Refine && j < m <= sc.se
    requires d[j] == OldValue(sc, z[j]) && Mag(z[j], sc.al) != 1
    ensures Advance(sc, d, j, Zeroes(sc.al, z, j, m), Corrections(sc.al, z, j, m) + rest)
         == Advance(sc, d[j := Trunc(z[j], sc.al)], j + 1, Zeroes(sc.al, z, j + 1, m),
             Corrections(sc.al, z, j + 1, m) + rest)
  {
    hide Mag, Trunc, Correct, Pow2;
    TruncStep(z[j], sc.al);
    var d' := d[j := Trunc(z[j], sc.al)];
    if Mag(z[j], sc.al) == 0 {
      assert d' == d;
    } else {
      var bit := Mag(z[j], sc.al) % 2 == 1;
      var bs := Corrections(sc.al, z, j + 1, m) + rest;
      assert Corrections(sc.al, z, j, m) + rest == [bit] + bs;
      assert ([bit] + bs)[1..] == bs;
    }
  }

  lemma {:induction false} TailCorrects(sc: Scan, d: Block, z: Block, j: nat, rest: BitSeq)
    requires sc.Valid() && sc.mode == Refine && j <= sc.se + 1
    requires HoldsFrom(sc, d, z, j) && NoNew(sc, z, j, sc.se + 1)
    ensures CorrectTail(sc, d, j, Corrections(sc.al, z, j, sc.se + 1) + rest)
         == Got(Patch(sc, d, z, j, sc.se + 1), rest)
    decreases sc.se + 1 - j
  {
    hide Mag, Trunc, Correct, Pow2;
    if j == sc.se + 1 {
      assert Patch(sc, d, z, j, sc.se + 1) == d;
      assert Corrections(sc.al, z, j, sc.se + 1) + rest == rest;
    } else {
      TruncStep(z[j], sc.al);
      var d' := d[j := Trunc(z[j], sc.al)];
      var bs := Corrections(sc.al, z, j + 1, sc.se + 1) + rest;
      if Mag(z[j], sc.al) == 0 {
        assert d' == d;
      } else {
        var bit := Mag(z[j], sc.al) % 2 == 1;
        assert Corrections(sc.al, z, j, sc.se + 1) + rest == [bit] + bs;
        assert ([bit] + bs)[1..] == bs;
      }
      TailCorrects(sc, d', z, j + 1, rest);
      assert Patch(sc, d, z, j, sc.se + 1) == Patch(sc, d', z, j + 1, sc.se + 1);
    }
  }

  /** The decoder stands at `j`, just past the last symbol; the encoder is at `k`, has counted the
      zeroes and collected the correction bits in between, and goes on to `e`.  Had a correction bit
      come after 16 zeroes, a zero-run symbol would have been sent before it. */
  predicate RefineAt(sc: Scan, d: Block, z: Block, j: nat, k: nat, e: nat)
    requires sc.Valid()
  {
    && sc.ss <= j <= k <= e <= sc.se + 1
    && (if k == e then j == k else Mag(z[e - 1], sc.al) == 1)
    && NoNew(sc, z, j, k)
    && HoldsFrom(sc, d, z, j)
    && (forall i | j <= i < k && Mag(z[i], sc.al) > 1 :: Zeroes(sc.al, z, j, i) <= 15)
  }

  function HeadAt(sc: Scan, z: Block, j: nat, k: nat, e: nat): seq<Token>
    requires sc.Valid() && sc.ss <= j <= k <= e <= sc.se + 1
  {
    RefineHead(sc, z, k, e, Zeroes(sc.al, z, j, k), Corrections(sc.al, z, j, k))
  }

  lemma {:induction false} RefineHeadDecodes(
      t: HuffTable, sc: Scan, d: Block, z: Block, j: nat, k: nat, e: nat, rest: BitSeq)
    requires t.Shaped() && t.ValidCounts() && sc.Valid() && sc.mode == Refine
    requires RefineAt(sc, d, z, j, k, e) && Coded(t, HeadAt(sc, z, j, k, e))
    ensures RefineLoop(t, sc, d, j, ToksBits(t, HeadAt(sc, z, j, k, e)) + rest)
         == RefineLoop(t, sc, Patch(sc, d, z, j, e), e, rest)
    decreases e - k, k - j
  {
    hide RefineLoop, Mag, Trunc, Coded, HuffTable.Shaped, HuffTable.ValidCounts;
    if k == e {
      assert Patch(sc, d, z, j, e) == d;
      assert Corrections(sc.al, z, j, k) == [];
      assert ToksBits(t, []) + rest == rest;
    } else if Mag(z[k], sc.al) == 0 || (Mag(z[k], sc.al) > 1 && Zeroes(sc.al, z, j, k) <= 15) {
      HeadPasses(sc, z, j, k, e);
      RefineHeadDecodes(t, sc, d, z, j, k + 1, e, rest);
    } else if Zeroes(sc.al, z, j, k) > 15 {
      var d', m := RefineZrl(t, sc, d, z, j, k, e, rest);
      RefineHeadDecodes(t, sc, d', z, m + 1, k, e, rest);
    } else {
      var d' := RefineNew(t, sc, d, z, j, k, e, rest);
      RefineHeadDecodes(t, sc, d', z, k + 1, k + 1, e, rest);
    }
  }

  /** A coefficient that sends no symbol of its own. */
  lemma HeadPasses(sc: Scan, z: Block, j: nat, k: nat, e: nat)
    requires sc.Valid() && sc.mode == Refine && sc.ss <= j <= k < e <= sc.se + 1
    requires Mag(z[k], sc.al) == 0 || (Mag(z[k], sc.al) > 1 && Zeroes(sc.al, z, j, k) <= 15)
    ensures HeadAt(sc, z, j, k + 1, e) == HeadAt(sc, z, j, k, e)
  {
    hide Mag;
    RangeSnoc(sc.al, z, j, k);
    assert Corrections(sc.al, z, j, k) + [] == Corrections(sc.al, z, j, k);
  }

  lemma RefineZrl(t: HuffTable, sc: Scan, d: Block, z: Block, j: nat, k: nat, e: nat, rest: BitSeq)
    returns (d': Block, m: nat)
    requires t.Shaped() && t.ValidCounts() && sc.Valid() && sc.mode == Refine
    requires RefineAt(sc, d, z, j, k, e) && Coded(t, HeadAt(sc, z, j, k, e))
    requires k < e && Mag(z[k], sc.al) > 0 && Zeroes(sc.al, z, j, k) > 15
    ensures j <= m < k && RefineAt(sc, d', z, m + 1, k, e) && Coded(t, HeadAt(sc, z, m + 1, k, e))
    ensures RefineLoop(t, sc, d, j, ToksBits(t, HeadAt(sc, z, j, k, e)) + rest)
         == RefineLoop(t, sc, d', m + 1, ToksBits(t, HeadAt(sc, z, m + 1, k, e)) + rest)
    ensures Patch(sc, d', z, m + 1, e) == Patch(sc, d, z, j, e)
  {
    hide ToksBits, RefineLoop, Advance, Mag, Trunc, HuffTable.Shaped, HuffTable.ValidCounts, HuffTable.DecodeSym, Coded;
    m := ZrlSplit(sc, d, z, j, k, e);
    d' := Patch(sc, d, z, j, m);
    var toks := HeadAt(sc, z, m + 1, k, e);
    var br := Corrections(sc.al, z, j, m);
    assert HeadAt(sc, z, j, k, e) == [Sym(ZRL)] + ([Raw(br)] + toks);
    ReadSym(t, ZRL, [Raw(br)] + toks, rest);
    SplitRaw(t, br, toks, rest);
    AdvanceCorrects(sc, d, z, j, m, ToksBits(t, toks) + rest);
    RefineLoopZrl(t, sc, d, j, ToksBits(t, HeadAt(sc, z, j, k, e)) + rest,
                  br + (ToksBits(t, toks) + rest), d', m, ToksBits(t, toks) + rest);
    TruncStep(z[m], sc.al);
    assert d[m] == Trunc(z[m], sc.al);
    assert Patch(sc, d', z, m + 1, e) == Patch(sc, d, z, j, e);
  }

  /** The sixteenth zero ends the run a zero-run symbol stands for. */
  lemma ZrlSplit(sc: Scan, d: Block, z: Block, j: nat, k: nat, e: nat) returns (m: nat)
    requires sc.Valid() && sc.mode == Refine && RefineAt(sc, d, z, j, k, e)
    requires k < e && Zeroes(sc.al, z, j, k) > 15
    ensures j <= m < k && Mag(z[m], sc.al) == 0 && Zeroes(sc.al, z, j, m) == 15
    ensures Corrections(sc.al, z, j, k) == Corrections(sc.al, z, j, m)
    ensures Corrections(sc.al, z, m + 1, k) == []
    ensures Zeroes(sc.al, z, m + 1, k) == Zeroes(sc.al, z, j, k) - 16
    ensures RefineAt(sc, Patch(sc, d, z, j, m), z, m + 1, k, e)
  {
    hide Mag, OldValue, Zeroes, Corrections, RefineAt, Patch;
    RefineBounds(sc, d, z, j, k, e);
    m := SixteenthZero(sc.al, z, j, k);
    ZeroesBehind(sc, d, z, j, m, k, e);
    OnlyZeroes(sc.al, z, m + 1, k);
    SplitRange(sc.al, z, j, m + 1, k);
    RangeSnoc(sc.al, z, j, m);
    assert Corrections(sc.al, z, j, m) + [] == Corrections(sc.al, z, j, m);
    RefineBehind(sc, d, z, j, m, k, e);
  }

  lemma RefineBounds(sc: Scan, d: Block, z: Block, j: nat, k: nat, e: nat)
    requires sc.Valid() && RefineAt(sc, d, z, j, k, e)
    ensures sc.ss <= j <= k <= e <= sc.se + 1 <= 64
  {
  }

  /** Behind the sixteenth zero there are only zeroes: a correction bit there would have come too late. */
  lemma ZeroesBehind(sc: Scan, d: Block, z: Block, j: nat, m: nat, k: nat, e: nat)
    requires sc.Valid() && sc.mode == Refine && RefineAt(sc, d, z, j, k, e) && j <= m < k
    requires Mag(z[m], sc.al) == 0 && Zeroes(sc.al, z, j, m) == 15
    ensures forall i | m + 1 <= i < k :: Mag(z[i], sc.al) == 0
  {
    hide Mag, Zeroes, Corrections, OldValue, HoldsFrom;
    forall i | m + 1 <= i < k
      ensures Mag(z[i], sc.al) == 0
    {
      SplitRange(sc.al, z, j, m + 1, i);
      RangeSnoc(sc.al, z, j, m);
    }
  }

  lemma RefineBehind(sc: Scan, d: Block, z: Block, j: nat, m: nat, k: nat, e: nat)
    requires sc.Valid() && sc.mode == Refine && RefineAt(sc, d, z, j, k, e) && j <= m < k < e
    requires forall i | m + 1 <= i < k :: Mag(z[i], sc.al) == 0
    ensures RefineAt(sc, Patch(sc, d, z, j, m), z, m + 1, k, e)
  {
    hide Mag, OldValue, Zeroes, Corrections;
  }

  lemma RefineLoopZrl(t: HuffTable, sc: Scan, d: Block, k: nat, bs: BitSeq, b1: BitSeq, d': Block, k': nat, b2: BitSeq)
    requires t.Shaped() && t.ValidCounts() && sc.Valid() && k <= sc.se
    requires t.DecodeSym(bs) == Got(ZRL, b1) && Advance(sc, d, k, 15, b1) == Got((d', k'), b2)
    ensures RefineLoop(t, sc, d, k, bs) == RefineLoop(t, sc, d', k' + 1, b2)
  {
    hide HuffTable.DecodeSym, HuffTable.ValidCounts, HuffTable.Shaped, Advance, CorrectTail, Pow2;
  }

  lemma RefineNew(t: HuffTable, sc: Scan, d: Block, z: Block, j: nat, k: nat, e: nat, rest: BitSeq)
    returns (d': Block)
    requires t.Shaped() && t.ValidCounts() && sc.Valid() && sc.mode == Refine
    requires RefineAt(sc, d, z, j, k, e) && Coded(t, HeadAt(sc, z, j, k, e))
    requires k < e && Mag(z[k], sc.al) == 1 && Zeroes(sc.al, z, j, k) <= 15
    ensures RefineAt(sc, d', z, k + 1, k + 1, e) && Coded(t, HeadAt(sc, z, k + 1, k + 1, e))
    ensures RefineLoop(t, sc, d, j, ToksBits(t, HeadAt(sc, z, j, k, e)) + rest)
         == RefineLoop(t, sc, d', k + 1, ToksBits(t, HeadAt(sc, z, k + 1, k + 1, e)) + rest)
    ensures Patch(sc, d', z, k + 1, e) == Patch(sc, d, z, j, e)
  {
    hide ToksBits, RefineLoop, Advance, Mag, Trunc, HuffTable.Shaped, HuffTable.ValidCounts, HuffTable.DecodeSym,
        Coded, Pow2;
    var r, br, sign := Zeroes(sc.al, z, j, k), Corrections(sc.al, z, j, k), z[k] >= 0;
    var toks := HeadAt(sc, z, k + 1, k + 1, e);
    assert HeadAt(sc, z, j, k, e) == [Sym(16 * r + 1)] + ([Raw([sign])] + ([Raw(br)] + toks));
    ReadSym(t, 16 * r + 1, [Raw([sign])] + ([Raw(br)] + toks), rest);
    SplitRaw(t, [sign], [Raw(br)] + toks, rest);
    SplitRaw(t, br, toks, rest);
    AdvanceCorrects(sc, d, z, j, k, ToksBits(t, toks) + rest);
    var d0 := Patch(sc, d, z, j, k);
    TruncStep(z[k], sc.al);
    d' := d0[k := Trunc(z[k], sc.al)];
    RefineLoopNew(t, sc, d, j, ToksBits(t, HeadAt(sc, z, j, k, e)) + rest, r, sign,
                  br + (ToksBits(t, toks) + rest), d0, k, ToksBits(t, toks) + rest);
  }

  lemma RefineLoopNew(t: HuffTable, sc: Scan, d: Block, k: nat, bs: BitSeq, r: nat, sign: bool, b2: BitSeq,
                      d': Block, k': nat, b3: BitSeq)
    requires t.Shaped() && t.ValidCounts() && sc.Valid() && k <= sc.se && r <= 15
    requires t.DecodeSym(bs) == Got(16 * r + 1, [sign] + b2) && Advance(sc, d, k, r, b2) == Got((d', k'), b3)
    ensures RefineLoop(t, sc, d, k, bs)
         == RefineLoop(t, sc, d'[Slot(k') := if sign then Pow2(sc.al) else -Pow2(sc.al)], k' + 1, b3)
  {
    hide HuffTable.DecodeSym, HuffTable.ValidCounts, HuffTable.Shaped, Advance, CorrectTail, Pow2;
    assert ([sign] + b2)[1..] == b2;
    assert (16 * r + 1) / 16 == r && (16 * r + 1) % 16 == 1;
  }
}
