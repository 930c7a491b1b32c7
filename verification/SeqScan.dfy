/** Sequential Huffman scans (T.81 sections F.1.2 and F.2.2): the bits of blocks with a DC difference
    and AC run lengths, and decoding them. */
module SeqScan {
  import opened Bits
  import opened Reading
  import opened Coef
  import opened Huffman
  import opened AcScan
  import opened AcRoundTrip
  import opened AcFidelity
  import opened DcScan

  /** Sequential AC coding is that of a progressive first pass over the whole block, except that
      every block has its own end-of-block code. */
  const WHOLE: Scan := Scan(Initial, 1, 63, 0)

  function EndOfBlock(z: Block): seq<Token> { if HeadEnd(WHOLE, z) <= 63 then [Sym(0)] else [] }

  /** The tokens from coefficient `k` on, after `r` zeroes. */
  function AcRest(z: Block, k: nat, r: nat): seq<Token>
    requires 1 <= k <= 64
  {
    InitialHead(WHOLE, z, k, HeadEnd(WHOLE, z), r) + EndOfBlock(z)
  }

  function AcTokens(z: Block): seq<Token> { AcRest(z, 1, 0) }

  /** A difference may have one bit more than a coefficient. */
  const MAX_DIFF_BITS: nat := 11

  /** Coefficients the sequential encoder accepts. */
  predicate AcInRange(z: Block) { InRange(WHOLE, z) }

  /** The encoder can send the block: it is in range, and all its symbols have codes. */
  predicate BlockCoded(dc: HuffTable, ac: HuffTable, z: Block, last: int)
  {
    && dc.Shaped() && dc.ValidCounts() && ac.Shaped() && ac.ValidCounts()
    && BitLen(Abs(z[0] - last)) <= MAX_DIFF_BITS && dc.HasCode(BitLen(Abs(z[0] - last)))
    && AcInRange(z) && Coded(ac, AcTokens(z))
  }

  function BlockBits(dc: HuffTable, ac: HuffTable, z: Block, last: int): BitSeq
    requires BlockCoded(dc, ac, z, last)
  {
    DiffBits(dc, z[0] - last) + ToksBits(ac, AcTokens(z))
  }

  // ---------------------------------------------------------------- decoding a block

  /** The AC coefficients from `k` on. */
  function AcLoop(t: HuffTable, d: Block, k: nat, bs: BitSeq): Read<Block>
    requires t.Shaped() && t.ValidCounts()
    decreases if k < 64 then 64 - k else 0
  {
    if k >= 64 then Got(d, bs)
    else
      var (sym, b1) :- t.DecodeSym(bs);
      var r, s := sym / 16, sym % 16;
      if s != 0 then
        var (x, b2) :- Take(s, b1);
        AcLoop(t, d[Slot(k + r) := Extend(x, s)], k + r + 1, b2)
      else if r != 15 then Got(d, b1)
      else AcLoop(t, d, k + 16, b1)
  }

  /** A whole block, into an area `d` that the caller has zeroed. */
  function DecodeBlockSeq(dc: HuffTable, ac: HuffTable, last: int, d: Block, bs: BitSeq): Read<Block>
    requires dc.Shaped() && dc.ValidCounts() && ac.Shaped() && ac.ValidCounts()
  {
    var (diff, b1) :- DecodeDiff(dc, bs);
    AcLoop(ac, d[0 := diff + last], 1, b1)
  }

  predicate Zeroed(d: Block) { forall i | 0 <= i < 64 :: d[i] == 0 }

  /** An end-of-block code ends a sequential block where the progressive decoder would report that no
      further blocks are covered. */
  lemma {:induction false} LoopsAgree(t: HuffTable, d: Block, k: nat, bs: BitSeq)
    requires t.Shaped() && t.ValidCounts()
    requires InitialLoop(t, WHOLE, d, k, bs).Got? && InitialLoop(t, WHOLE, d, k, bs).value.1 == 0
    ensures AcLoop(t, d, k, bs) == Got(InitialLoop(t, WHOLE, d, k, bs).value.0, InitialLoop(t, WHOLE, d, k, bs).rest)
    decreases if k < 64 then 64 - k else 0
  {
    hide HuffTable.DecodeSym, HuffTable.Shaped, HuffTable.ValidCounts, Take, Extend;
    if k < 64 {
      var y := t.DecodeSym(bs);
      var r, s := y.value / 16, y.value % 16;
      if s != 0 {
        var x := Take(s, y.rest);
        assert Extend(x.value, s) * Pow2(0) == Extend(x.value, s);
        LoopsAgree(t, d[Slot(k + r) := Extend(x.value, s)], k + r + 1, x.rest);
      } else if r == 15 {
        LoopsAgree(t, d, k + 16, y.rest);
      } else {
        NoRun(r, y.rest);
      }
    }
  }

  lemma NoRun(r: nat, bs: BitSeq)
    requires Take(r, bs).Got? && Pow2(r) + Take(r, bs).value - 1 == 0
    ensures r == 0 && Take(r, bs).rest == bs
  {
    TwoOrMore(r);
  }

  lemma TwoOrMore(r: nat)
    ensures r > 0 ==> Pow2(r) >= 2
  {
  }

  /** The AC coefficients come back. */
  lemma AcRoundTripSeq(t: HuffTable, z: Block, d0: Block, rest: BitSeq)
    requires t.Shaped() && t.ValidCounts() && AcInRange(z) && Coded(t, AcTokens(z)) && Zeroed(d0)
    ensures AcLoop(t, d0[0 := z[0]], 1, ToksBits(t, AcTokens(z)) + rest) == Got(z, rest)
  {
    hide HuffTable.Shaped, HuffTable.ValidCounts, Coded, ToksBits, AcLoop, InitialLoop, InitialHead, HeadEnd, InRange;
    var e := HeadEnd(WHOLE, z);
    var d := d0[0 := z[0]];
    var head := InitialHead(WHOLE, z, 1, e, 0);
    HeadEndRange(z);
    ToksBitsConcat(t, head, EndOfBlock(z));
    var tail := ToksBits(t, EndOfBlock(z)) + rest;
    assert ToksBits(t, AcTokens(z)) + rest == ToksBits(t, head) + tail;
    ZeroHolds(d0, z);
    HeadDecodes(t, WHOLE, d, z, tail);
    PatchedWhole(d0, z, e);
    EndDecodesSeq(t, z, e, rest);
    LoopsAgree(t, d, 1, ToksBits(t, AcTokens(z)) + rest);
  }

  lemma HeadEndRange(z: Block)
    ensures 1 <= HeadEnd(WHOLE, z) <= 64
  {
  }

  lemma ZeroHolds(d0: Block, z: Block)
    requires Zeroed(d0)
    ensures HoldsFrom(WHOLE, d0[0 := z[0]], z, 1)
  {
  }

  /** Up to the end of the head the block is complete: only zeroes follow. */
  lemma PatchedWhole(d0: Block, z: Block, e: nat)
    requires e == HeadEnd(WHOLE, z) && Zeroed(d0)
    ensures Patch(WHOLE, d0[0 := z[0]], z, 1, e) == z
  {
    hide HeadEnd, Mag, Trunc;
    var p := Patch(WHOLE, d0[0 := z[0]], z, 1, e);
    forall i | 0 <= i < 64
      ensures p[i] == z[i]
    {
      TruncZero(z[i]);
      TruncMag(z[i], 0);
      if e <= i {
        HeadEndZero(z, i);
      }
    }
  }

  lemma HeadEndZero(z: Block, i: nat)
    requires HeadEnd(WHOLE, z) <= i < 64
    ensures Mag(z[i], 0) == 0
  {
    hide Mag;
    assert !Sends(WHOLE, z[i]);
  }

  lemma EndDecodesSeq(t: HuffTable, z: Block, e: nat, rest: BitSeq)
    requires t.Shaped() && t.ValidCounts() && e == HeadEnd(WHOLE, z) && Coded(t, EndOfBlock(z))
    ensures InitialLoop(t, WHOLE, z, e, ToksBits(t, EndOfBlock(z)) + rest) == Got((z, 0), rest)
  {
    hide HuffTable.Shaped, HuffTable.ValidCounts, Coded, HeadEnd, HuffTable.DecodeSym, HuffTable.EncodeSym;
    if e <= 63 {
      assert [Sym(0)] + [] == [Sym(0)];
      ReadSym(t, 0, [], rest);
      TakeNone(rest);
      NoTokenBits(t, rest);
    } else {
      NoTokenBits(t, rest);
    }
  }

  lemma NoTokenBits(t: HuffTable, rest: BitSeq)
    requires t.Shaped() && t.ValidCounts()
    ensures Coded(t, []) && ToksBits(t, []) + rest == rest
  {
  }

  lemma TakeNone(rest: BitSeq)
    ensures Take(0, rest) == Got(0, rest) && Pow2(0) == 1
  {
  }

  lemma BlockRoundTrip(dc: HuffTable, ac: HuffTable, z: Block, last: int, d: Block, rest: BitSeq)
    requires BlockCoded(dc, ac, z, last) && Zeroed(d)
    ensures DecodeBlockSeq(dc, ac, last, d, BlockBits(dc, ac, z, last) + rest) == Got(z, rest)
  {
    hide HuffTable.Shaped, HuffTable.ValidCounts, HuffTable.HasCode, Coded, ToksBits, AcLoop, AcInRange,
        AcTokens, DecodeDiff, DiffBits, Zeroed;
    var b := ToksBits(ac, AcTokens(z)) + rest;
    assert BlockBits(dc, ac, z, last) + rest == DiffBits(dc, z[0] - last) + b;
    DiffRoundTrip(dc, z[0] - last, b);
    AcRoundTripSeq(ac, z, d, rest);
  }

  // ---------------------------------------------------------------- segments

  /** The four DC and four AC table slots. */
  datatype Tables = Tables(dc: seq<HuffTable>, ac: seq<HuffTable>)

  /** The tables a component uses. */
  datatype Comp = Comp(dcTbl: nat, acTbl: nat)

  predicate UsableFor(ts: Tables, c: Comp)
  {
    && |ts.dc| == 4 && |ts.ac| == 4 && c.dcTbl < 4 && c.acTbl < 4
    && ts.dc[c.dcTbl].Shaped() && ts.dc[c.dcTbl].ValidCounts() && ts.ac[c.acTbl].Shaped()
       && ts.ac[c.acTbl].ValidCounts()
  }

  /** All tables that the components of a scan use are code trees. */
  predicate Usable(ts: Tables, comps: seq<Comp>) { forall ci | 0 <= ci < |comps| :: UsableFor(ts, comps[ci]) }

  /** A block and the component it belongs to. */
  datatype McuBlock = McuBlock(ci: nat, z: Block)

  predicate BlocksOk(items: seq<McuBlock>, n: nat) { forall i | 0 <= i < |items| :: items[i].ci < n }

  /** The DC prediction of each component after some blocks. */
  function LastDc(items: seq<McuBlock>, last: seq<int>): (r: seq<int>)
    requires BlocksOk(items, |last|)
    ensures |r| == |last|
  {
    if items == [] then last
    else
      var n := |items| - 1;
      LastDc(items[..n], last)[items[n].ci := items[n].z[0]]
  }

  predicate McuBlockCoded(ts: Tables, comps: seq<Comp>, it: McuBlock, last: seq<int>)
    requires Usable(ts, comps) && |comps| == |last| && it.ci < |comps|
  {
    BlockCoded(ts.dc[comps[it.ci].dcTbl], ts.ac[comps[it.ci].acTbl], it.z, last[it.ci])
  }

  function McuBlockBits(ts: Tables, comps: seq<Comp>, it: McuBlock, last: seq<int>): BitSeq
    requires Usable(ts, comps) && |comps| == |last| && it.ci < |comps| && McuBlockCoded(ts, comps, it, last)
  {
    BlockBits(ts.dc[comps[it.ci].dcTbl], ts.ac[comps[it.ci].acTbl], it.z, last[it.ci])
  }

  predicate SegmentCoded(ts: Tables, comps: seq<Comp>, items: seq<McuBlock>, last: seq<int>)
    requires Usable(ts, comps) && |comps| == |last| && BlocksOk(items, |comps|)
    decreases |items|
  {
    items == [] ||
    var n := |items| - 1;
    SegmentCoded(ts, comps, items[..n], last) && McuBlockCoded(ts, comps, items[n], LastDc(items[..n], last))
  }

  function SegmentBitsOf(ts: Tables, comps: seq<Comp>, items: seq<McuBlock>, last: seq<int>): BitSeq
    requires Usable(ts, comps) && |comps| == |last| && BlocksOk(items, |comps|) && SegmentCoded(ts, comps, items, last)
    decreases |items|
  {
    if items == [] then []
    else
      var n := |items| - 1;
      SegmentBitsOf(ts, comps, items[..n], last) + McuBlockBits(ts, comps, items[n], LastDc(items[..n], last))
  }

  function NoDc(n: nat): (last: seq<int>)
    ensures |last| == n
  {
    seq(n, _ => 0)
  }

  /** The blocks can be sent as one segment, which starts without DC predictions. */
  predicate Sendable(ts: Tables, comps: seq<Comp>, items: seq<McuBlock>)
  {
    Usable(ts, comps) && BlocksOk(items, |comps|) && SegmentCoded(ts, comps, items, NoDc(|comps|))
  }

  function SentBits(ts: Tables, comps: seq<Comp>, items: seq<McuBlock>): BitSeq
    requires Sendable(ts, comps, items)
  {
    SegmentBitsOf(ts, comps, items, NoDc(|comps|))
  }

  lemma LastDcSnoc(items: seq<McuBlock>, it: McuBlock, last: seq<int>)
    requires BlocksOk(items, |last|) && it.ci < |last|
    ensures BlocksOk(items + [it], |last|) && LastDc(items + [it], last) == LastDc(items, last)[it.ci := it.z[0]]
  {
    assert (items + [it])[..|items|] == items;
  }

  lemma SegmentSnoc(ts: Tables, comps: seq<Comp>, items: seq<McuBlock>, it: McuBlock, last: seq<int>)
    requires Usable(ts, comps) && |comps| == |last| && BlocksOk(items, |comps|) && it.ci < |comps|
    ensures BlocksOk(items + [it], |comps|)
    ensures SegmentCoded(ts, comps, items + [it], last)
      <==> SegmentCoded(ts, comps, items, last) && McuBlockCoded(ts, comps, it, LastDc(items, last))
    ensures SegmentCoded(ts, comps, items + [it], last) ==>
      SegmentBitsOf(ts, comps, items + [it], last)
          == SegmentBitsOf(ts, comps, items, last) + McuBlockBits(ts, comps, it, LastDc(items, last))
  {
    hide Usable, UsableFor, McuBlockCoded, McuBlockBits;
    assert (items + [it])[..|items|] == items;
  }

  /** A segment starts with the bits of its first blocks, then those of the next one. */
  lemma {:induction false} SegmentSplit(ts: Tables, comps: seq<Comp>, items: seq<McuBlock>, last: seq<int>, i: nat)
    returns (rest: BitSeq)
    requires Usable(ts, comps) && |comps| == |last| && BlocksOk(items, |comps|) && SegmentCoded(ts, comps, items, last)
    requires i <= |items|
    ensures SegmentCoded(ts, comps, items[..i], last)
    ensures SegmentBitsOf(ts, comps, items, last) == SegmentBitsOf(ts, comps, items[..i], last) + rest
    decreases |items|
  {
    hide Usable, UsableFor, McuBlockCoded, McuBlockBits;
    if i == |items| {
      assert items[..i] == items;
      rest := [];
    } else {
      var n := |items| - 1;
      assert items[..n][..i] == items[..i];
      var r := SegmentSplit(ts, comps, items[..n], last, i);
      var b := McuBlockBits(ts, comps, items[n], LastDc(items[..n], last));
      rest := r + b;
      assert (SegmentBitsOf(ts, comps, items[..i], last) + r) + b
          == SegmentBitsOf(ts, comps, items[..i], last) + (r + b);
    }
  }

  // ---------------------------------------------------------------- stepping through a block

  lemma SeqSends(z: Block, k: nat)
    requires 1 <= k <= 63
    ensures Mag(z[k], 0) != 0 ==> k < HeadEnd(WHOLE, z)
    ensures Mag(z[k], 0) == 0 ==> k + 1 != HeadEnd(WHOLE, z)
    ensures Mag(z[k], 0) == Abs(z[k])
  {
    assert Sends(WHOLE, z[k]) <==> Mag(z[k], 0) != 0;
  }

  lemma RestZero(z: Block, k: nat, r: nat)
    requires 1 <= k <= 63 && z[k] == 0
    ensures AcRest(z, k, r) == AcRest(z, k + 1, r + 1)
  {
    hide HeadEnd;
  }

  lemma RestZrl(z: Block, k: nat, r: nat)
    requires 1 <= k <= 63 && z[k] != 0 && r > 15
    ensures AcRest(z, k, r) == [Sym(ZRL)] + AcRest(z, k, r - 16)
  {
    hide HeadEnd;
    SeqSends(z, k);
    assert InitialHead(WHOLE, z, k, HeadEnd(WHOLE, z), r)
        == [Sym(ZRL)] + InitialHead(WHOLE, z, k, HeadEnd(WHOLE, z), r - 16);
  }

  lemma RestValue(z: Block, k: nat, r: nat)
    requires 1 <= k <= 63 && z[k] != 0 && r <= 15
    ensures var n := BitLen(Abs(z[k]));
      AcRest(z, k, r) == [Sym(16 * r + n)] + ([Raw(MagBits(z[k], n))] + AcRest(z, k + 1, 0))
  {
    hide HeadEnd, BitLen, MagBits;
    SeqSends(z, k);
    var n := BitLen(Abs(z[k]));
    assert SignedMag(z[k], 0) == z[k];
    var h := InitialHead(WHOLE, z, k + 1, HeadEnd(WHOLE, z), 0);
    assert InitialHead(WHOLE, z, k, HeadEnd(WHOLE, z), r) == [Sym(16 * r + n), Raw(MagBits(z[k], n))] + h;
    assert ([Sym(16 * r + n), Raw(MagBits(z[k], n))] + h) + EndOfBlock(z)
        == [Sym(16 * r + n)] + ([Raw(MagBits(z[k], n))] + (h + EndOfBlock(z)));
  }

  lemma RestDone(z: Block, r: nat)
    ensures AcRest(z, 64, r) == EndOfBlock(z)
  {
    hide HeadEnd;
    assert [] + EndOfBlock(z) == EndOfBlock(z);
  }
}
