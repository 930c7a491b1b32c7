/** The statistics pass of the sequential encoder: it counts, table by table, exactly the symbols that the
    output pass sends. */
module SeqGather {
  import opened Bits
  import opened Coef
  import opened Huffman
  import opened Segments
  import opened AcScan
  import opened AcRoundTrip
  import opened AcEncoding
  import opened AcEncoder
  import opened SeqScan
  import opened SeqEncoder
  import opened SeqPass
  import opened Zigzag

  // ---------------------------------------------------------------- counts by table

  /** Row `i` of the counts is for the tokens coded with table `i`. */
  ghost predicate Tally(a: array2<nat>, toks: seq<seq<Token>>)
    reads a
  {
    && a.Length0 == 4 && a.Length1 == 257 && |toks| == 4
    && forall i, s: nat | 0 <= i < 4 && s < 257 :: a[i, s] == Occurs(toks[i], s)
  }

  method CountSym(a: array2<nat>, i: nat, s: nat, ghost toks: seq<seq<Token>>)
    requires Tally(a, toks) && i < 4 && s < 257
    modifies a
    ensures Tally(a, toks[i := toks[i] + [Sym(s)]])
  {
    assert (toks[i] + [Sym(s)])[..|toks[i]|] == toks[i];
    a[i, s] := a[i, s] + 1;
  }

  lemma TallyRaw(a: array2<nat>, i: nat, toks: seq<seq<Token>>, b: BitSeq)
    requires Tally(a, toks) && i < 4
    ensures Tally(a, toks[i := toks[i] + [Raw(b)]])
  {
    assert (toks[i] + [Raw(b)])[..|toks[i]|] == toks[i];
  }

  // ---------------------------------------------------------------- one block

  predicate BlockInRange(z: Block, last: int)
  {
    BitLen(Abs(z[0] - last)) <= MAX_DIFF_BITS && AcInRange(z)
  }

  function DcSym(z: Block, last: int): Token { Sym(BitLen(Abs(z[0] - last))) }

  /** Of the tokens `all` for table `i`, those in `toks` have been counted after those in `base`. */
  ghost predicate Counting(a: array2<nat>, i: nat, base: seq<seq<Token>>, all: seq<Token>, toks: seq<Token>,
        rest: seq<Token>)
    reads a
  {
    i < 4 && |base| == 4 && toks + rest == all && Tally(a, base[i := base[i] + toks])
  }

  lemma RowGrows(base: seq<seq<Token>>, i: nat, a: seq<Token>, b: seq<Token>)
    requires i < |base|
    ensures var m := base[i := base[i] + a]; m[i := m[i] + b] == base[i := base[i] + (a + b)]
  {
    assert (base[i] + a) + b == base[i] + (a + b);
  }

  method CountNext(a: array2<nat>, i: nat, s: nat, ghost base: seq<seq<Token>>, ghost all: seq<Token>,
        ghost toks: seq<Token>, ghost rest: seq<Token>)
    requires Counting(a, i, base, all, toks, [Sym(s)] + rest) && s < 257
    modifies a
    ensures Counting(a, i, base, all, toks + [Sym(s)], rest)
  {
    hide Tally;
    CountSym(a, i, s, base[i := base[i] + toks]);
    RowGrows(base, i, toks, [Sym(s)]);
    assert toks + ([Sym(s)] + rest) == (toks + [Sym(s)]) + rest;
  }

  lemma CountingRaw(a: array2<nat>, i: nat, base: seq<seq<Token>>, all: seq<Token>, toks: seq<Token>, b: BitSeq,
        rest: seq<Token>)
    requires Counting(a, i, base, all, toks, [Raw(b)] + rest)
    ensures Counting(a, i, base, all, toks + [Raw(b)], rest)
  {
    hide Tally;
    TallyRaw(a, i, base[i := base[i] + toks], b);
    RowGrows(base, i, toks, [Raw(b)]);
    assert toks + ([Raw(b)] + rest) == (toks + [Raw(b)]) + rest;
  }

  lemma CountingStarts(a: array2<nat>, i: nat, base: seq<seq<Token>>, all: seq<Token>)
    requires i < 4 && Tally(a, base)
    ensures Counting(a, i, base, all, [], all)
  {
    assert base[i] + [] == base[i] && base[i := base[i]] == base && [] + all == all;
  }

  lemma CountingDone(a: array2<nat>, i: nat, base: seq<seq<Token>>, all: seq<Token>, toks: seq<Token>)
    requires Counting(a, i, base, all, toks, [])
    ensures Tally(a, base[i := base[i] + all])
  {
    hide Tally;
    assert toks + [] == toks;
  }

  /** One nonzero AC coefficient after `r0` zeroes. */
  method CountCoef(a: array2<nat>, i: nat, coef: int, r0: nat, ghost base: seq<seq<Token>>, ghost z: Block,
        ghost toks0: seq<Token>, ghost k: nat)
    returns (ok: bool, ghost toks: seq<Token>)
    requires 1 <= k <= 63 && coef == z[k] != 0 && Counting(a, i, base, AcTokens(z), toks0, AcRest(z, k, r0))
    modifies a
    ensures ok <==> BitLen(Abs(coef)) <= MAX_COEF_BITS
    ensures ok ==> Counting(a, i, base, AcTokens(z), toks, AcRest(z, k + 1, 0))
  {
    hide Counting, AcRest, AcTokens, BitLen, MagBits;
    ok, toks := true, toks0;
    var r: nat := r0;
    while r > 15
      invariant Counting(a, i, base, AcTokens(z), toks, AcRest(z, k, r))
    {
      RestZrl(z, k, r);
      CountNext(a, i, ZRL, base, AcTokens(z), toks, AcRest(z, k, r - 16));
      toks := toks + [Sym(ZRL)];
      r := r - 16;
    }
    var nbits := MagnitudeBits(Abs(coef));
    if nbits > MAX_COEF_BITS {
      return false, toks;
    }
    RestValue(z, k, r);
    var bits := MagBits(coef, nbits);
    RowOf(a, i, base, AcTokens(z), toks, AcRest(z, k, r));
    CountNext(a, i, 16 * r + nbits, base, AcTokens(z), toks, [Raw(bits)] + AcRest(z, k + 1, 0));
    toks := toks + [Sym(16 * r + nbits)];
    CountingRaw(a, i, base, AcTokens(z), toks, bits, AcRest(z, k + 1, 0));
    toks := toks + [Raw(bits)];
  }

  lemma RowOf(a: array2<nat>, i: nat, base: seq<seq<Token>>, all: seq<Token>, toks: seq<Token>, rest: seq<Token>)
    requires Counting(a, i, base, all, toks, rest)
    ensures i < 4 && |base| == 4
  {
    hide Tally;
  }

  method CountAc(block: seq<int>, a: array2<nat>, i: nat, ghost base: seq<seq<Token>>) returns (ok: bool)
    requires Tally(a, base) && i < 4 && |block| == 64
    modifies a
    ensures ok <==> AcInRange(ZigzagOf(block))
    ensures ok ==> Tally(a, base[i := base[i] + AcTokens(ZigzagOf(block))])
  {
    hide Tally, Counting, AcRest, BitLen, HeadEnd, ZigzagOf, Natural, SmallBefore, AcInRange;
    ghost var z, toks := ZigzagOf(block), [];
    CountingStarts(a, i, base, AcTokens(z));
    RangeEnds(z);
    var r: nat, k: nat := 0, 1;
    while k < 64
      invariant 1 <= k <= 64 && Counting(a, i, base, AcTokens(z), toks, AcRest(z, k, r)) && SmallBefore(WHOLE, z, k)
      invariant k >= HeadEnd(WHOLE, z) ==> (r > 0 <==> k > HeadEnd(WHOLE, z))
    {
      StepTo(z, block, k);
      var temp := block[Natural(k)];
      if temp == 0 {
        RestZero(z, k, r);
        r := r + 1;
      } else {
        ok, toks := CountCoef(a, i, temp, r, base, z, toks, k);
        if !ok {
          return;
        }
        r := 0;
      }
      k := k + 1;
    }
    ok := true;
    RestDone(z, r);
    EndSymbol(z);
    if r > 0 {
      assert [Sym(0)] + [] == [Sym(0)];
      CountNext(a, i, 0, base, AcTokens(z), toks, []);
      toks := toks + [Sym(0)];
    }
    CountingDone(a, i, base, AcTokens(z), toks);
  }

  /** htest_one_block. */
  method HtestOneBlock(block: seq<int>, lastDcVal: int, dcCounts: array2<nat>, dctbl: nat, acCounts: array2<nat>,
        actbl: nat, ghost dcToks: seq<seq<Token>>, ghost acToks: seq<seq<Token>>)
    returns (ok: bool)
    requires dcCounts != acCounts && Tally(dcCounts, dcToks) && Tally(acCounts, acToks) && dctbl < 4 && actbl < 4
        && |block| == 64
    modifies dcCounts, acCounts
    ensures ok <==> BlockInRange(ZigzagOf(block), lastDcVal)
    ensures ok ==>
        |dcToks| == 4 && Tally(dcCounts, dcToks[dctbl := dcToks[dctbl] + [DcSym(ZigzagOf(block), lastDcVal)]])
    ensures ok ==> |acToks| == 4 && Tally(acCounts, acToks[actbl := acToks[actbl] + AcTokens(ZigzagOf(block))])
  {
    hide Tally, BitLen, ZigzagOf, AcInRange, AcTokens;
    FirstStored(block);
    TallySize(dcCounts, dcToks);
    TallySize(acCounts, acToks);
    var nbits := MagnitudeBits(Abs(block[0] - lastDcVal));
    if nbits > MAX_DIFF_BITS {
      return false;
    }
    CountSym(dcCounts, dctbl, nbits, dcToks);
    ok := CountAc(block, acCounts, actbl, acToks);
  }

  lemma TallySize(a: array2<nat>, toks: seq<seq<Token>>)
    requires Tally(a, toks)
    ensures |toks| == 4 && a.Length0 == 4 && a.Length1 == 257
  {
  }

  // ---------------------------------------------------------------- what a scan sends, table by table

  /** The symbols of the DC differences that blocks of a segment send with DC table `tbl` ... */
  function DcToks(comps: seq<Comp>, tbl: nat, items: seq<McuBlock>): seq<Token>
    requires BlocksOk(items, |comps|)
    decreases |items|
  {
    if items == [] then []
    else
      var n := |items| - 1;
      var it := items[n];
      DcToks(comps, tbl, items[..n]) + if comps[it.ci].dcTbl == tbl
          then [DcSym(it.z, LastDc(items[..n], NoDc(|comps|))[it.ci])] else []
  }

  /** ... and the AC tokens with AC table `tbl`. */
  function AcToks(comps: seq<Comp>, tbl: nat, items: seq<McuBlock>): seq<Token>
    requires BlocksOk(items, |comps|)
    decreases |items|
  {
    if items == [] then []
    else
      var n := |items| - 1;
      AcToks(comps, tbl, items[..n]) + if comps[items[n].ci].acTbl == tbl then AcTokens(items[n].z) else []
  }

  /** All values of a segment are in range. */
  predicate ItemsInRange(comps: seq<Comp>, items: seq<McuBlock>)
    requires BlocksOk(items, |comps|)
    decreases |items|
  {
    items == [] ||
    var n := |items| - 1;
    ItemsInRange(comps, items[..n]) && BlockInRange(items[n].z, LastDc(items[..n], NoDc(|comps|))[items[n].ci])
  }

  lemma ItemsSnoc(comps: seq<Comp>, items: seq<McuBlock>, it: McuBlock)
    requires BlocksOk(items, |comps|) && it.ci < |comps|
    ensures BlocksOk(items + [it], |comps|)
    ensures var l := LastDc(items, NoDc(|comps|))[it.ci];
      && (ItemsInRange(comps, items + [it]) <==> ItemsInRange(comps, items) && BlockInRange(it.z, l))
      && (forall tbl: nat ::
         DcToks(comps, tbl, items + [it]) == DcToks(comps, tbl, items) + if comps[it.ci].dcTbl == tbl
             then [DcSym(it.z, l)] else [])
      && (forall tbl: nat ::
         AcToks(comps, tbl, items + [it]) == AcToks(comps, tbl, items) + if comps[it.ci].acTbl == tbl
             then AcTokens(it.z) else [])
  {
    hide BlockInRange, AcTokens, LastDc;
    assert (items + [it])[..|items|] == items;
  }

  predicate AllBlocksOk(groups: seq<seq<Mcu>>, n: nat) {
    forall i | 0 <= i < |groups| :: BlocksOk(Joined(groups[i]), n)
  }

  function ScanDcToks(comps: seq<Comp>, tbl: nat, groups: seq<seq<Mcu>>): seq<Token>
    requires AllBlocksOk(groups, |comps|)
  {
    if groups == [] then []
    else ScanDcToks(comps, tbl, groups[..|groups| - 1]) + DcToks(comps, tbl, Joined(groups[|groups| - 1]))
  }

  function ScanAcToks(comps: seq<Comp>, tbl: nat, groups: seq<seq<Mcu>>): seq<Token>
    requires AllBlocksOk(groups, |comps|)
  {
    if groups == [] then []
    else ScanAcToks(comps, tbl, groups[..|groups| - 1]) + AcToks(comps, tbl, Joined(groups[|groups| - 1]))
  }

  predicate ScanInRange(comps: seq<Comp>, groups: seq<seq<Mcu>>)
    requires AllBlocksOk(groups, |comps|)
  {
    forall i | 0 <= i < |groups| :: ItemsInRange(comps, Joined(groups[i]))
  }

  // ---------------------------------------------------------------- the two passes agree

  /** All symbols counted for the tables of the components have codes. */
  predicate Covered(ts: Tables, comps: seq<Comp>, items: seq<McuBlock>)
    requires Usable(ts, comps) && BlocksOk(items, |comps|)
  {
    forall ci | 0 <= ci < |comps| :: CoveredFor(ts, comps, items, comps[ci])
  }

  predicate CoveredFor(ts: Tables, comps: seq<Comp>, items: seq<McuBlock>, c: Comp)
    requires BlocksOk(items, |comps|)
  {
    UsableFor(ts, c) && Coded(ts.dc[c.dcTbl], DcToks(comps, c.dcTbl, items))
        && Coded(ts.ac[c.acTbl], AcToks(comps, c.acTbl, items))
  }

  lemma CoveredBefore(ts: Tables, comps: seq<Comp>, items: seq<McuBlock>, it: McuBlock, c: Comp)
    requires BlocksOk(items + [it], |comps|) && BlocksOk(items, |comps|) && it.ci < |comps|
        && CoveredFor(ts, comps, items + [it], c)
    ensures CoveredFor(ts, comps, items, c)
    ensures c == comps[it.ci] ==>
        Coded(ts.dc[c.dcTbl], [DcSym(it.z, LastDc(items, NoDc(|comps|))[it.ci])])
            && Coded(ts.ac[c.acTbl], AcTokens(it.z))
  {
    hide Coded, AcTokens, LastDc, BitLen, HuffTable.Shaped, HuffTable.ValidCounts, DcToks, AcToks;
    ItemsSnoc(comps, items, it);
    var d := if c.dcTbl == comps[it.ci].dcTbl then [DcSym(it.z, LastDc(items, NoDc(|comps|))[it.ci])] else [];
    var a := if c.acTbl == comps[it.ci].acTbl then AcTokens(it.z) else [];
    CodedParts(ts.dc[c.dcTbl], DcToks(comps, c.dcTbl, items), d);
    CodedParts(ts.ac[c.acTbl], AcToks(comps, c.acTbl, items), a);
  }

  /** With codes for all symbols counted, a segment in range can be sent. */
  lemma {:induction false} CountedIsSendable(ts: Tables, comps: seq<Comp>, items: seq<McuBlock>)
    requires Usable(ts, comps) && BlocksOk(items, |comps|) && ItemsInRange(comps, items) && Covered(ts, comps, items)
    ensures Sendable(ts, comps, items)
    decreases |items|
  {
    hide Coded, AcTokens, LastDc, BitLen, UsableFor, AcInRange, ItemsInRange, CoveredFor, SegmentCoded;
    if items == [] {
      NothingSent(ts, comps);
    } else {
      var n := |items| - 1;
      var before, it := items[..n], items[n];
      assert items == before + [it];
      ItemsSnoc(comps, before, it);
      forall ci | 0 <= ci < |comps|
        ensures CoveredFor(ts, comps, before, comps[ci])
      {
        CoveredBefore(ts, comps, before, it, comps[ci]);
      }
      CoveredBefore(ts, comps, before, it, comps[it.ci]);
      CountedIsSendable(ts, comps, before);
      SegmentSnoc(ts, comps, before, it, NoDc(|comps|));
      assert UsableFor(ts, comps[it.ci]);
      LastCoded(ts, comps[it.ci], it.z, LastDc(before, NoDc(|comps|))[it.ci]);
    }
  }

  lemma LastCoded(ts: Tables, c: Comp, z: Block, last: int)
    requires UsableFor(ts, c) && BlockInRange(z, last) && Coded(ts.dc[c.dcTbl], [DcSym(z, last)])
        && Coded(ts.ac[c.acTbl], AcTokens(z))
    ensures BlockCoded(ts.dc[c.dcTbl], ts.ac[c.acTbl], z, last)
  {
    hide AcTokens, BitLen, AcInRange, HuffTable.HasCode, HuffTable.Shaped, HuffTable.ValidCounts;
    var toks := [DcSym(z, last)];
    assert toks[0].Sym?;
  }
}
