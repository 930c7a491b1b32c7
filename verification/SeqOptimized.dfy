/** Optimized sequential coding: the tables generated from the counts of a statistics pass have a code for
    every symbol of the output pass, for every table that some component uses. */
module SeqOptimized {
  import opened Bits
  import opened Coef
  import opened Huffman
  import opened HuffTables
  import opened BitOutput
  import opened Segments
  import opened AcScan
  import opened AcRoundTrip
  import opened AcEncoder
  import AcPass
  import HuffmanForest
  import OptimalTable
  import opened OptimizedScan
  import opened SeqScan
  import opened SeqEncoder
  import opened SeqPass
  import opened SeqGather
  import opened GatherPass

  // ---------------------------------------------------------------- which symbols occur

  /** DC symbols are at most 11. */
  predicate SmallSymbols(toks: seq<Token>) {
    forall i | 0 <= i < |toks| && toks[i].Sym? :: toks[i].sym <= MAX_DIFF_BITS
  }

  predicate AcSymbols(toks: seq<Token>) { forall i | 0 <= i < |toks| && toks[i].Sym? :: AcSymbol(toks[i].sym) }

  lemma SymbolsConcat(a: seq<Token>, b: seq<Token>)
    ensures SmallSymbols(a) && SmallSymbols(b) ==> SmallSymbols(a + b)
    ensures AcSymbols(a) && AcSymbols(b) ==> AcSymbols(a + b)
  {
  }

  lemma {:induction false} HeadSymbols(z: Block, k: nat, e: nat, r: nat)
    requires AcInRange(z) && 1 <= k && e <= 64
    ensures AcSymbols(InitialHead(WHOLE, z, k, e, r))
    decreases if k < e then e - k else 0, r
  {
    hide Mag, BitLen, MagBits, SignedMag, Pow2;
    if k < e {
      if Mag(z[k], 0) == 0 {
        HeadSymbols(z, k + 1, e, r + 1);
      } else if r > 15 {
        HeadSymbols(z, k, e, r - 16);
      } else {
        HeadSymbols(z, k + 1, e, 0);
        CategoryBound(Abs(SignedMag(z[k], 0)));
      }
    }
  }

  lemma CategoryBound(m: nat)
    ensures m < Pow2(MAX_COEF_BITS) ==> BitLen(m) <= MAX_COEF_BITS
  {
    hide Pow2, BitLen;
    if m < Pow2(MAX_COEF_BITS) {
      BitLenBound(m, MAX_COEF_BITS);
    }
  }

  lemma BlockSymbols(z: Block)
    requires AcInRange(z)
    ensures AcSymbols(AcTokens(z)) && HasSymbol(AcTokens(z))
  {
    hide HeadEnd, InitialHead, Sends, HasSymbol, AcInRange;
    EndSymbol(z);
    HeadSymbols(z, 1, HeadEnd(WHOLE, z), 0);
    SymbolsConcat(InitialHead(WHOLE, z, 1, HeadEnd(WHOLE, z), 0), EndOfBlock(z));
    if HeadEnd(WHOLE, z) <= 63 {
      SymbolFirst(EndOfBlock(z));
    } else {
      HeadSends(WHOLE, z, 1, HeadEnd(WHOLE, z), 0, []);
    }
    SymbolInEither(InitialHead(WHOLE, z, 1, HeadEnd(WHOLE, z), 0), EndOfBlock(z));
  }

  /** The symbols of a segment ... */
  lemma {:induction false} ItemsSymbols(comps: seq<Comp>, tbl: nat, items: seq<McuBlock>)
    requires BlocksOk(items, |comps|) && ItemsInRange(comps, items)
    ensures SmallSymbols(DcToks(comps, tbl, items)) && AcSymbols(AcToks(comps, tbl, items))
    decreases |items|
  {
    hide BitLen, AcInRange, AcTokens, LastDc, SmallSymbols, AcSymbols;
    NoSymbolsYet();
    if items != [] {
      var n := |items| - 1;
      ItemsSymbols(comps, tbl, items[..n]);
      BlockSymbols(items[n].z);
      var d := DcSym(items[n].z, LastDc(items[..n], NoDc(|comps|))[items[n].ci]);
      OneSmall(d);
      SymbolsConcat(DcToks(comps, tbl, items[..n]), if comps[items[n].ci].dcTbl == tbl then [d] else []);
      SymbolsConcat(AcToks(comps, tbl, items[..n]), if comps[items[n].ci].acTbl == tbl then AcTokens(items[n].z)
          else []);
    }
  }

  lemma NoSymbolsYet()
    ensures SmallSymbols([]) && AcSymbols([])
  {
  }

  lemma OneSmall(tok: Token)
    requires tok.Sym? && tok.sym <= MAX_DIFF_BITS
    ensures SmallSymbols([tok]) && HasSymbol([tok])
  {
    assert [tok][0].Sym?;
  }

  /** ... among them one for every component with a block in it. */
  lemma {:induction false} ItemsSend(comps: seq<Comp>, items: seq<McuBlock>, i: nat)
    requires BlocksOk(items, |comps|) && ItemsInRange(comps, items) && i < |items|
    ensures HasSymbol(DcToks(comps, comps[items[i].ci].dcTbl, items))
        && HasSymbol(AcToks(comps, comps[items[i].ci].acTbl, items))
    decreases |items|
  {
    hide BitLen, AcInRange, AcTokens, LastDc, HasSymbol;
    var n := |items| - 1;
    var c := comps[items[i].ci];
    var d := DcSym(items[n].z, LastDc(items[..n], NoDc(|comps|))[items[n].ci]);
    BlockSymbols(items[n].z);
    OneSmall(d);
    if i < n {
      ItemsSend(comps, items[..n], i);
    }
    SymbolInSome(DcToks(comps, c.dcTbl, items[..n]), if comps[items[n].ci].dcTbl == c.dcTbl then [d] else []);
    SymbolInSome(AcToks(comps, c.acTbl, items[..n]), if comps[items[n].ci].acTbl == c.acTbl then AcTokens(items[n].z)
        else []);
  }

  lemma SymbolInSome(a: seq<Token>, b: seq<Token>)
    ensures HasSymbol(a) || HasSymbol(b) ==> HasSymbol(a + b)
  {
    hide HasSymbol;
    if HasSymbol(a) || HasSymbol(b) {
      SymbolInEither(a, b);
    }
  }

  // ---------------------------------------------------------------- the symbols of a scan

  lemma {:induction false} ScanSymbols(comps: seq<Comp>, tbl: nat, groups: seq<seq<Mcu>>)
    requires GroupsInRange(comps, groups)
    ensures AllBlocksOk(groups, |comps|)
    ensures SmallSymbols(ScanDcToks(comps, tbl, groups)) && AcSymbols(ScanAcToks(comps, tbl, groups))
    decreases |groups|
  {
    hide SmallSymbols, AcSymbols, DcToks, AcToks, ItemsInRange;
    NoSymbolsYet();
    if groups != [] {
      var n := |groups| - 1;
      GroupsSplitLast(groups);
      RangeSplit(comps, groups[..n], groups[n]);
      ScanSymbols(comps, tbl, groups[..n]);
      ItemsSymbols(comps, tbl, Joined(groups[n]));
      SymbolsConcat(ScanDcToks(comps, tbl, groups[..n]), DcToks(comps, tbl, Joined(groups[n])));
      SymbolsConcat(ScanAcToks(comps, tbl, groups[..n]), AcToks(comps, tbl, Joined(groups[n])));
    }
  }

  /** A table that covers a scan covers each of its segments. */
  lemma {:induction false} ScanCovers(comps: seq<Comp>, c: Comp, dc: HuffTable, ac: HuffTable, groups: seq<seq<Mcu>>,
        i: nat)
    requires AllBlocksOk(groups, |comps|) && i < |groups| && dc.Shaped() && ac.Shaped()
    requires Coded(dc, ScanDcToks(comps, c.dcTbl, groups)) && Coded(ac, ScanAcToks(comps, c.acTbl, groups))
    ensures Coded(dc, DcToks(comps, c.dcTbl, Joined(groups[i]))) && Coded(ac, AcToks(comps, c.acTbl, Joined(groups[i])))
    decreases |groups|
  {
    hide Coded, DcToks, AcToks, HuffTable.Shaped, BlocksOk;
    var n := |groups| - 1;
    CodedParts(dc, ScanDcToks(comps, c.dcTbl, groups[..n]), DcToks(comps, c.dcTbl, Joined(groups[n])));
    CodedParts(ac, ScanAcToks(comps, c.acTbl, groups[..n]), AcToks(comps, c.acTbl, Joined(groups[n])));
    if i < n {
      ScanCovers(comps, c, dc, ac, groups[..n], i);
    }
  }

  /** The tables that components use have codes for all symbols of the scan. */
  predicate ScanCovered(ts: Tables, comps: seq<Comp>, groups: seq<seq<Mcu>>)
    requires AllBlocksOk(groups, |comps|)
  {
    forall ci | 0 <= ci < |comps| :: ScanCoveredFor(ts, comps, groups, comps[ci])
  }

  predicate ScanCoveredFor(ts: Tables, comps: seq<Comp>, groups: seq<seq<Mcu>>, c: Comp)
    requires AllBlocksOk(groups, |comps|)
  {
    UsableFor(ts, c) && Covers(ts.dc[c.dcTbl], ScanDcToks(comps, c.dcTbl, groups))
        && Covers(ts.ac[c.acTbl], ScanAcToks(comps, c.acTbl, groups))
  }

  predicate Covers(t: HuffTable, toks: seq<Token>) { t.Shaped() && Coded(t, toks) }

  /** The two passes agree: once every symbol counted has a code, no symbol of the output pass lacks one. */
  lemma CountedScanIsCoded(ts: Tables, comps: seq<Comp>, groups: seq<seq<Mcu>>)
    requires GroupsInRange(comps, groups) && AllBlocksOk(groups, |comps|) && ScanCovered(ts, comps, groups)
    ensures GroupsCoded(ts, comps, groups)
  {
    hide Coded, ScanDcToks, ScanAcToks, UsableFor, BlocksOk, ItemsInRange, Sendable;
    forall i | 0 <= i < |groups|
      ensures GroupCoded(ts, comps, groups[i])
    {
      SegmentCovered(ts, comps, groups, i);
      CountedIsSendable(ts, comps, Joined(groups[i]));
    }
  }

  lemma SegmentCovered(ts: Tables, comps: seq<Comp>, groups: seq<seq<Mcu>>, i: nat)
    requires AllBlocksOk(groups, |comps|) && ScanCovered(ts, comps, groups) && i < |groups|
    ensures Usable(ts, comps) && BlocksOk(Joined(groups[i]), |comps|) && Covered(ts, comps, Joined(groups[i]))
  {
    hide Coded, ScanDcToks, ScanAcToks, BlocksOk, DcToks, AcToks, HuffTable.Shaped, HuffTable.ValidCounts;
    var items := Joined(groups[i]);
    forall ci | 0 <= ci < |comps|
      ensures UsableFor(ts, comps[ci]) && CoveredFor(ts, comps, items, comps[ci])
    {
      var c := comps[ci];
      assert ScanCoveredFor(ts, comps, groups, c);
      ScanCovers(comps, c, ts.dc[c.dcTbl], ts.ac[c.acTbl], groups, i);
    }
  }

  // ---------------------------------------------------------------- the generated tables

  /** The counts of one table. */
  function Row(a: array2<nat>, i: nat): (f: seq<nat>)
    requires a.Length0 == 4 && a.Length1 == 257 && i < 4
    reads a
    ensures |f| == 257
  {
    seq(257, s requires 0 <= s < 257 reads a => a[i, s])
  }

  lemma RowCounts(a: array2<nat>, toks: seq<seq<Token>>, i: nat)
    requires Tally(a, toks) && i < 4
    ensures a.Length0 == 4 && a.Length1 == 257 && |toks| == 4 && CountsOf(Row(a, i), toks[i])
  {
    hide Occurs;
  }

  /** What the table generator asks for: a symbol, not too many different ones, and counts that its search finds. */
  ghost predicate Suitable(toks: seq<Token>)
  {
    HasSymbol(toks) && (SmallSymbols(toks) || AcSymbols(toks)) && SymbolCount(toks) < 1000000000
  }

  lemma SuitableBytes(toks: seq<Token>)
    requires Suitable(toks)
    ensures ByteSymbols(toks)
  {
  }

  lemma {:induction false} FewBelow(f: seq<nat>, n: nat, m: nat)
    requires n <= |f| && forall s | m <= s < n :: f[s] == 0
    ensures OptimalTable.RealSymbols(f, n) <= m
  {
    if n > 0 {
      FewBelow(f, n - 1, m);
      RealBound(f, n);
    }
  }

  lemma {:induction false} RealBound(f: seq<nat>, n: nat)
    requires n <= |f|
    ensures OptimalTable.RealSymbols(f, n) <= n
  {
    if n > 0 {
      RealBound(f, n - 1);
    }
  }

  lemma SuitableFits(f: seq<nat>, toks: seq<Token>)
    requires CountsOf(f, toks) && Suitable(toks)
    ensures 1 <= OptimalTable.RealSymbols(f, 256) <= 254
    ensures HuffmanForest.Sum(OptimalTable.WithPseudo(f), 257) <= SymbolCount(toks) + 1 <= 1000000000
  {
    hide HuffmanForest.Sum, Occurs, OptimalTable.RealSymbols, SymbolCount, OptimalTable.WithPseudo;
    SuitableBytes(toks);
    CountsTotal(f, toks);
    SumPseudo(f);
    var i :| 0 <= i < |toks| && toks[i].Sym?;
    OccursAt2(toks, i);
    SomeCounted(f, 256, toks[i].sym);
    if AcSymbols(toks) {
      FewSymbols(f, toks, 16);
    } else {
      FewSmall(f, toks);
    }
  }

  lemma OccursAt2(toks: seq<Token>, i: nat)
    requires i < |toks| && toks[i].Sym?
    ensures Occurs(toks, toks[i].sym) > 0
  {
    AcPass.OccursAt(toks, i);
  }

  lemma FewSmall(f: seq<nat>, toks: seq<Token>)
    requires CountsOf(f, toks) && SmallSymbols(toks)
    ensures OptimalTable.RealSymbols(f, 256) <= 12
  {
    hide Occurs;
    forall s | 12 <= s < 256
      ensures f[s] == 0
    {
      NotOccurring(toks, s);
    }
    FewBelow(f, 256, 12);
  }

  /** A table with a code for just the symbols that occur. */
  ghost predicate Fitting(t: HuffTable, toks: seq<Token>)
  {
    && t.Valid() && (forall s: nat | s < 256 :: t.HasCode(s) <==> Occurs(toks, s) > 0)
    && OptimalTable.Optimized(t, Histogram(toks))
  }

  /** jpeg_gen_optimal_table on the counts of one table. */
  method TableFor(a: array2<nat>, i: nat, ghost toks: seq<seq<Token>>) returns (ok: bool, t: HuffTable)
    requires Tally(a, toks) && i < 4 && Suitable(toks[i])
    ensures |toks| == 4 && (ok ==> Fitting(t, toks[i])) && (ShortCodes(toks[i]) ==> ok)
  {
    hide HuffmanForest.Sum, Occurs, OptimalTable.RealSymbols, SymbolCount, OptimalTable.WithPseudo, Suitable,
        HuffTable.Valid, HuffTable.HasCode, OptimalTable.OptimizedBy, OptimalTable.Optimized, Histogram,
        OptimalTable.LengthsLimited;
    RowCounts(a, toks, i);
    SuitableFits(Row(a, i), toks[i]);
    var freq := new nat[257](s requires 0 <= s < 257 reads a => a[i, s]);
    assert freq[..] == Row(a, i);
    ghost var sizes;
    ok, t, sizes := OptimalTable.GenOptimalTable(freq);
    CountsHistogram(Row(a, i), toks[i]);
    if ok {
      OptimalTable.IsOptimized(t, Row(a, i), sizes);
    }
  }

  /** Such a table is accepted, and has codes for everything counted. */
  lemma FittingCodes(t: HuffTable, toks: seq<Token>)
    requires Fitting(t, toks)
    ensures t.Shaped() && t.ValidCounts()
    ensures ByteSymbols(toks) ==> Coded(t, toks) && Accepted(t, false)
    ensures SmallSymbols(toks) ==> Coded(t, toks) && Accepted(t, true)
  {
    hide Occurs, HuffTable.HasCode, HuffTable.Count, HuffTable.First, HuffTable.DistinctSymbols, HuffTable.ValidCounts,
      OptimalTable.Optimized;
    if ByteSymbols(toks) || SmallSymbols(toks) {
      forall i | 0 <= i < |toks| && toks[i].Sym?
        ensures t.HasCode(toks[i].sym)
      {
        OccursAt2(toks, i);
      }
    }
    AllByteSymbols(t);
    ValidSize(t);
    if SmallSymbols(toks) {
      forall p | 0 <= p < t.Count(16)
        ensures t.huffval[p] <= 15
      {
        ListedHasCode(t, p);
        if t.huffval[p] > 15 {
          NotOccurring(toks, t.huffval[p]);
        }
      }
    }
  }

  lemma ValidSize(t: HuffTable)
    requires t.Valid()
    ensures |t.huffval| == 256 && t.Count(16) <= 256
  {
    hide HuffTable.Count, HuffTable.First;
  }

  lemma ListedHasCode(t: HuffTable, p: nat)
    requires t.Shaped() && t.Count(16) <= 256 && p < t.Count(16)
    ensures t.huffval[p] < 256 && t.HasCode(t.huffval[p])
  {
    hide HuffTable.Count;
  }

  /** All rows that components use are suitable. */
  ghost predicate RowsSuitable(comps: seq<Comp>, dcRows: seq<seq<Token>>, acRows: seq<seq<Token>>)
  {
    |dcRows| == 4 && |acRows| == 4 && forall ci | 0 <= ci < |comps| :: RowSuitable(comps[ci], dcRows, acRows)
  }

  ghost predicate RowSuitable(c: Comp, dcRows: seq<seq<Token>>, acRows: seq<seq<Token>>)
    requires |dcRows| == 4 && |acRows| == 4
  {
    && c.dcTbl < 4 && c.acTbl < 4 && Suitable(dcRows[c.dcTbl]) && Suitable(acRows[c.acTbl])
    && SmallSymbols(dcRows[c.dcTbl]) && ByteSymbols(acRows[c.acTbl])
  }

  ghost predicate ListFits(ts: seq<HuffTable>, did: seq<bool>, rows: seq<seq<Token>>)
  {
    |ts| == 4 && |did| == 4 && |rows| == 4 && forall i: nat | i < 4 && did[i] :: Fitting(ts[i], rows[i])
  }

  predicate AllShaped(ts: seq<HuffTable>) { forall i | 0 <= i < |ts| :: ts[i].Shaped() }

  /** A new table for `tbl`, unless that has been done. */
  method GenerateOnce(ts: seq<HuffTable>, did: seq<bool>, counts: array2<nat>, tbl: nat, ghost rows: seq<seq<Token>>)
    returns (ok: bool, ts': seq<HuffTable>, did': seq<bool>)
    requires ListFits(ts, did, rows) && AllShaped(ts) && Tally(counts, rows) && tbl < 4 && Suitable(rows[tbl])
    ensures ok ==> ListFits(ts', did', rows) && AllShaped(ts') && did'[tbl]
    ensures ok ==> |did'| == 4 && forall i | 0 <= i < 4 && did[i] :: did'[i]
    ensures ShortCodes(rows[tbl]) ==> ok
  {
    hide Tally, Suitable, Fitting, HuffTable.Shaped, ShortCodes;
    ok, ts', did' := true, ts, did;
    if !did[tbl] {
      var t;
      ok, t := TableFor(counts, tbl, rows);
      if !ok {
        return;
      }
      FittingCodes(t, rows[tbl]);
      ts' := ts[tbl := t];
      did' := did[tbl := true];
    }
  }

  /** finish_pass_gather: a new table for every table used, generated once.  It fails only if a table is used for
      too many symbols. */
  method FinishPassGather(comps: seq<Comp>, dcCounts: array2<nat>, acCounts: array2<nat>, ts0: Tables,
        ghost dcRows: seq<seq<Token>>, ghost acRows: seq<seq<Token>>)
    returns (ok: bool, ts: Tables)
    requires Tally(dcCounts, dcRows) && Tally(acCounts, acRows) && RowsSuitable(comps, dcRows, acRows)
        && TablesShaped(ts0)
    ensures ok ==> TablesShaped(ts) && forall ci | 0 <= ci < |comps| :: FittingFor(ts, comps[ci], dcRows, acRows)
    ensures (forall ci | 0 <= ci < |comps| :: ShortFor(comps[ci], dcRows, acRows)) ==> ok
  {
    hide Tally, Suitable, SmallSymbols, ByteSymbols, Fitting, HuffTable.Shaped, ShortCodes;
    ts := ts0;
    var dcs, acs := ts0.dc, ts0.ac;
    var didDc, didAc := [false, false, false, false], [false, false, false, false];
    for ci := 0 to |comps|
      invariant ListFits(dcs, didDc, dcRows) && AllShaped(dcs)
      invariant ListFits(acs, didAc, acRows) && AllShaped(acs)
      invariant forall cj | 0 <= cj < ci :: DidFor(comps[cj], didDc, didAc)
    {
      assert RowSuitable(comps[ci], dcRows, acRows);
      ok, dcs, didDc := GenerateOnce(dcs, didDc, dcCounts, comps[ci].dcTbl, dcRows);
      if !ok {
        assert !ShortFor(comps[ci], dcRows, acRows);
        return;
      }
      ok, acs, didAc := GenerateOnce(acs, didAc, acCounts, comps[ci].acTbl, acRows);
      if !ok {
        assert !ShortFor(comps[ci], dcRows, acRows);
        return;
      }
    }
    ok, ts := true, Tables(dcs, acs);
    forall ci | 0 <= ci < |comps|
      ensures FittingFor(ts, comps[ci], dcRows, acRows)
    {
      assert DidFor(comps[ci], didDc, didAc);
    }
  }

  /** Both tables of a component are used for so few symbols that no code can get too long. */
  predicate ShortFor(c: Comp, dcRows: seq<seq<Token>>, acRows: seq<seq<Token>>)
  {
    |dcRows| == 4 && |acRows| == 4 && c.dcTbl < 4 && c.acTbl < 4
    && ShortCodes(dcRows[c.dcTbl]) && ShortCodes(acRows[c.acTbl])
  }

  predicate DidFor(c: Comp, didDc: seq<bool>, didAc: seq<bool>)
  {
    |didDc| == 4 && |didAc| == 4 && c.dcTbl < 4 && c.acTbl < 4 && didDc[c.dcTbl] && didAc[c.acTbl]
  }

  ghost predicate FittingFor(ts: Tables, c: Comp, dcRows: seq<seq<Token>>, acRows: seq<seq<Token>>)
  {
    && |ts.dc| == 4 && |ts.ac| == 4 && |dcRows| == 4 && |acRows| == 4 && c.dcTbl < 4 && c.acTbl < 4
    && Fitting(ts.dc[c.dcTbl], dcRows[c.dcTbl]) && Fitting(ts.ac[c.acTbl], acRows[c.acTbl])
  }

  // ---------------------------------------------------------------- both passes

  /** A scan with at least one MCU, every component in it, and not more symbols for any table than can be counted. */
  ghost predicate Manageable(comps: seq<Comp>, membership: seq<nat>, mcus: seq<Mcu>, interval: nat)
  {
    && mcus != [] && (forall i | 0 <= i < |membership| :: membership[i] < |comps|)
    && (forall ci | 0 <= ci < |comps| :: comps[ci].dcTbl < 4 && comps[ci].acTbl < 4 && ci in membership)
    && (AllBlocksOk(Groups(mcus, interval), |comps|) ==>
      forall tbl: nat | tbl < 4 :: Countable(comps, Groups(mcus, interval), tbl))
  }

  predicate Countable(comps: seq<Comp>, groups: seq<seq<Mcu>>, tbl: nat)
    requires AllBlocksOk(groups, |comps|)
  {
    && SymbolCount(ScanDcToks(comps, tbl, groups)) < 1000000000
    && SymbolCount(ScanAcToks(comps, tbl, groups)) < 1000000000
  }

  /** So few symbols for every table that no code can get too long. */
  predicate AllShortCodes(comps: seq<Comp>, groups: seq<seq<Mcu>>)
  {
    AllBlocksOk(groups, |comps|) && forall ci | 0 <= ci < |comps| ::
        ShortCodes(ScanDcToks(comps, comps[ci].dcTbl, groups)) && ShortCodes(ScanAcToks(comps, comps[ci].acTbl, groups))
  }

  lemma RowsAre(comps: seq<Comp>, groups: seq<seq<Mcu>>)
    requires AllBlocksOk(groups, |comps|)
    ensures forall tbl: nat | tbl < 4 ::
        DcRows(comps, groups, [])[tbl] == ScanDcToks(comps, tbl, groups)
            && AcRows(comps, groups, [])[tbl] == ScanAcToks(comps, tbl, groups)
  {
    hide ScanDcToks, ScanAcToks, AllBlocksOk;
    NoToks(comps);
    forall tbl: nat | tbl < 4
      ensures DcRows(comps, groups, [])[tbl] == ScanDcToks(comps, tbl, groups)
          && AcRows(comps, groups, [])[tbl] == ScanAcToks(comps, tbl, groups)
    {
      AppendTwice([], ScanDcToks(comps, tbl, groups), []);
      AppendTwice([], ScanAcToks(comps, tbl, groups), []);
    }
  }

  lemma ShortForAll(comps: seq<Comp>, groups: seq<seq<Mcu>>)
    requires AllShortCodes(comps, groups) && forall ci | 0 <= ci < |comps| :: comps[ci].dcTbl < 4 && comps[ci].acTbl < 4
    ensures forall ci | 0 <= ci < |comps| :: ShortFor(comps[ci], DcRows(comps, groups, []), AcRows(comps, groups, []))
  {
    hide AllBlocksOk, ScanDcToks, ScanAcToks, DcRows, AcRows, ShortCodes;
    RowsAre(comps, groups);
  }

  /** A component with a block in the last MCU uses both its tables. */
  lemma ComponentSends(comps: seq<Comp>, mcus: seq<Mcu>, interval: nat, ci: nat, j: nat)
    requires mcus != [] && GroupsInRange(comps, Groups(mcus, interval)) && AllBlocksOk(Groups(mcus, interval), |comps|)
    requires ci < |comps| && j < |mcus[|mcus| - 1]| && mcus[|mcus| - 1][j].ci == ci
    ensures HasSymbol(ScanDcToks(comps, comps[ci].dcTbl, Groups(mcus, interval)))
    ensures HasSymbol(ScanAcToks(comps, comps[ci].acTbl, Groups(mcus, interval)))
  {
    hide Groups, AllBlocksOk, ItemsInRange, DcToks, AcToks, HasSymbol, Joined;
    var n := |mcus| - 1;
    var m := mcus[n];
    assert mcus[..n] + [m] == mcus;
    NextGroups(mcus[..n], interval, m);
    var g := Groups(mcus, interval);
    var last := g[|g| - 1];
    var before := last[..|last| - 1];
    assert last == before + [m];
    GroupsSplitLast(g);
    RangeSplit(comps, g[..|g| - 1], last);
    GroupGrows(before, m);
    var items := Joined(last);
    assert items[|Joined(before)| + j] == m[j];
    ItemsSend(comps, items, |Joined(before)| + j);
    LastGroupAdds(comps, comps[ci].dcTbl, comps[ci].acTbl, g);
    SymbolInSome(ScanDcToks(comps, comps[ci].dcTbl, g[..|g| - 1]), DcToks(comps, comps[ci].dcTbl, items));
    SymbolInSome(ScanAcToks(comps, comps[ci].acTbl, g[..|g| - 1]), AcToks(comps, comps[ci].acTbl, items));
  }

  lemma LastGroupAdds(comps: seq<Comp>, dcTbl: nat, acTbl: nat, g: seq<seq<Mcu>>)
    requires AllBlocksOk(g, |comps|) && g != []
    ensures AllBlocksOk(g[..|g| - 1], |comps|) && BlocksOk(Joined(g[|g| - 1]), |comps|)
    ensures ScanDcToks(comps, dcTbl, g) == ScanDcToks(comps, dcTbl, g[..|g| - 1])
        + DcToks(comps, dcTbl, Joined(g[|g| - 1]))
    ensures ScanAcToks(comps, acTbl, g) == ScanAcToks(comps, acTbl, g[..|g| - 1])
        + AcToks(comps, acTbl, Joined(g[|g| - 1]))
  {
    hide DcToks, AcToks, BlocksOk;
  }

  /** Every MCU has the blocks that `membership` says. */
  ghost predicate Regular(membership: seq<nat>, mcus: seq<Mcu>)
  {
    forall i | 0 <= i < |mcus| :: RegularMcu(membership, mcus[i])
  }

  predicate RegularMcu(membership: seq<nat>, m: Mcu) {
    |m| == |membership| && forall j | 0 <= j < |m| :: m[j].ci == membership[j]
  }

  lemma RowsFit(comps: seq<Comp>, membership: seq<nat>, mcus: seq<Mcu>, interval: nat)
    requires Manageable(comps, membership, mcus, interval) && Regular(membership, mcus)
    requires GroupsInRange(comps, Groups(mcus, interval)) && AllBlocksOk(Groups(mcus, interval), |comps|)
    ensures RowsSuitable(comps, DcRows(comps, Groups(mcus, interval), []), AcRows(comps, Groups(mcus, interval), []))
  {
    hide Groups, AllBlocksOk, ScanInRange, HasSymbol, SmallSymbols, AcSymbols, ByteSymbols, SymbolCount,
        ScanDcToks, ScanAcToks, DcRows, AcRows, GroupsInRange;
    var g := Groups(mcus, interval);
    RowsAre(comps, g);
    forall ci | 0 <= ci < |comps|
      ensures RowSuitable(comps[ci], DcRows(comps, g, []), AcRows(comps, g, []))
    {
      var c := comps[ci];
      var j :| 0 <= j < |membership| && membership[j] == ci;
      assert RegularMcu(membership, mcus[|mcus| - 1]);
      ComponentSends(comps, mcus, interval, ci, j);
      ScanSymbols(comps, c.dcTbl, g);
      ScanSymbols(comps, c.acTbl, g);
      AcBytes(ScanAcToks(comps, c.acTbl, g));
      assert Countable(comps, g, c.dcTbl) && Countable(comps, g, c.acTbl);
    }
  }

  lemma AcBytes(toks: seq<Token>)
    requires AcSymbols(toks)
    ensures ByteSymbols(toks)
  {
  }

  /** The tables of all components are the best for the symbols they are used for. */
  ghost predicate AllOptimized(ts: Tables, comps: seq<Comp>, groups: seq<seq<Mcu>>)
  {
    AllBlocksOk(groups, |comps|) && forall ci | 0 <= ci < |comps| :: OptimizedFor(ts, comps, groups, comps[ci])
  }

  ghost predicate OptimizedFor(ts: Tables, comps: seq<Comp>, groups: seq<seq<Mcu>>, c: Comp)
    requires AllBlocksOk(groups, |comps|)
  {
    && |ts.dc| == |ts.ac| == 4 && c.dcTbl < 4 && c.acTbl < 4
    && OptimalTable.Optimized(ts.dc[c.dcTbl], Histogram(ScanDcToks(comps, c.dcTbl, groups)))
    && OptimalTable.Optimized(ts.ac[c.acTbl], Histogram(ScanAcToks(comps, c.acTbl, groups)))
  }

  lemma TablesCover(ts: Tables, comps: seq<Comp>, groups: seq<seq<Mcu>>)
    requires AllBlocksOk(groups, |comps|)
    requires RowsSuitable(comps, DcRows(comps, groups, []), AcRows(comps, groups, []))
    requires forall ci | 0 <= ci < |comps| ::
        FittingFor(ts, comps[ci], DcRows(comps, groups, []), AcRows(comps, groups, []))
    ensures TablesAccepted(ts, comps) && ScanCovered(ts, comps, groups) && AllOptimized(ts, comps, groups)
  {
    hide AllBlocksOk, Suitable, OptimalTable.Optimized, Histogram,
        SmallSymbols, AcSymbols, ByteSymbols, ScanDcToks, ScanAcToks, DcRows, AcRows,
        Fitting, Accepted, Coded, HuffTable.ValidCounts, HuffTable.Shaped;
    RowsAre(comps, groups);
    forall ci | 0 <= ci < |comps|
      ensures AcceptedFor(ts, comps[ci]) && ScanCoveredFor(ts, comps, groups, comps[ci])
      ensures OptimizedFor(ts, comps, groups, comps[ci])
    {
      var c := comps[ci];
      var dcRows, acRows := DcRows(comps, groups, []), AcRows(comps, groups, []);
      assert RowSuitable(c, dcRows, acRows) && FittingFor(ts, c, dcRows, acRows);
      FittingCodes(ts.dc[c.dcTbl], dcRows[c.dcTbl]);
      FittingCodes(ts.ac[c.acTbl], acRows[c.acTbl]);
      FittingOptimized(ts.dc[c.dcTbl], dcRows[c.dcTbl]);
      FittingOptimized(ts.ac[c.acTbl], acRows[c.acTbl]);
    }
  }

  lemma FittingOptimized(t: HuffTable, toks: seq<Token>)
    requires Fitting(t, toks)
    ensures OptimalTable.Optimized(t, Histogram(toks))
  {
    hide OptimalTable.Optimized, Histogram;
  }

  /** Count the symbols of a scan, generate all its tables, and write it with them: the only things that can
      go wrong are a value out of range and a table with so many symbols that codes get too long. */
  method WriteOptimizedSequential(w: BitWriter, comps: seq<Comp>, membership: seq<nat>, interval: nat,
        mcus: seq<seq<seq<int>>>, ts0: Tables)
    returns (ok: bool, ts: Tables)
    requires w.Valid() && w.segment == [] && TablesShaped(ts0)
        && forall i | 0 <= i < |mcus| :: McuBlocks(membership, mcus[i])
    requires Manageable(comps, membership, McusOf(membership, mcus), interval)
    modifies w
    ensures ok ==> GroupsInRange(comps, Groups(McusOf(membership, mcus), interval))
    ensures var g := Groups(McusOf(membership, mcus), interval);
      GroupsInRange(comps, g) && AllShortCodes(comps, g) ==> ok
    ensures ok ==> TablesAccepted(ts, comps) && ScanCoded(ts, comps, McusOf(membership, mcus), interval)
    ensures ok ==> AllOptimized(ts, comps, Groups(McusOf(membership, mcus), interval))
    ensures ok ==> w.out == w.done == old(w.done) + ScanData(ts, comps, McusOf(membership, mcus), interval)
  {
    hide BitWriter.Valid, Tally, GroupsInRange, Groups, DcRows, AcRows, AllBlocksOk, TablesAccepted, ScanCovered,
        GroupsCoded, ScanData, RowsSuitable, FittingFor, TablesShaped, AllShortCodes, ShortFor, AllOptimized;
    ts := ts0;
    ghost var all := McusOf(membership, mcus);
    ghost var g := Groups(all, interval);
    var dcCounts, acCounts;
    ok, dcCounts, acCounts := GatherSequential(comps, membership, interval, mcus);
    if !ok {
      return;
    }
    McusRegular(membership, mcus);
    RowsFit(comps, membership, all, interval);
    if AllShortCodes(comps, g) {
      ShortForAll(comps, g);
    }
    ok, ts := FinishPassGather(comps, dcCounts, acCounts, ts0, DcRows(comps, g, []), AcRows(comps, g, []));
    if !ok {
      return;
    }
    TablesCover(ts, comps, g);
    CountedScanIsCoded(ts, comps, g);
    ok := WriteSequential(w, ts, comps, membership, interval, mcus);
  }

  lemma McusRegular(membership: seq<nat>, mcus: seq<seq<seq<int>>>)
    requires forall i | 0 <= i < |mcus| :: McuBlocks(membership, mcus[i])
    ensures Regular(membership, McusOf(membership, mcus))
  {
    forall i | 0 <= i < |mcus|
      ensures RegularMcu(membership, McusOf(membership, mcus)[i])
    {
      assert McuBlocks(membership, mcus[i]);
    }
  }
}
