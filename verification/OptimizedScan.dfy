/** Two-pass encoding of a progressive AC scan: the table generated from the symbol counts of the
    first pass has a code for every symbol of the second. */
module OptimizedScan {
  import opened Coef
  import opened Huffman
  import opened HuffTables
  import opened BitOutput
  import opened Segments
  import opened AcScan
  import opened AcEncoding
  import opened AcEncoder
  import opened AcPass
  import opened Zigzag
  import opened HuffmanForest
  import HuffmanOptimal
  import opened OptimalTable

  function SymbolCount(toks: seq<Token>): nat
  {
    if toks == [] then 0 else SymbolCount(toks[..|toks| - 1]) + if toks[|toks| - 1].Sym? then 1 else 0
  }

  /** How often each symbol occurs. */
  function Histogram(toks: seq<Token>): (freq: seq<nat>)
    ensures |freq| == 257
  {
    seq(257, s requires 0 <= s < 257 => Occurs(toks, s))
  }

  lemma CountedHistogram(counts: seq<nat>, toks: seq<Token>)
    requires CountsAre(counts, toks)
    ensures counts == Histogram(toks)
  {
    hide Occurs;
    CountsHistogram(counts, toks);
  }

  lemma CountsHistogram(counts: seq<nat>, toks: seq<Token>)
    requires CountsOf(counts, toks)
    ensures counts == Histogram(toks)
  {
    hide Occurs;
  }

  // ---------------------------------------------------------------- totals

  lemma {:induction false} SumAdd(f: seq<nat>, s: nat, n: nat)
    requires n <= |f| && s < |f|
    ensures Sum(f[s := f[s] + 1], n) == Sum(f, n) + if s < n then 1 else 0
    decreases n
  {
    if n > 0 {
      SumAdd(f, s, n - 1);
    }
  }

  lemma {:induction false} SumZero(f: seq<nat>, n: nat)
    requires n <= |f| && forall s | 0 <= s < |f| :: f[s] == 0
    ensures Sum(f, n) == 0
  {
    if n > 0 {
      SumZero(f, n - 1);
    }
  }

  predicate ByteSymbols(toks: seq<Token>) { forall i | 0 <= i < |toks| && toks[i].Sym? :: toks[i].sym < 256 }

  /** The counts add up to the number of symbols. */
  lemma {:induction false} CountsTotal(counts: seq<nat>, toks: seq<Token>)
    requires CountsOf(counts, toks) && ByteSymbols(toks)
    ensures Sum(counts, 257) == SymbolCount(toks)
    decreases |toks|
  {
    hide Sum;
    if toks == [] {
      SumZero(counts, 257);
    } else {
      var n := |toks| - 1;
      var tok := toks[n];
      assert toks[..n] + [tok] == toks;
      if tok.Sym? {
        assert Occurs(toks, tok.sym) >= 1;
        var before := counts[tok.sym := (counts[tok.sym] - 1) as nat];
        CountsBefore(counts, toks);
        CountsTotal(before, toks[..n]);
        SumAdd(before, tok.sym, 257);
        assert before[tok.sym := before[tok.sym] + 1] == counts;
      } else {
        CountsBefore(counts, toks);
        CountsTotal(counts, toks[..n]);
      }
    }
  }

  lemma CountsBefore(counts: seq<nat>, toks: seq<Token>)
    requires CountsOf(counts, toks) && ByteSymbols(toks) && toks != []
    ensures var n := |toks| - 1; var tok := toks[n];
      if tok.Sym? then tok.sym < 257 && counts[tok.sym] >= 1
                       && CountsOf(counts[tok.sym := (counts[tok.sym] - 1) as nat], toks[..n])
      else CountsOf(counts, toks[..n])
  {
    var n := |toks| - 1;
    forall s: nat | s < 257
      ensures counts[s] == Occurs(toks[..n], s) + if toks[n] == Sym(s) then 1 else 0
    {
    }
  }

  lemma SumPseudo(f: seq<nat>)
    requires |f| == SYMBOLS
    ensures Sum(WithPseudo(f), SYMBOLS) <= Sum(f, SYMBOLS) + 1
  {
    assert Sum(f, 257) == Sum(f, 256) + f[256];
    assert Sum(WithPseudo(f), 257) == Sum(WithPseudo(f), 256) + 1;
    SumSame(f, WithPseudo(f), 256);
  }

  lemma {:induction false} SumSame(f: seq<nat>, g: seq<nat>, n: nat)
    requires n <= |f| == |g| && forall s | 0 <= s < n :: f[s] == g[s]
    ensures Sum(f, n) == Sum(g, n)
  {
    if n > 0 {
      SumSame(f, g, n - 1);
    }
  }

  // ---------------------------------------------------------------- how many symbols are in use

  /** AC symbols are at most 11 in 16. */
  lemma {:induction false} FewSymbols(counts: seq<nat>, toks: seq<Token>, rows: nat)
    requires CountsAre(counts, toks) && rows <= 16
    ensures RealSymbols(counts, 16 * rows) <= 11 * rows
  {
    hide RealSymbols, CountsAre;
    NoSymbols(counts);
    if rows > 0 {
      FewSymbols(counts, toks, rows - 1);
      RowSymbols(counts, toks, 16 * (rows - 1), 16);
    }
  }

  lemma NoSymbols(counts: seq<nat>)
    ensures RealSymbols(counts, 0) == 0
  {
  }

  lemma {:induction false} RowSymbols(counts: seq<nat>, toks: seq<Token>, start: nat, n: nat)
    requires CountsAre(counts, toks) && start % 16 == 0 && n <= 16 && start + n <= 256
    ensures RealSymbols(counts, start + n) <= RealSymbols(counts, start) + if n <= 11 then n else 11
    decreases n
  {
    hide CountsAre;
    CountsSize(counts, toks);
    if n > 0 {
      RowSymbols(counts, toks, start, n - 1);
      if n - 1 > MAX_COEF_BITS {
        NotCounted(counts, toks, start + n - 1);
      }
    }
  }

  lemma CountsSize(counts: seq<nat>, toks: seq<Token>)
    requires CountsAre(counts, toks)
    ensures |counts| == 257
  {
  }

  lemma {:induction false} NotOccurring(toks: seq<Token>, s: nat)
    requires forall i | 0 <= i < |toks| && toks[i].Sym? :: toks[i].sym != s
    ensures Occurs(toks, s) == 0
    decreases |toks|
  {
    if toks != [] {
      NotOccurring(toks[..|toks| - 1], s);
    }
  }

  lemma NotCounted(counts: seq<nat>, toks: seq<Token>, s: nat)
    requires CountsAre(counts, toks) && s < 256 && s % 16 > MAX_COEF_BITS
    ensures counts[s] == 0
  {
    NotOccurring(toks, s);
  }

  lemma {:induction false} SomeCounted(counts: seq<nat>, n: nat, s: nat)
    requires n <= |counts| && s < n && counts[s] > 0
    ensures RealSymbols(counts, n) >= 1
    decreases n
  {
    if s < n - 1 {
      SomeCounted(counts, n - 1, s);
    }
  }

  // ---------------------------------------------------------------- every scan sends a symbol

  predicate HasSymbol(toks: seq<Token>) { exists i | 0 <= i < |toks| :: toks[i].Sym? }

  lemma SymbolFirst(toks: seq<Token>)
    requires toks != [] && toks[0].Sym?
    ensures HasSymbol(toks)
  {
  }

  lemma SymbolInEither(a: seq<Token>, b: seq<Token>)
    requires HasSymbol(a) || HasSymbol(b)
    ensures HasSymbol(a + b)
  {
    if HasSymbol(a) {
      var i :| 0 <= i < |a| && a[i].Sym?;
      assert (a + b)[i].Sym?;
    } else {
      var i :| 0 <= i < |b| && b[i].Sym?;
      assert (a + b)[|a| + i].Sym?;
    }
  }

  lemma {:induction false} HeadSends(sc: Scan, z: Block, k: nat, e: nat, r: nat, br: Bits.BitSeq)
    requires sc.Valid() && sc.ss <= k < e <= sc.se + 1 && Sends(sc, z[e - 1])
    ensures if sc.mode == Initial then HasSymbol(InitialHead(sc, z, k, e, r))
        else HasSymbol(RefineHead(sc, z, k, e, r, br))
    decreases e - k, r
  {
    hide Mag, BitLen, MagBits, SignedMag, HasSymbol;
    if Mag(z[k], sc.al) == 0 {
      HeadSends(sc, z, k + 1, e, r + 1, br);
    } else if sc.mode == Initial {
      SymbolFirst(InitialHead(sc, z, k, e, r));
    } else if r <= 15 && Mag(z[k], sc.al) > 1 {
      HeadSends(sc, z, k + 1, e, r, br + [Mag(z[k], sc.al) % 2 == 1]);
    } else {
      SymbolFirst(RefineHead(sc, z, k, e, r, br));
    }
  }

  lemma EobSends(p: AcScan.Pending)
    requires p.eobrun > 0
    ensures HasSymbol(EobTokens(p))
  {
    hide BitLen;
    SymbolFirst(EobTokens(p));
  }

  /** A block sends a symbol or leaves an end-of-band run pending. */
  lemma BlockSends(sc: Scan, z: Block, p: AcScan.Pending)
    requires sc.Valid()
    ensures HasSymbol(EncodeBlock(sc, z, p).0) || EncodeBlock(sc, z, p).1.eobrun > 0
  {
    hide HasSymbol, EobTokens, InitialHead, RefineHead, EndBefore, Tail, Full, Sends;
    var e := HeadEnd(sc, z);
    if e > sc.se {
      HeadSends(sc, z, sc.ss, e, 0, []);
      SymbolInEither(EobTokens(p), Head(sc, z));
    } else {
      var p1 := if e > sc.ss then NONE else p;
      var p2 := AcScan.Pending(p1.eobrun + 1, p1.be + Tail(sc, z, e));
      EobSends(p2);
      SymbolInEither(if e > sc.ss then EobTokens(p) + Head(sc, z) else [], EobTokens(p2));
    }
  }

  lemma SegmentSends(sc: Scan, zs: seq<Block>)
    requires sc.Valid() && zs != []
    ensures HasSymbol(SegmentTokens(sc, zs))
  {
    hide HasSymbol, EobTokens, EncodeBlock;
    var n := |zs| - 1;
    var before := Fold(sc, zs[..n]);
    BlockSends(sc, zs[n], before.1);
    var toks, p := EncodeBlock(sc, zs[n], before.1).0, EncodeBlock(sc, zs[n], before.1).1;
    if p.eobrun > 0 {
      EobSends(p);
      SymbolInEither(before.0 + toks, EobTokens(p));
    } else {
      SymbolInEither(before.0, toks);
      SymbolInEither(before.0 + toks, EobTokens(p));
    }
  }

  lemma {:induction false} LastGroupNotEmpty<T>(mcus: seq<T>, interval: nat)
    requires mcus != []
    ensures var g := Groups(mcus, interval); g[|g| - 1] != []
    decreases |mcus|
  {
    if interval > 0 && |mcus| > interval {
      LastGroupNotEmpty(mcus[interval..], interval);
    }
  }

  lemma ScanSends(sc: Scan, zs: seq<Block>, interval: nat)
    requires sc.Valid() && zs != []
    ensures HasSymbol(ScanTokens(sc, Groups(zs, interval)))
  {
    hide HasSymbol, Fold, EobTokens, Groups, SegmentTokens;
    var g := Groups(zs, interval);
    LastGroupNotEmpty(zs, interval);
    SegmentSends(sc, g[|g| - 1]);
    SymbolInEither(ScanTokens(sc, g[..|g| - 1]), SegmentTokens(sc, g[|g| - 1]));
  }

  /** So few symbols that no code can get too long: with the pseudo-symbol fewer than the 35th Fibonacci number. */
  predicate ShortCodes(toks: seq<Token>) { SymbolCount(toks) < 9227464 }

  /** The counts of a scan are within what the table generator asks for. */
  lemma CountsFit(counts: seq<nat>, toks: seq<Token>)
    requires CountsAre(counts, toks) && HasSymbol(toks)
    ensures 1 <= RealSymbols(counts, 256) <= 254
    ensures Sum(WithPseudo(counts), SYMBOLS) <= SymbolCount(toks) + 1
  {
    hide Sum, Occurs, RealSymbols;
    CountsTotal(counts, toks);
    SumPseudo(counts);
    FewSymbols(counts, toks, 16);
    var i :| 0 <= i < |toks| && toks[i].Sym?;
    OccursAt(toks, i);
    SomeCounted(counts, 256, toks[i].sym);
  }

  lemma AllByteSymbols(t: HuffTable)
    requires t.Valid()
    ensures t.SymbolsAtMost(255) && t.Shaped()
  {
    hide HuffTable.Count, HuffTable.First;
  }

  lemma CountedCodes(t: HuffTable, counts: seq<nat>, toks: seq<Token>)
    requires t.Valid() && CountsAre(counts, toks) && forall s: nat | s < 256 :: t.HasCode(s) <==> counts[s] > 0
    ensures !Missing(t, toks)
  {
    hide HuffTable.HasCode, HuffTable.Count, HuffTable.First, Occurs;
    CountedIsCoded(t, counts, toks);
  }

  /** Count the symbols of a scan, generate a table, and write the scan with it.  The only things that can go wrong
      are a coefficient out of range and so many symbols that codes get too long: with the pseudo-symbol at least
      the 35th Fibonacci number. */
  method WriteOptimized(sc: Scan, w: BitWriter, blocks: seq<seq<int>>, interval: nat) returns (ok: bool, t: HuffTable)
    requires sc.Valid() && w.Valid() && w.segment == [] && blocks != []
        && forall i | 0 <= i < |blocks| :: |blocks[i]| == 64
    requires SymbolCount(ScanTokens(sc, Groups(Zigzags(blocks), interval))) < 1000000000
    modifies w
    ensures ok ==> AllInRange(sc, Zigzags(blocks))
    ensures AllInRange(sc, Zigzags(blocks)) && ShortCodes(ScanTokens(sc, Groups(Zigzags(blocks), interval))) ==> ok
    ensures ok ==> t.Valid() && GroupsCoded(t, sc, Groups(Zigzags(blocks), interval))
    ensures ok ==> Optimized(t, Histogram(ScanTokens(sc, Groups(Zigzags(blocks), interval))))
    ensures ok ==> w.out == old(w.done) + ScanBytes(SegmentsOf(t, sc, Groups(Zigzags(blocks), interval)))
  {
    hide AllInRange, Groups, ScanTokens, CountsAre, HasSymbol, SymbolCount, BitWriter.Valid, HuffTable.Valid,
        HuffTable.HasCode, GroupsCoded, ScanBytes,
      Missing, CMatches, RealSymbols, Sum, Zigzags, HuffTable.SymbolsAtMost, HuffTable.Shaped, HuffTable.ValidCounts,
          HuffTable.DistinctSymbols, OptimizedBy, Optimized, Histogram, HuffmanOptimal.Minimal, AsLong, LengthsLimited;
    ghost var zs := Zigzags(blocks);
    ghost var toks := ScanTokens(sc, Groups(zs, interval));
    t := HuffTable([], []);
    var counts: seq<nat>;
    ok, counts := CountScan(sc, t, CDerived([], []), blocks, interval);
    if !ok {
      return;
    }
    ZigzagsSize(blocks);
    ScanSends(sc, zs, interval);
    CountsFit(counts, toks);
    CountsSize(counts, toks);
    var freq := new nat[257](i requires 0 <= i < 257 => counts[i]);
    assert freq[..] == counts;
    ghost var sizes;
    ok, t, sizes := GenOptimalTable(freq);
    if !ok {
      return;
    }
    IsOptimized(t, counts, sizes);
    CountedHistogram(counts, toks);
    AllByteSymbols(t);
    ValidParts(t);
    var r := MakeCDerivedTbl(t, false);
    CountedCodes(t, counts, toks);
    ok := WriteScan(sc, t, r.value, w, blocks, interval);
  }

  lemma ZigzagsSize(blocks: seq<seq<int>>)
    requires blocks != [] && forall i | 0 <= i < |blocks| :: |blocks[i]| == 64
    ensures Zigzags(blocks) != []
  {
  }

  lemma ValidParts(t: HuffTable)
    requires t.Valid()
    ensures t.Shaped() && t.ValidCounts() && t.DistinctSymbols()
  {
  }
}
