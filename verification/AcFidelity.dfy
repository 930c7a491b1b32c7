/** The round trip of a whole progressive AC scan: blocks whose end-of-band is deferred are
    decoded when the run they were counted in is finally sent. */
module AcFidelity {
  import opened Bits
  import opened Reading
  import opened Coef
  import opened Huffman
  import opened AcScan
  import opened AcRoundTrip

  predicate Holds(sc: Scan, ds: seq<Block>, zs: seq<Block>)
    requires sc.Valid()
  {
    && |ds| == |zs|
    && forall i | 0 <= i < |zs| :: HoldsFrom(sc, ds[i], zs[i], sc.ss) && InRange(sc, zs[i])
  }

  function RefinedAll(sc: Scan, ds: seq<Block>, zs: seq<Block>): seq<Block>
    requires sc.Valid() && |ds| == |zs|
  {
    seq(|zs|, i requires 0 <= i < |zs| => Refined(sc, ds[i], zs[i]))
  }

  function Prepend(bs: seq<Block>, r: Read<seq<Block>>): Read<seq<Block>>
  {
    if r.More? then More else Got(bs + r.value, r.rest)
  }

  lemma HeadDecodes(t: HuffTable, sc: Scan, d: Block, z: Block, rest: BitSeq)
    requires t.Shaped() && t.ValidCounts() && sc.Valid()
    requires HoldsFrom(sc, d, z, sc.ss) && InRange(sc, z) && Coded(t, Head(sc, z))
    ensures Loop(t, sc, d, sc.ss, ToksBits(t, Head(sc, z)) + rest)
         == Loop(t, sc, Patch(sc, d, z, sc.ss, HeadEnd(sc, z)), HeadEnd(sc, z), rest)
  {
    hide ToksBits, InitialLoop, RefineLoop, Patch, Trunc, Mag, Coded, InRange, HuffTable.Shaped, HuffTable.ValidCounts;
    var e := HeadEnd(sc, z);
    assert Zeroes(sc.al, z, sc.ss, sc.ss) == 0 && Corrections(sc.al, z, sc.ss, sc.ss) == [];
    if sc.mode == Initial {
      InitialHeadDecodes(t, sc, d, z, sc.ss, sc.ss, e, rest);
    } else {
      assert HeadAt(sc, z, sc.ss, sc.ss, e) == Head(sc, z);
      RefineHeadDecodes(t, sc, d, z, sc.ss, sc.ss, e, rest);
    }
  }

  /** A block that ends in an end-of-band run, from its last symbol on. */
  lemma TailDecodes(sc: Scan, d: Block, z: Block, rest: BitSeq)
    requires sc.Valid() && HoldsFrom(sc, d, z, sc.ss)
    ensures RunBlock(sc, Patch(sc, d, z, sc.ss, HeadEnd(sc, z)), HeadEnd(sc, z), Tail(sc, z, HeadEnd(sc, z)) + rest)
         == Got(Refined(sc, d, z), rest)
  {
    hide Mag, Trunc, CorrectTail;
    var e := HeadEnd(sc, z);
    var d' := Patch(sc, d, z, sc.ss, e);
    if sc.mode == Initial {
      forall i | e <= i <= sc.se
        ensures d[i] == Trunc(z[i], sc.al)
      {
        assert !Sends(sc, z[i]);
        TruncMag(z[i], sc.al);
      }
      assert d' == Refined(sc, d, z);
      assert [] + rest == rest;
    } else {
      TailCorrects(sc, d', z, e, rest);
      assert Patch(sc, d', z, e, sc.se + 1) == Refined(sc, d, z);
    }
  }

  // ---------------------------------------------------------------- end-of-band runs

  /** The correction bits of queued blocks: the first from `k` on, the others whole. */
  function QueueBits(sc: Scan, zs: seq<Block>, k: nat): BitSeq
    requires sc.Valid()
  {
    if zs == [] then [] else Tail(sc, zs[0], k) + QueueBits(sc, zs[1..], sc.ss)
  }

  lemma {:induction false} QueueSnoc(sc: Scan, zs: seq<Block>, z: Block, k: nat)
    requires sc.Valid() && zs != []
    ensures QueueBits(sc, zs + [z], k) == QueueBits(sc, zs, k) + Tail(sc, z, sc.ss)
    decreases |zs|
  {
    hide Tail;
    assert (zs + [z])[1..] == zs[1..] + [z];
    if |zs| == 1 {
      assert QueueBits(sc, [z], sc.ss) == Tail(sc, z, sc.ss) + QueueBits(sc, [], sc.ss);
    } else {
      QueueSnoc(sc, zs[1..], z, sc.ss);
    }
  }

  predicate Queued(sc: Scan, zs: seq<Block>)
    requires sc.Valid()
  {
    forall i | 0 <= i < |zs| :: HeadEnd(sc, zs[i]) == sc.ss
  }

  lemma {:induction false} RunDecodes(t: HuffTable, sc: Scan, pd: seq<Block>, pz: seq<Block>, ds: seq<Block>,
        rest: BitSeq)
    requires t.Shaped() && t.ValidCounts() && sc.Valid()
    requires Holds(sc, pd, pz) && Queued(sc, pz)
    ensures DecodeScan(t, sc, pd + ds, |pd|, QueueBits(sc, pz, sc.ss) + rest)
         == Prepend(RefinedAll(sc, pd, pz), DecodeScan(t, sc, ds, 0, rest))
    decreases |pd|
  {
    hide Tail, RunBlock, Loop, Refined, InRange, HoldsFrom, HuffTable.Shaped, HuffTable.ValidCounts;
    var bs := QueueBits(sc, pz, sc.ss) + rest;
    if pd == [] {
      assert pd + ds == ds && bs == rest;
      var r := DecodeScan(t, sc, ds, 0, rest);
      assert r.Got? ==> RefinedAll(sc, pd, pz) + r.value == r.value;
    } else {
      var b1 := QueueBits(sc, pz[1..], sc.ss) + rest;
      assert bs == Tail(sc, pz[0], sc.ss) + b1;
      RunOne(sc, pd[0], pz[0], b1);
      assert (pd + ds)[1..] == pd[1..] + ds;
      RunDecodes(t, sc, pd[1..], pz[1..], ds, rest);
      assert [Refined(sc, pd[0], pz[0])] + RefinedAll(sc, pd[1..], pz[1..]) == RefinedAll(sc, pd, pz);
      var r := DecodeScan(t, sc, ds, 0, rest);
      if r.Got? {
        assert [Refined(sc, pd[0], pz[0])] + (RefinedAll(sc, pd[1..], pz[1..]) + r.value)
            == RefinedAll(sc, pd, pz) + r.value;
      }
    }
  }

  lemma RunOne(sc: Scan, d: Block, z: Block, rest: BitSeq)
    requires sc.Valid() && HoldsFrom(sc, d, z, sc.ss) && HeadEnd(sc, z) == sc.ss
    ensures RunBlock(sc, d, sc.ss, Tail(sc, z, sc.ss) + rest) == Got(Refined(sc, d, z), rest)
  {
    TailDecodes(sc, d, z, rest);
    assert Patch(sc, d, z, sc.ss, sc.ss) == d;
  }

  /** The decoder reads an end-of-band symbol at the last symbol of a block. */
  lemma EobDecodes(t: HuffTable, sc: Scan, d: Block, k: nat, p: Pending, d': Block, b1: BitSeq, toks: seq<Token>,
        rest: BitSeq)
    requires t.Shaped() && t.ValidCounts() && sc.Valid() && k <= sc.se
    requires 1 <= p.eobrun <= MAX_EOBRUN && Coded(t, EobTokens(p) + toks) && Coded(t, toks)
    requires RunBlock(sc, d, k, p.be + (ToksBits(t, toks) + rest)) == Got(d', b1)
    ensures Loop(t, sc, d, k, ToksBits(t, EobTokens(p) + toks) + rest) == Got((d', p.eobrun - 1), b1)
  {
    hide ToksBits, HuffTable.DecodeSym, HuffTable.Shaped, HuffTable.ValidCounts, Coded, RunBlock, Loop, EobTokens,
        Take, Pow2, BitLen, ToBits;
    var n := BitLen(p.eobrun) - 1;
    var more := ToksBits(t, toks) + rest;
    EobLength(p.eobrun);
    EobStream(t, p, toks, rest);
    TakeEob(p.eobrun, p.be + more);
    LoopEob(t, sc, d, k, ToksBits(t, EobTokens(p) + toks) + rest, n, ToBits(p.eobrun, n) + (p.be + more),
            p.eobrun - Pow2(n), p.be + more, d', b1);
  }

  lemma EobStream(t: HuffTable, p: Pending, toks: seq<Token>, rest: BitSeq)
    requires t.Shaped() && t.ValidCounts()
    requires 1 <= p.eobrun && Coded(t, EobTokens(p) + toks) && Coded(t, toks)
    ensures t.DecodeSym(ToksBits(t, EobTokens(p) + toks) + rest)
         == Got(16 * (BitLen(p.eobrun) - 1),
             ToBits(p.eobrun, BitLen(p.eobrun) - 1) + (p.be + (ToksBits(t, toks) + rest)))
  {
    hide ToksBits, HuffTable.DecodeSym, HuffTable.Shaped, HuffTable.ValidCounts, Coded;
    var n := BitLen(p.eobrun) - 1;
    var raw := ToBits(p.eobrun, n);
    assert EobTokens(p) + toks == [Sym(16 * n)] + ([Raw(raw)] + ([Raw(p.be)] + toks));
    ReadSym(t, 16 * n, [Raw(raw)] + ([Raw(p.be)] + toks), rest);
    SplitRaw(t, raw, [Raw(p.be)] + toks, rest);
    SplitRaw(t, p.be, toks, rest);
  }

  lemma EobLength(run: nat)
    requires 1 <= run <= MAX_EOBRUN
    ensures 0 <= BitLen(run) - 1 <= 14
  {
    Pow2Values();
    BitLenBound(run, 15);
  }

  lemma TakeEob(run: nat, rest: BitSeq)
    requires run >= 1
    ensures Take(BitLen(run) - 1, ToBits(run, BitLen(run) - 1) + rest) == Got(run - Pow2(BitLen(run) - 1), rest)
  {
    var n := BitLen(run) - 1;
    ToBitsWrap(run - Pow2(n), n);
    TakeToBits(run - Pow2(n), n, rest);
  }

  lemma LoopEob(t: HuffTable, sc: Scan, d: Block, k: nat, bs: BitSeq, n: nat, b1: BitSeq, x: nat, b2: BitSeq,
                d': Block, b3: BitSeq)
    requires t.Shaped() && t.ValidCounts() && sc.Valid() && k <= sc.se && n <= 14
    requires t.DecodeSym(bs) == Got(16 * n, b1) && Take(n, b1) == Got(x, b2)
    requires RunBlock(sc, d, k, b2) == Got(d', b3)
    ensures Loop(t, sc, d, k, bs) == Got((d', Pow2(n) + x - 1), b3)
  {
    hide HuffTable.DecodeSym, HuffTable.ValidCounts, HuffTable.Shaped, Take, Pow2, CorrectTail;
  }

  // ---------------------------------------------------------------- the scan

  /** Decoding on from coefficient `k` of a block, then the blocks after it. */
  function Continue(t: HuffTable, sc: Scan, d: Block, k: nat, ds: seq<Block>, bs: BitSeq): Read<seq<Block>>
    requires t.Shaped() && t.ValidCounts() && sc.Valid()
  {
    var (de, b1) :- Loop(t, sc, d, k, bs);
    var (rest, b2) :- DecodeScan(t, sc, ds, de.1, b1);
    Got([de.0] + rest, b2)
  }

  /** The queue of blocks in an end-of-band run, and where in the first of them it starts. */
  predicate IsQueue(sc: Scan, pd: seq<Block>, pz: seq<Block>, p: Pending)
    requires sc.Valid()
  {
    && pz != [] && Holds(sc, pd, pz) && HeadEnd(sc, pz[0]) <= sc.se && Queued(sc, pz[1..])
    && p == Pending(|pz|, QueueBits(sc, pz, HeadEnd(sc, pz[0])))
  }

  function ContinueQueue(t: HuffTable, sc: Scan, pd: seq<Block>, pz: seq<Block>, ds: seq<Block>,
        bs: BitSeq): Read<seq<Block>>
    requires t.Shaped() && t.ValidCounts() && sc.Valid() && pz != [] && |pd| == |pz|
  {
    var e := HeadEnd(sc, pz[0]);
    Continue(t, sc, Patch(sc, pd[0], pz[0], sc.ss, e), e, pd[1..] + ds, bs)
  }

  lemma FlushDecodes(t: HuffTable, sc: Scan, pd: seq<Block>, pz: seq<Block>, p: Pending, ds: seq<Block>,
                     toks: seq<Token>, rest: BitSeq)
    requires t.Shaped() && t.ValidCounts() && sc.Valid()
    requires IsQueue(sc, pd, pz, p) && p.eobrun <= MAX_EOBRUN
    requires Coded(t, EobTokens(p) + toks) && Coded(t, toks)
    ensures ContinueQueue(t, sc, pd, pz, ds, ToksBits(t, EobTokens(p) + toks) + rest)
         == Prepend(RefinedAll(sc, pd, pz), DecodeScan(t, sc, ds, 0, ToksBits(t, toks) + rest))
  {
    hide ToksBits, HuffTable.Shaped, HuffTable.ValidCounts, Coded, RunBlock, Loop, EobTokens, Tail, InRange,
        HoldsFrom, Refined, Patch;
    var e := HeadEnd(sc, pz[0]);
    var more := ToksBits(t, toks) + rest;
    var tails := QueueBits(sc, pz[1..], sc.ss) + more;
    TailDecodes(sc, pd[0], pz[0], tails);
    assert p.be + more == Tail(sc, pz[0], e) + tails;
    EobDecodes(t, sc, Patch(sc, pd[0], pz[0], sc.ss, e), e, p, Refined(sc, pd[0], pz[0]), tails, toks, rest);
    RunDecodes(t, sc, pd[1..], pz[1..], ds, more);
    assert [Refined(sc, pd[0], pz[0])] + RefinedAll(sc, pd[1..], pz[1..]) == RefinedAll(sc, pd, pz);
    var r := DecodeScan(t, sc, ds, 0, more);
    if r.Got? {
      assert [Refined(sc, pd[0], pz[0])] + (RefinedAll(sc, pd[1..], pz[1..]) + r.value)
          == RefinedAll(sc, pd, pz) + r.value;
    }
  }

  lemma RefinedAllConcat(sc: Scan, pd: seq<Block>, pz: seq<Block>, ds: seq<Block>, zs: seq<Block>)
    requires sc.Valid() && |pd| == |pz| && |ds| == |zs|
    ensures RefinedAll(sc, pd + ds, pz + zs) == RefinedAll(sc, pd, pz) + RefinedAll(sc, ds, zs)
  {
  }

  /** Nothing pending: the next block starts afresh. */
  lemma {:induction false} FreshDecodes(t: HuffTable, sc: Scan, ds: seq<Block>, zs: seq<Block>, rest: BitSeq)
    requires t.Shaped() && t.ValidCounts() && sc.Valid() && Holds(sc, ds, zs)
    requires Coded(t, EncodeScan(sc, zs, NONE))
    ensures DecodeScan(t, sc, ds, 0, ToksBits(t, EncodeScan(sc, zs, NONE)) + rest) == Got(RefinedAll(sc, ds, zs), rest)
    decreases |zs|, 0
  {
    hide HuffTable.Shaped, HuffTable.ValidCounts, Coded, Tail, InRange, HoldsFrom, Refined, Patch, ToksBits,
        Continue, DecodeBlock, EncodeBlock,
      DecodeScan, EncodeScan;
    if zs == [] {
      FreshEmpty(t, sc, ds, zs, rest);
    } else {
      var e := HeadEnd(sc, zs[0]);
      var p := if e <= sc.se then Pending(1, Tail(sc, zs[0], e)) else NONE;
      FreshStep(t, sc, ds, zs, p, rest);
      if e <= sc.se {
        QueueOne(sc, ds[0], zs[0]);
        PendingDecodes(t, sc, [ds[0]], [zs[0]], p, ds[1..], zs[1..], rest);
        assert [ds[0]][1..] + ds[1..] == ds[1..];
        assert [ds[0]] + ds[1..] == ds && [zs[0]] + zs[1..] == zs;
      } else {
        FreshDecodes(t, sc, ds[1..], zs[1..], rest);
        DoneDecodes(t, sc, ds, zs, ToksBits(t, EncodeScan(sc, zs[1..], NONE)) + rest, rest);
      }
    }
  }

  lemma FreshEmpty(t: HuffTable, sc: Scan, ds: seq<Block>, zs: seq<Block>, rest: BitSeq)
    requires t.Shaped() && t.ValidCounts() && sc.Valid() && Holds(sc, ds, zs) && zs == []
        && Coded(t, EncodeScan(sc, zs, NONE))
    ensures DecodeScan(t, sc, ds, 0, ToksBits(t, EncodeScan(sc, zs, NONE)) + rest) == Got(RefinedAll(sc, ds, zs), rest)
  {
    hide HuffTable.Shaped, HuffTable.ValidCounts, Coded, ToksBits;
    EmptyToks(t, rest);
    assert EncodeScan(sc, zs, NONE) == [] && RefinedAll(sc, ds, zs) == [];
  }

  /** Blocks are pending: what is sent next ends their run, or adds a block to it. */
  lemma {:induction false} PendingDecodes(t: HuffTable, sc: Scan, pd: seq<Block>, pz: seq<Block>, p: Pending,
                                          ds: seq<Block>, zs: seq<Block>, rest: BitSeq)
    requires t.Shaped() && t.ValidCounts() && sc.Valid() && Holds(sc, ds, zs)
    requires IsQueue(sc, pd, pz, p) && p.eobrun < MAX_EOBRUN
    requires Coded(t, EncodeScan(sc, zs, p))
    ensures ContinueQueue(t, sc, pd, pz, ds, ToksBits(t, EncodeScan(sc, zs, p)) + rest)
         == Got(RefinedAll(sc, pd + ds, pz + zs), rest)
    decreases |zs|, 1
  {
    hide HuffTable.Shaped, HuffTable.ValidCounts, Coded, Tail, InRange, HoldsFrom, RefinedAll, Patch, ToksBits,
        ContinueQueue, DecodeScan, QueueBits;
    if zs == [] {
      assert EobTokens(p) + [] == EncodeScan(sc, zs, p);
      EndDecodes(t, sc, pd, pz, p, ds, zs, rest);
    } else if HeadEnd(sc, zs[0]) > sc.ss {
      NewRun(t, sc, zs, p);
      FlushDecodes(t, sc, pd, pz, p, ds, EncodeScan(sc, zs, NONE), rest);
      FreshDecodes(t, sc, ds, zs, rest);
      RefinedAllConcat(sc, pd, pz, ds, zs);
    } else {
      RunGrows(t, sc, pd, pz, p, ds, zs, rest);
    }
  }

  lemma {:induction false} RunGrows(t: HuffTable, sc: Scan, pd: seq<Block>, pz: seq<Block>, p: Pending,
                                    ds: seq<Block>, zs: seq<Block>, rest: BitSeq)
    requires t.Shaped() && t.ValidCounts() && sc.Valid() && Holds(sc, ds, zs)
    requires IsQueue(sc, pd, pz, p) && p.eobrun < MAX_EOBRUN
    requires Coded(t, EncodeScan(sc, zs, p)) && zs != [] && HeadEnd(sc, zs[0]) == sc.ss
    ensures ContinueQueue(t, sc, pd, pz, ds, ToksBits(t, EncodeScan(sc, zs, p)) + rest)
         == Got(RefinedAll(sc, pd + ds, pz + zs), rest)
    decreases |zs|, 0
  {
    hide HuffTable.Shaped, HuffTable.ValidCounts, Coded, Tail, InRange, HoldsFrom, RefinedAll, Patch, ToksBits,
        ContinueQueue, DecodeScan, QueueBits, EncodeScan, EobTokens;
    var p2 := Pending(p.eobrun + 1, p.be + Tail(sc, zs[0], sc.ss));
    var pd', pz' := pd + [ds[0]], pz + [zs[0]];
    QueueGrows(sc, pd, pz, p, ds[0], zs[0]);
    LongerRun(t, sc, zs, p);
    if Full(p2) {
      FlushDecodes(t, sc, pd', pz', p2, ds[1..], EncodeScan(sc, zs[1..], NONE), rest);
      FreshDecodes(t, sc, ds[1..], zs[1..], rest);
      RefinedAllConcat(sc, pd', pz', ds[1..], zs[1..]);
    } else {
      PendingDecodes(t, sc, pd', pz', p2, ds[1..], zs[1..], rest);
    }
    QueueShift(t, sc, pd, pz, ds, zs, ToksBits(t, EncodeScan(sc, zs, p)) + rest);
  }

  lemma EmptyToks(t: HuffTable, rest: BitSeq)
    requires t.Shaped() && t.ValidCounts()
    ensures Coded(t, []) && ToksBits(t, []) + rest == rest
  {
  }

  lemma LoopPast(t: HuffTable, sc: Scan, d: Block, k: nat, bs: BitSeq)
    requires t.Shaped() && t.ValidCounts() && sc.Valid() && k > sc.se
    ensures Loop(t, sc, d, k, bs) == Got((d, 0), bs)
  {
  }

  lemma DoneDecodes(t: HuffTable, sc: Scan, ds: seq<Block>, zs: seq<Block>, b1: BitSeq, rest: BitSeq)
    requires t.Shaped() && t.ValidCounts() && sc.Valid() && |ds| == |zs| && zs != []
    requires HeadEnd(sc, zs[0]) > sc.se
    requires DecodeScan(t, sc, ds[1..], 0, b1) == Got(RefinedAll(sc, ds[1..], zs[1..]), rest)
    ensures Continue(t, sc, Patch(sc, ds[0], zs[0], sc.ss, HeadEnd(sc, zs[0])), HeadEnd(sc, zs[0]), ds[1..], b1)
         == Got(RefinedAll(sc, ds, zs), rest)
  {
    hide Loop, DecodeScan, Trunc, HuffTable.Shaped, HuffTable.ValidCounts;
    var e := HeadEnd(sc, zs[0]);
    assert e == sc.se + 1;
    assert Patch(sc, ds[0], zs[0], sc.ss, e) == Refined(sc, ds[0], zs[0]);
    LoopPast(t, sc, Patch(sc, ds[0], zs[0], sc.ss, e), e, b1);
    assert [Refined(sc, ds[0], zs[0])] + RefinedAll(sc, ds[1..], zs[1..]) == RefinedAll(sc, ds, zs);
  }

  lemma QueueOne(sc: Scan, d: Block, z: Block)
    requires sc.Valid() && HoldsFrom(sc, d, z, sc.ss) && InRange(sc, z) && HeadEnd(sc, z) <= sc.se
    ensures IsQueue(sc, [d], [z], Pending(1, Tail(sc, z, HeadEnd(sc, z))))
  {
    hide Tail;
    assert [z][1..] == [];
    assert QueueBits(sc, [z], HeadEnd(sc, z)) == Tail(sc, z, HeadEnd(sc, z)) + [];
  }

  lemma QueueGrows(sc: Scan, pd: seq<Block>, pz: seq<Block>, p: Pending, d: Block, z: Block)
    requires sc.Valid() && IsQueue(sc, pd, pz, p) && HoldsFrom(sc, d, z, sc.ss) && InRange(sc, z)
    requires HeadEnd(sc, z) == sc.ss
    ensures IsQueue(sc, pd + [d], pz + [z], Pending(p.eobrun + 1, p.be + Tail(sc, z, sc.ss)))
  {
    hide Tail, HoldsFrom, InRange;
    QueueSnoc(sc, pz, z, HeadEnd(sc, pz[0]));
    assert (pz + [z])[1..] == pz[1..] + [z];
  }

  lemma QueueShift(t: HuffTable, sc: Scan, pd: seq<Block>, pz: seq<Block>, ds: seq<Block>, zs: seq<Block>, bs: BitSeq)
    requires t.Shaped() && t.ValidCounts() && sc.Valid() && pz != [] && |pd| == |pz|
    requires |ds| == |zs| && ds != []
    ensures ContinueQueue(t, sc, pd, pz, ds, bs) == ContinueQueue(t, sc, pd + [ds[0]], pz + [zs[0]], ds[1..], bs)
    ensures RefinedAll(sc, pd + ds, pz + zs) == RefinedAll(sc, (pd + [ds[0]]) + ds[1..], (pz + [zs[0]]) + zs[1..])
  {
    hide Continue, Refined, Patch;
    assert (pd + [ds[0]])[1..] + ds[1..] == pd[1..] + ds;
    assert (pd + [ds[0]]) + ds[1..] == pd + ds;
    assert (pz + [zs[0]]) + zs[1..] == pz + zs;
  }

  lemma EndDecodes(t: HuffTable, sc: Scan, pd: seq<Block>, pz: seq<Block>, p: Pending, ds: seq<Block>,
        zs: seq<Block>, rest: BitSeq)
    requires t.Shaped() && t.ValidCounts() && sc.Valid() && zs == [] == ds
    requires IsQueue(sc, pd, pz, p) && p.eobrun <= MAX_EOBRUN && Coded(t, EobTokens(p))
    ensures ContinueQueue(t, sc, pd, pz, ds, ToksBits(t, EobTokens(p)) + rest)
        == Got(RefinedAll(sc, pd + ds, pz + zs), rest)
  {
    hide HuffTable.Shaped, HuffTable.ValidCounts, RefinedAll, ContinueQueue, EobTokens, ToksBits;
    EmptyToks(t, rest);
    assert EobTokens(p) + [] == EobTokens(p);
    FlushDecodes(t, sc, pd, pz, p, ds, [], rest);
    assert pd + ds == pd && pz + zs == pz;
    assert RefinedAll(sc, pd, pz) + [] == RefinedAll(sc, pd, pz);
  }

  /** What follows a block that sends symbols of its own does not depend on what was pending. */
  lemma NewRun(t: HuffTable, sc: Scan, zs: seq<Block>, p: Pending)
    requires t.Shaped() && sc.Valid() && zs != [] && HeadEnd(sc, zs[0]) > sc.ss
    ensures EncodeScan(sc, zs, p) == EobTokens(p) + EncodeScan(sc, zs, NONE)
    ensures Coded(t, EncodeScan(sc, zs, p)) ==> Coded(t, EncodeScan(sc, zs, NONE))
  {
    hide EncodeBlock, EobTokens, Coded, HuffTable.Shaped;
    BlockIsNew(sc, zs[0], p);
    var (b, p2) := EncodeBlock(sc, zs[0], NONE);
    assert (EobTokens(p) + b) + EncodeScan(sc, zs[1..], p2) == EobTokens(p) + (b + EncodeScan(sc, zs[1..], p2));
    CodedParts(t, EobTokens(p), EncodeScan(sc, zs, NONE));
  }

  lemma BlockIsNew(sc: Scan, z: Block, p: Pending)
    requires sc.Valid() && HeadEnd(sc, z) > sc.ss
    ensures EncodeBlock(sc, z, p).0 == EobTokens(p) + EncodeBlock(sc, z, NONE).0
    ensures EncodeBlock(sc, z, p).1 == EncodeBlock(sc, z, NONE).1
  {
    hide Head, Tail, Full;
    assert EobTokens(NONE) == [];
  }

  lemma LongerRun(t: HuffTable, sc: Scan, zs: seq<Block>, p: Pending)
    requires t.Shaped() && sc.Valid() && zs != [] && HeadEnd(sc, zs[0]) == sc.ss
    ensures var p2 := Pending(p.eobrun + 1, p.be + Tail(sc, zs[0], sc.ss));
      EncodeScan(sc, zs, p) == if Full(p2) then EobTokens(p2) + EncodeScan(sc, zs[1..], NONE)
          else EncodeScan(sc, zs[1..], p2)
    ensures Coded(t, EncodeScan(sc, zs, p)) ==>
      var p2 := Pending(p.eobrun + 1, p.be + Tail(sc, zs[0], sc.ss));
      if Full(p2) then Coded(t, EncodeScan(sc, zs[1..], NONE)) else Coded(t, EncodeScan(sc, zs[1..], p2))
  {
    hide Head, Tail, Coded, Full, EobTokens, HuffTable.Shaped;
    var p2 := Pending(p.eobrun + 1, p.be + Tail(sc, zs[0], sc.ss));
    assert [] + EobTokens(p2) == EobTokens(p2);
    CodedParts(t, EobTokens(p2), EncodeScan(sc, zs[1..], NONE));
  }

  /** The first block of a run: its head is decoded, its end may be pending. */
  lemma FreshStep(t: HuffTable, sc: Scan, ds: seq<Block>, zs: seq<Block>, p: Pending, rest: BitSeq)
    requires t.Shaped() && t.ValidCounts() && sc.Valid() && Holds(sc, ds, zs) && zs != []
    requires p == if HeadEnd(sc, zs[0]) <= sc.se then Pending(1, Tail(sc, zs[0], HeadEnd(sc, zs[0]))) else NONE
    requires Coded(t, EncodeScan(sc, zs, NONE))
    ensures Coded(t, EncodeScan(sc, zs[1..], p))
    ensures DecodeScan(t, sc, ds, 0, ToksBits(t, EncodeScan(sc, zs, NONE)) + rest)
         == Continue(t, sc, Patch(sc, ds[0], zs[0], sc.ss, HeadEnd(sc, zs[0])), HeadEnd(sc, zs[0]), ds[1..],
                     ToksBits(t, EncodeScan(sc, zs[1..], p)) + rest)
  {
    hide HuffTable.Shaped, HuffTable.ValidCounts, Coded, Loop, InRange, HoldsFrom, Patch, ToksBits, EncodeScan,
        Head, Tail, Continue, DecodeScan;
    var toks := EncodeScan(sc, zs[1..], p);
    FirstOfRun(sc, zs, p);
    CodedParts(t, Head(sc, zs[0]), toks);
    ToksBitsConcat(t, Head(sc, zs[0]), toks);
    HeadDecodes(t, sc, ds[0], zs[0], ToksBits(t, toks) + rest);
    assert ToksBits(t, Head(sc, zs[0]) + toks) + rest == ToksBits(t, Head(sc, zs[0])) + (ToksBits(t, toks) + rest);
    DecodeScanFresh(t, sc, ds, ToksBits(t, EncodeScan(sc, zs, NONE)) + rest);
    ContinueCongruent(t, sc, ds[0], sc.ss, ToksBits(t, EncodeScan(sc, zs, NONE)) + rest,
                      Patch(sc, ds[0], zs[0], sc.ss, HeadEnd(sc, zs[0])), HeadEnd(sc, zs[0]), ToksBits(t, toks) + rest,
                          ds[1..]);
  }

  lemma DecodeScanFresh(t: HuffTable, sc: Scan, ds: seq<Block>, bs: BitSeq)
    requires t.Shaped() && t.ValidCounts() && sc.Valid() && ds != []
    ensures DecodeScan(t, sc, ds, 0, bs) == Continue(t, sc, ds[0], sc.ss, ds[1..], bs)
  {
    hide Loop, HuffTable.Shaped, HuffTable.ValidCounts;
  }

  lemma ContinueCongruent(t: HuffTable, sc: Scan, d1: Block, k1: nat, b1: BitSeq, d2: Block, k2: nat, b2: BitSeq,
        ds: seq<Block>)
    requires t.Shaped() && t.ValidCounts() && sc.Valid()
    requires Loop(t, sc, d1, k1, b1) == Loop(t, sc, d2, k2, b2)
    ensures Continue(t, sc, d1, k1, ds, b1) == Continue(t, sc, d2, k2, ds, b2)
  {
    hide Loop, HuffTable.Shaped, HuffTable.ValidCounts, DecodeScan;
  }

  lemma FirstOfRun(sc: Scan, zs: seq<Block>, p: Pending)
    requires sc.Valid() && zs != []
    requires p == if HeadEnd(sc, zs[0]) <= sc.se then Pending(1, Tail(sc, zs[0], HeadEnd(sc, zs[0]))) else NONE
    ensures EncodeScan(sc, zs, NONE) == Head(sc, zs[0]) + EncodeScan(sc, zs[1..], p)
  {
    var e := HeadEnd(sc, zs[0]);
    TailShort(sc, zs[0], e);
    assert [] + Tail(sc, zs[0], e) == Tail(sc, zs[0], e);
    EmptyHead(sc, zs[0]);
    assert EobTokens(NONE) == [];
  }

  lemma EmptyHead(sc: Scan, z: Block)
    requires sc.Valid()
    ensures HeadEnd(sc, z) == sc.ss ==> Head(sc, z) == []
  {
  }

  lemma TailShort(sc: Scan, z: Block, k: nat)
    requires sc.Valid() && k <= sc.se + 1
    ensures |Tail(sc, z, k)| <= sc.se + 1 - k
  {
  }

  /** The whole scan: every coefficient of the band ends up at the precision of the scan, nothing
      else changes, and exactly the bits the scan sent are consumed. */
  lemma AcScanRoundTrip(t: HuffTable, sc: Scan, ds: seq<Block>, zs: seq<Block>, rest: BitSeq)
    requires t.Valid() && sc.Valid() && Holds(sc, ds, zs)
    requires Coded(t, EncodeScan(sc, zs, NONE))
    ensures var r := DecodeScan(t, sc, ds, 0, ToksBits(t, EncodeScan(sc, zs, NONE)) + rest);
      && r.Got? && r.rest == rest && |r.value| == |zs|
      && forall i, k | 0 <= i < |zs| && 0 <= k < 64 ::
           r.value[i][k] == if sc.ss <= k <= sc.se then Trunc(zs[i][k], sc.al) else ds[i][k]
  {
    FreshDecodes(t, sc, ds, zs, rest);
  }
}
