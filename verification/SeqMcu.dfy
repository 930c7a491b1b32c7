/** Decoding the blocks of an MCU, as a function of the bits: the coefficients come back, more bits
    change nothing, and neither does a block area that an interrupted attempt has already filled in part. */
module SeqMcu {
  import opened Bits
  import opened Reading
  import opened Coef
  import opened Huffman
  import opened HuffDecoding
  import opened AcScan
  import opened AcResume
  import opened DcScan
  import opened SeqScan

  // ---------------------------------------------------------------- more bits

  lemma {:induction false} AcLoopExtends(t: HuffTable, d: Block, k: nat, bs: BitSeq, ext: BitSeq)
    requires t.Shaped() && t.ValidCounts() && AcLoop(t, d, k, bs).Got?
    ensures AcLoop(t, d, k, bs + ext) == Got(AcLoop(t, d, k, bs).value, AcLoop(t, d, k, bs).rest + ext)
    decreases if k < 64 then 64 - k else 0
  {
    hide HuffTable.DecodeSym, HuffTable.Shaped, HuffTable.ValidCounts, Take, Extend;
    if k < 64 {
      DecodeExtends(t, bs, ext);
      var y := t.DecodeSym(bs);
      var r, s := y.value / 16, y.value % 16;
      if s != 0 {
        TakeExtends(s, y.rest, ext);
        var x := Take(s, y.rest);
        AcLoopExtends(t, d[Slot(k + r) := Extend(x.value, s)], k + r + 1, x.rest, ext);
      } else if r == 15 {
        AcLoopExtends(t, d, k + 16, y.rest, ext);
      }
    }
  }

  lemma DiffExtends(t: HuffTable, bs: BitSeq, ext: BitSeq)
    requires t.Shaped() && t.ValidCounts() && DecodeDiff(t, bs).Got?
    ensures DecodeDiff(t, bs + ext) == Got(DecodeDiff(t, bs).value, DecodeDiff(t, bs).rest + ext)
  {
    hide HuffTable.DecodeSym, HuffTable.Shaped, HuffTable.ValidCounts, Take, Extend;
    DecodeExtends(t, bs, ext);
    var y := t.DecodeSym(bs);
    if y.value != 0 {
      TakeExtends(y.value, y.rest, ext);
    }
  }

  lemma BlockSeqExtends(dc: HuffTable, ac: HuffTable, last: int, d: Block, bs: BitSeq, ext: BitSeq)
    requires dc.Shaped() && dc.ValidCounts() && ac.Shaped() && ac.ValidCounts()
        && DecodeBlockSeq(dc, ac, last, d, bs).Got?
    ensures DecodeBlockSeq(dc, ac, last, d, bs + ext)
        == Got(DecodeBlockSeq(dc, ac, last, d, bs).value, DecodeBlockSeq(dc, ac, last, d, bs).rest + ext)
  {
    hide HuffTable.Shaped, HuffTable.ValidCounts, AcLoop, DecodeDiff;
    DiffExtends(dc, bs, ext);
    var y := DecodeDiff(dc, bs);
    AcLoopExtends(ac, d[0 := y.value + last], 1, y.rest, ext);
  }

  // ---------------------------------------------------------------- areas filled in part

  /** Each coefficient is either as in `d` or already as in `z`. */
  predicate Between(d: Block, d': Block, z: Block) { forall i | 0 <= i < 64 :: d'[i] == d[i] || d'[i] == z[i] }

  /** The outcome does not depend on which of the coefficients to come have been stored before. */
  lemma {:induction false} AcLoopBetween(t: HuffTable, d: Block, d': Block, k: nat, bs: BitSeq)
    requires t.Shaped() && t.ValidCounts()
    ensures AcLoop(t, d, k, bs).More? <==> AcLoop(t, d', k, bs).More?
    ensures AcLoop(t, d, k, bs).Got? && Between(d, d', AcLoop(t, d, k, bs).value) ==>
        AcLoop(t, d', k, bs) == AcLoop(t, d, k, bs)
    decreases if k < 64 then 64 - k else 0
  {
    hide HuffTable.DecodeSym, HuffTable.Shaped, HuffTable.ValidCounts, Take, Extend, Slot;
    if k >= 64 {
      BetweenSame(d, d');
    } else {
      var y := t.DecodeSym(bs);
      if y.Got? {
        var r, s := y.value / 16, y.value % 16;
        if s != 0 {
          var x := Take(s, y.rest);
          if x.Got? {
            var p, v := Slot(k + r), Extend(x.value, s);
            AcLoopBetween(t, d[p := v], d'[p := v], k + r + 1, x.rest);
            if AcLoop(t, d, k, bs).Got? {
              BetweenStore(d, d', AcLoop(t, d, k, bs).value, p, v);
            }
          }
        } else if r == 15 {
          AcLoopBetween(t, d, d', k + 16, y.rest);
        } else {
          BetweenSame(d, d');
        }
      }
    }
  }

  lemma BetweenSame(d: Block, d': Block)
    ensures Between(d, d', d) ==> d' == d
  {
  }

  lemma BetweenStore(d: Block, d': Block, z: Block, p: nat, v: int)
    requires p < 64
    ensures Between(d, d', z) ==> Between(d[p := v], d'[p := v], z)
  {
  }

  /** Coefficients before `k` are not stored any more. */
  lemma {:induction false} AcLoopKeeps(t: HuffTable, d: Block, k: nat, bs: BitSeq, i: nat)
    requires t.Shaped() && t.ValidCounts() && AcLoop(t, d, k, bs).Got? && i < k && i < 64
    ensures AcLoop(t, d, k, bs).value[i] == d[i]
    decreases if k < 64 then 64 - k else 0
  {
    hide HuffTable.DecodeSym, HuffTable.Shaped, HuffTable.ValidCounts, Take, Extend;
    if k < 64 {
      var y := t.DecodeSym(bs);
      var r, s := y.value / 16, y.value % 16;
      if s != 0 {
        var x := Take(s, y.rest);
        AcLoopKeeps(t, d[Slot(k + r) := Extend(x.value, s)], k + r + 1, x.rest, i);
      } else if r == 15 {
        AcLoopKeeps(t, d, k + 16, y.rest, i);
      }
    }
  }

  lemma BlockBetween(dc: HuffTable, ac: HuffTable, last: int, d: Block, d': Block, bs: BitSeq)
    requires dc.Shaped() && dc.ValidCounts() && ac.Shaped() && ac.ValidCounts()
    ensures DecodeBlockSeq(dc, ac, last, d, bs).More? <==> DecodeBlockSeq(dc, ac, last, d', bs).More?
    ensures DecodeBlockSeq(dc, ac, last, d, bs).Got? && Between(d, d', DecodeBlockSeq(dc, ac, last, d, bs).value) ==>
      DecodeBlockSeq(dc, ac, last, d', bs) == DecodeBlockSeq(dc, ac, last, d, bs)
  {
    hide HuffTable.Shaped, HuffTable.ValidCounts, AcLoop, DecodeDiff;
    var y := DecodeDiff(dc, bs);
    if y.Got? {
      var v := y.value + last;
      AcLoopBetween(ac, d[0 := v], d'[0 := v], 1, y.rest);
      if AcLoop(ac, d[0 := v], 1, y.rest).Got? {
        BetweenStore(d, d', AcLoop(ac, d[0 := v], 1, y.rest).value, 0, v);
      }
    }
  }

  // ---------------------------------------------------------------- the blocks of an MCU

  /** The component of each block of an MCU. */
  predicate MembersOk(mem: seq<nat>, n: nat) { forall i | 0 <= i < |mem| :: mem[i] < n }

  /** One block of component `ci`. */
  function DecodeNext(ts: Tables, comps: seq<Comp>, ci: nat, last: int, d: Block, bs: BitSeq): Read<Block>
    requires Usable(ts, comps) && ci < |comps|
  {
    assert UsableFor(ts, comps[ci]);
    DecodeBlockSeq(ts.dc[comps[ci].dcTbl], ts.ac[comps[ci].acTbl], last, d, bs)
  }

  /** Blocks `i` on of an MCU, into the areas `ds`; also the DC predictions after them. */
  function DecodeBlocks(ts: Tables, comps: seq<Comp>, mem: seq<nat>, ds: seq<Block>, last: seq<int>, i: nat,
        bs: BitSeq): Read<(seq<Block>, seq<int>)>
    requires Usable(ts, comps) && MembersOk(mem, |comps|) && |last| == |comps| && |ds| == |mem| && i <= |mem|
    decreases |mem| - i
  {
    if i == |mem| then Got((ds, last), bs)
    else
      var (z, b1) :- DecodeNext(ts, comps, mem[i], last[mem[i]], ds[i], bs);
      DecodeBlocks(ts, comps, mem, ds[i := z], last[mem[i] := z[0]], i + 1, b1)
  }

  lemma NextBlockExtends(ts: Tables, comps: seq<Comp>, ci: nat, last: int, d: Block, bs: BitSeq, ext: BitSeq)
    requires Usable(ts, comps) && ci < |comps| && DecodeNext(ts, comps, ci, last, d, bs).Got?
    ensures DecodeNext(ts, comps, ci, last, d, bs + ext)
        == Got(DecodeNext(ts, comps, ci, last, d, bs).value, DecodeNext(ts, comps, ci, last, d, bs).rest + ext)
  {
    hide HuffTable.Shaped, HuffTable.ValidCounts, DecodeBlockSeq;
    assert UsableFor(ts, comps[ci]);
    BlockSeqExtends(ts.dc[comps[ci].dcTbl], ts.ac[comps[ci].acTbl], last, d, bs, ext);
  }

  /** What the area held before matters only where it stays. */
  lemma NextBetween(ts: Tables, comps: seq<Comp>, ci: nat, last: int, d: Block, d': Block, bs: BitSeq)
    requires Usable(ts, comps) && ci < |comps|
    ensures var r, r' := DecodeNext(ts, comps, ci, last, d, bs), DecodeNext(ts, comps, ci, last, d', bs);
      && (r.More? <==> r'.More?)
      && (r.Got? ==> r'.value[0] == r.value[0] && r'.rest == r.rest)
      && (r.Got? && Between(d, d', r.value) ==> r' == r)
  {
    hide HuffTable.Shaped, HuffTable.ValidCounts, DecodeBlockSeq;
    assert UsableFor(ts, comps[ci]);
    BlockBetween(ts.dc[comps[ci].dcTbl], ts.ac[comps[ci].acTbl], last, d, d', bs);
    FirstAndRest(ts.dc[comps[ci].dcTbl], ts.ac[comps[ci].acTbl], last, d, d', bs);
  }

  lemma FirstAndRest(dc: HuffTable, ac: HuffTable, last: int, d: Block, d': Block, bs: BitSeq)
    requires dc.Shaped() && dc.ValidCounts() && ac.Shaped() && ac.ValidCounts()
    ensures var r, r' := DecodeBlockSeq(dc, ac, last, d, bs), DecodeBlockSeq(dc, ac, last, d', bs);
      r.Got? && r'.Got? ==> r'.value[0] == r.value[0] && r'.rest == r.rest
  {
    hide HuffTable.Shaped, HuffTable.ValidCounts, AcLoop, DecodeDiff;
    var y := DecodeDiff(dc, bs);
    if y.Got? {
      var v := y.value + last;
      SameRest(ac, d[0 := v], d'[0 := v], 1, y.rest);
      if AcLoop(ac, d[0 := v], 1, y.rest).Got? && AcLoop(ac, d'[0 := v], 1, y.rest).Got? {
        AcLoopKeeps(ac, d[0 := v], 1, y.rest, 0);
        AcLoopKeeps(ac, d'[0 := v], 1, y.rest, 0);
      }
    }
  }

  lemma {:induction false} SameRest(t: HuffTable, d: Block, d': Block, k: nat, bs: BitSeq)
    requires t.Shaped() && t.ValidCounts()
    ensures AcLoop(t, d, k, bs).Got? && AcLoop(t, d', k, bs).Got? ==>
        AcLoop(t, d, k, bs).rest == AcLoop(t, d', k, bs).rest
    decreases if k < 64 then 64 - k else 0
  {
    hide HuffTable.DecodeSym, HuffTable.Shaped, HuffTable.ValidCounts, Take, Extend, Slot;
    if k < 64 {
      var y := t.DecodeSym(bs);
      if y.Got? {
        var r, s := y.value / 16, y.value % 16;
        if s != 0 {
          var x := Take(s, y.rest);
          if x.Got? {
            SameRest(t, d[Slot(k + r) := Extend(x.value, s)], d'[Slot(k + r) := Extend(x.value, s)], k + r + 1, x.rest);
          }
        } else if r == 15 {
          SameRest(t, d, d', k + 16, y.rest);
        }
      }
    }
  }

  lemma {:induction false} BlocksExtend(ts: Tables, comps: seq<Comp>, mem: seq<nat>, ds: seq<Block>, last: seq<int>,
        i: nat, bs: BitSeq, ext: BitSeq)
    requires Usable(ts, comps) && MembersOk(mem, |comps|) && |last| == |comps| && |ds| == |mem| && i <= |mem|
    requires DecodeBlocks(ts, comps, mem, ds, last, i, bs).Got?
    ensures DecodeBlocks(ts, comps, mem, ds, last, i, bs + ext)
      == Got(DecodeBlocks(ts, comps, mem, ds, last, i, bs).value,
          DecodeBlocks(ts, comps, mem, ds, last, i, bs).rest + ext)
    decreases |mem| - i
  {
    hide Usable, DecodeNext;
    if i < |mem| {
      NextBlockExtends(ts, comps, mem[i], last[mem[i]], ds[i], bs, ext);
      var y := DecodeNext(ts, comps, mem[i], last[mem[i]], ds[i], bs);
      BlocksExtend(ts, comps, mem, ds[i := y.value], last[mem[i] := y.value[0]], i + 1, y.rest, ext);
    }
  }

  lemma {:induction false} BlocksKeep(ts: Tables, comps: seq<Comp>, mem: seq<nat>, ds: seq<Block>, last: seq<int>,
        i: nat, bs: BitSeq)
    requires Usable(ts, comps) && MembersOk(mem, |comps|) && |last| == |comps| && |ds| == |mem| && i <= |mem|
    requires DecodeBlocks(ts, comps, mem, ds, last, i, bs).Got?
    ensures var zs := DecodeBlocks(ts, comps, mem, ds, last, i, bs).value.0; |zs| == |mem| && zs[..i] == ds[..i]
    decreases |mem| - i
  {
    hide Usable, DecodeNext;
    if i < |mem| {
      var y := DecodeNext(ts, comps, mem[i], last[mem[i]], ds[i], bs);
      BlocksKeep(ts, comps, mem, ds[i := y.value], last[mem[i] := y.value[0]], i + 1, y.rest);
      var zs := DecodeBlocks(ts, comps, mem, ds, last, i, bs).value.0;
      assert zs[..i] == zs[..i + 1][..i];
    }
  }

  predicate AllBetween(ds: seq<Block>, ds': seq<Block>, zs: seq<Block>)
    requires |ds| == |ds'| == |zs|
  {
    forall i | 0 <= i < |ds| :: Between(ds[i], ds'[i], zs[i])
  }

  /** Whether the bits suffice does not depend on the areas at all ... */
  lemma {:induction false} BlocksMore(ts: Tables, comps: seq<Comp>, mem: seq<nat>, ds: seq<Block>, ds': seq<Block>,
        last: seq<int>, i: nat, bs: BitSeq)
    requires Usable(ts, comps) && MembersOk(mem, |comps|) && |last| == |comps| && |ds| == |ds'| == |mem| && i <= |mem|
    ensures DecodeBlocks(ts, comps, mem, ds, last, i, bs).More?
        <==> DecodeBlocks(ts, comps, mem, ds', last, i, bs).More?
    decreases |mem| - i
  {
    hide Usable, DecodeNext, Between;
    if i < |mem| {
      NextBetween(ts, comps, mem[i], last[mem[i]], ds[i], ds'[i], bs);
      var y := DecodeNext(ts, comps, mem[i], last[mem[i]], ds[i], bs);
      var y' := DecodeNext(ts, comps, mem[i], last[mem[i]], ds'[i], bs);
      if y.Got? {
        BlocksMore(ts, comps, mem, ds[i := y.value], ds'[i := y'.value], last[mem[i] := y.value[0]], i + 1, y.rest);
      }
    }
  }

  /** ... and neither does the outcome on what an earlier attempt on the same bits has stored there. */
  lemma {:induction false} BlocksBetween(ts: Tables, comps: seq<Comp>, mem: seq<nat>, ds: seq<Block>, ds': seq<Block>,
        last: seq<int>, i: nat, bs: BitSeq)
    requires Usable(ts, comps) && MembersOk(mem, |comps|) && |last| == |comps| && |ds| == |ds'| == |mem| && i <= |mem|
    requires ds[..i] == ds'[..i] && DecodeBlocks(ts, comps, mem, ds, last, i, bs).Got?
    requires var r := DecodeBlocks(ts, comps, mem, ds, last, i, bs);
    |r.value.0| == |mem| && AllBetween(ds, ds', r.value.0)
    ensures DecodeBlocks(ts, comps, mem, ds', last, i, bs) == DecodeBlocks(ts, comps, mem, ds, last, i, bs)
    decreases |mem| - i
  {
    hide Usable, DecodeNext, Between;
    if i < |mem| {
      var z := DecodeNext(ts, comps, mem[i], last[mem[i]], ds[i], bs).value;
      var b1 := DecodeNext(ts, comps, mem[i], last[mem[i]], ds[i], bs).rest;
      var last1 := last[mem[i] := z[0]];
      BlocksKeep(ts, comps, mem, ds[i := z], last1, i + 1, b1);
      var zs := DecodeBlocks(ts, comps, mem, ds, last, i, bs).value.0;
      assert zs[i] == zs[..i + 1][i] == z;
      NextBetween(ts, comps, mem[i], last[mem[i]], ds[i], ds'[i], bs);
      assert ds[i := z][..i + 1] == ds[..i] + [z] == ds'[i := z][..i + 1];
      ItselfBetween(z);
      BlocksBetween(ts, comps, mem, ds[i := z], ds'[i := z], last1, i + 1, b1);
    } else {
      assert ds[..i] == ds && ds'[..i] == ds';
    }
  }

  lemma ItselfBetween(z: Block)
    ensures Between(z, z, z)
  {
  }

  // ---------------------------------------------------------------- round trip

  function BlocksOf(items: seq<McuBlock>): (zs: seq<Block>)
    ensures |zs| == |items|
  {
    seq(|items|, i requires 0 <= i < |items| => items[i].z)
  }

  lemma SendableAt(ts: Tables, comps: seq<Comp>, items: seq<McuBlock>, i: nat)
    requires Sendable(ts, comps, items) && i < |items|
    ensures Sendable(ts, comps, items[..i]) && Sendable(ts, comps, items[..i + 1])
    ensures items[i].ci < |comps| && McuBlockCoded(ts, comps, items[i], LastDc(items[..i], NoDc(|comps|)))
    ensures SentBits(ts, comps, items[..i + 1])
        == SentBits(ts, comps, items[..i]) + McuBlockBits(ts, comps, items[i], LastDc(items[..i], NoDc(|comps|)))
  {
    hide Usable, SegmentCoded, SegmentBitsOf, McuBlockCoded, McuBlockBits, LastDc;
    var rest := SegmentSplit(ts, comps, items, NoDc(|comps|), i + 1);
    assert items[..i + 1] == items[..i] + [items[i]];
    SegmentSnoc(ts, comps, items[..i], items[i], NoDc(|comps|));
  }

  /** The bits of block `i` of a segment. */
  function BitsAt(ts: Tables, comps: seq<Comp>, items: seq<McuBlock>, i: nat): BitSeq
    requires Sendable(ts, comps, items) && i < |items|
  {
    SendableAt(ts, comps, items, i);
    McuBlockBits(ts, comps, items[i], LastDc(items[..i], NoDc(|comps|)))
  }

  /** The bits of a segment from block `i` on. */
  function BitsFrom(ts: Tables, comps: seq<Comp>, items: seq<McuBlock>, i: nat): BitSeq
    requires Sendable(ts, comps, items) && i <= |items|
    decreases |items| - i
  {
    if i == |items| then [] else BitsAt(ts, comps, items, i) + BitsFrom(ts, comps, items, i + 1)
  }

  /** The DC predictions before block `i`. */
  function DcAt(comps: seq<Comp>, items: seq<McuBlock>, i: nat): (last: seq<int>)
    requires BlocksOk(items, |comps|) && i <= |items|
    ensures |last| == |comps|
  {
    LastDc(items[..i], NoDc(|comps|))
  }

  lemma {:induction false} BitsFromAll(ts: Tables, comps: seq<Comp>, items: seq<McuBlock>, i: nat)
    requires Sendable(ts, comps, items) && i <= |items|
    ensures Sendable(ts, comps, items[..i])
    ensures SentBits(ts, comps, items) == SentBits(ts, comps, items[..i]) + BitsFrom(ts, comps, items, i)
    decreases |items| - i
  {
    hide Usable, SegmentCoded, SentBits, McuBlockCoded, McuBlockBits, LastDc, Sendable;
    if i == |items| {
      assert items[..i] == items;
      assert SentBits(ts, comps, items) + [] == SentBits(ts, comps, items);
    } else {
      SendableAt(ts, comps, items, i);
      BitsFromAll(ts, comps, items, i + 1);
      var a, b, c := SentBits(ts, comps, items[..i]), BitsAt(ts, comps, items, i), BitsFrom(ts, comps, items, i + 1);
      assert (a + b) + c == a + (b + c);
    }
  }

  /** One block comes back, whatever follows it, and becomes the next prediction. */
  lemma NextRoundTrip(ts: Tables, comps: seq<Comp>, items: seq<McuBlock>, i: nat, d: Block, rest: BitSeq)
    requires Sendable(ts, comps, items) && i < |items| && Zeroed(d)
    ensures items[i].ci < |comps|
    ensures DecodeNext(ts, comps, items[i].ci, DcAt(comps, items, i)[items[i].ci], d,
        BitsAt(ts, comps, items, i) + rest) == Got(items[i].z, rest)
    ensures DcAt(comps, items, i + 1) == DcAt(comps, items, i)[items[i].ci := items[i].z[0]]
  {
    hide HuffTable.Shaped, HuffTable.ValidCounts, BlockCoded, BlockBits, DecodeBlockSeq, Zeroed, LastDc, SegmentCoded;
    var it, last := items[i], DcAt(comps, items, i);
    SendableAt(ts, comps, items, i);
    assert UsableFor(ts, comps[it.ci]);
    BlockRoundTrip(ts.dc[comps[it.ci].dcTbl], ts.ac[comps[it.ci].acTbl], it.z, last[it.ci], d, rest);
    assert items[..i + 1] == items[..i] + [it];
    LastDcSnoc(items[..i], it, NoDc(|comps|));
  }

  predicate ZeroedFrom(ds: seq<Block>, i: nat) { forall j | i <= j < |ds| :: Zeroed(ds[j]) }

  /** The MCU that starts at block `n` of a segment: `mem` are the components of its blocks. */
  predicate McuAt(comps: seq<Comp>, mem: seq<nat>, items: seq<McuBlock>, n: nat)
  {
    n + |mem| <= |items| && forall i | 0 <= i < |mem| :: MemberAt(mem, items, n, i)
  }

  predicate MemberAt(mem: seq<nat>, items: seq<McuBlock>, n: nat, i: nat)
    requires i < |mem| && n + |mem| <= |items|
  {
    items[n + i].ci == mem[i]
  }

  /** Blocks `i` on of the MCU that starts at block `n` of a segment come back. */
  lemma {:induction false} McuRoundTrip(ts: Tables, comps: seq<Comp>, mem: seq<nat>, items: seq<McuBlock>,
        n: nat, i: nat, ds: seq<Block>, rest: BitSeq)
    requires Sendable(ts, comps, items) && McuAt(comps, mem, items, n) && |ds| == |mem| && MembersOk(mem, |comps|)
    requires i <= |mem| && ds[..i] == BlocksOf(items[n..n + i]) && ZeroedFrom(ds, i)
    ensures DecodeBlocks(ts, comps, mem, ds, DcAt(comps, items, n + i), i, BitsFrom(ts, comps, items, n + i) + rest)
      == Got((BlocksOf(items[n..n + |mem|]), DcAt(comps, items, n + |mem|)),
          BitsFrom(ts, comps, items, n + |mem|) + rest)
    decreases |mem| - i
  {
    hide Usable, SegmentCoded, BitsAt, DecodeNext, Zeroed, DcAt;
    if i == |mem| {
      assert ds[..i] == ds;
    } else {
      var j := n + i;
      var it := items[j];
      assert MemberAt(mem, items, n, i);
      var later := BitsFrom(ts, comps, items, j + 1) + rest;
      assert BitsFrom(ts, comps, items, j) + rest == BitsAt(ts, comps, items, j) + later;
      NextRoundTrip(ts, comps, items, j, ds[i], later);
      assert ds[i := it.z][..i + 1] == ds[..i] + [it.z];
      assert BlocksOf(items[n..j + 1]) == BlocksOf(items[n..j]) + [it.z];
      McuRoundTrip(ts, comps, mem, items, n, i + 1, ds[i := it.z], rest);
    }
  }

  /** The MCU `m` at block `p` comes back. */
  lemma WholeMcuRoundTrip(ts: Tables, comps: seq<Comp>, mem: seq<nat>, items: seq<McuBlock>, p: nat, q: nat,
        m: seq<McuBlock>, ds: seq<Block>, rest: BitSeq)
    requires Sendable(ts, comps, items) && McuAt(comps, mem, items, p) && |ds| == |mem| && MembersOk(mem, |comps|)
        && ZeroedFrom(ds, 0)
    requires q == p + |mem| <= |items| && items[p..q] == m
    ensures Usable(ts, comps) && |DcAt(comps, items, p)| == |comps|
    ensures DecodeBlocks(ts, comps, mem, ds, DcAt(comps, items, p), 0, BitsFrom(ts, comps, items, p) + rest)
      == Got((BlocksOf(m), DcAt(comps, items, q)), BitsFrom(ts, comps, items, q) + rest)
  {
    hide Usable, SegmentCoded, BitsFrom, Zeroed, DcAt, DecodeBlocks, ZeroedFrom, McuAt;
    assert ds[..0] == BlocksOf(items[p..p + 0]);
    McuRoundTrip(ts, comps, mem, items, p, 0, ds, rest);
  }
}
