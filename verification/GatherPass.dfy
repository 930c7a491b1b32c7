/** A whole statistics pass over a sequential scan. */
module GatherPass {
  import opened Bits
  import opened Coef
  import opened Huffman
  import opened Segments
  import opened AcScan
  import opened AcEncoder
  import opened SeqScan
  import opened SeqEncoder
  import opened SeqPass
  import opened SeqGather
  import opened Zigzag

  /** What has been counted, table by table, after complete groups and some blocks of the next. */
  function DcRows(comps: seq<Comp>, groups: seq<seq<Mcu>>, items: seq<McuBlock>): (rows: seq<seq<Token>>)
    requires AllBlocksOk(groups, |comps|) && BlocksOk(items, |comps|)
    ensures |rows| == 4
  {
    seq(4, tbl requires 0 <= tbl < 4 => ScanDcToks(comps, tbl, groups) + DcToks(comps, tbl, items))
  }

  function AcRows(comps: seq<Comp>, groups: seq<seq<Mcu>>, items: seq<McuBlock>): (rows: seq<seq<Token>>)
    requires AllBlocksOk(groups, |comps|) && BlocksOk(items, |comps|)
    ensures |rows| == 4
  {
    seq(4, tbl requires 0 <= tbl < 4 => ScanAcToks(comps, tbl, groups) + AcToks(comps, tbl, items))
  }

  lemma RowsBlock(comps: seq<Comp>, groups: seq<seq<Mcu>>, items: seq<McuBlock>, it: McuBlock)
    requires AllBlocksOk(groups, |comps|) && BlocksOk(items, |comps|) && it.ci < |comps|
    requires comps[it.ci].dcTbl < 4 && comps[it.ci].acTbl < 4
    ensures BlocksOk(items + [it], |comps|)
    ensures var c := comps[it.ci]; var dc, ac := DcRows(comps, groups, items), AcRows(comps, groups, items);
      && DcRows(comps, groups, items + [it])
         == dc[c.dcTbl := dc[c.dcTbl] + [DcSym(it.z, LastDc(items, NoDc(|comps|))[it.ci])]]
      && AcRows(comps, groups, items + [it]) == ac[c.acTbl := ac[c.acTbl] + AcTokens(it.z)]
  {
    hide AcTokens, LastDc, ScanDcToks, ScanAcToks, DcToks, AcToks, BitLen, AllBlocksOk, BlockInRange, ItemsInRange;
    var c := comps[it.ci];
    ItemsSnoc(comps, items, it);
    var d := DcSym(it.z, LastDc(items, NoDc(|comps|))[it.ci]);
    var dc, ac := DcRows(comps, groups, items), AcRows(comps, groups, items);
    var dc', ac' := DcRows(comps, groups, items + [it]), AcRows(comps, groups, items + [it]);
    forall tbl: nat | tbl < 4
      ensures dc'[tbl] == dc[c.dcTbl := dc[c.dcTbl] + [d]][tbl]
      ensures ac'[tbl] == ac[c.acTbl := ac[c.acTbl] + AcTokens(it.z)][tbl]
    {
      AppendTwice(ScanDcToks(comps, tbl, groups), DcToks(comps, tbl, items), [d]);
      AppendTwice(ScanAcToks(comps, tbl, groups), AcToks(comps, tbl, items), AcTokens(it.z));
    }
  }

  lemma AppendTwice(a: seq<Token>, b: seq<Token>, c: seq<Token>)
    ensures a + (b + c) == (a + b) + c && b + [] == b
  {
  }

  /** A complete segment becomes one of the groups. */
  lemma RowsGroup(comps: seq<Comp>, groups: seq<seq<Mcu>>, g: seq<Mcu>)
    requires AllBlocksOk(groups, |comps|) && BlocksOk(Joined(g), |comps|)
    ensures AllBlocksOk(groups + [g], |comps|)
    ensures DcRows(comps, groups + [g], []) == DcRows(comps, groups, Joined(g))
    ensures AcRows(comps, groups + [g], []) == AcRows(comps, groups, Joined(g))
    ensures ScanInRange(comps, groups + [g]) <==> ScanInRange(comps, groups) && ItemsInRange(comps, Joined(g))
  {
    hide ItemsInRange, DcToks, AcToks, BlocksOk;
    AllBlocksSnoc(groups, g, |comps|);
    var all := groups + [g];
    assert all[..|groups|] == groups && all[|groups|] == g;
    NoToks(comps);
    forall tbl: nat | tbl < 4
      ensures DcRows(comps, all, [])[tbl] == DcRows(comps, groups, Joined(g))[tbl]
      ensures AcRows(comps, all, [])[tbl] == AcRows(comps, groups, Joined(g))[tbl]
    {
      AppendTwice([], ScanDcToks(comps, tbl, all), []);
      AppendTwice([], ScanAcToks(comps, tbl, all), []);
    }
    assert forall i | 0 <= i < |groups| :: all[i] == groups[i];
  }

  lemma AllBlocksSnoc(groups: seq<seq<Mcu>>, g: seq<Mcu>, n: nat)
    ensures AllBlocksOk(groups + [g], n) <==> AllBlocksOk(groups, n) && BlocksOk(Joined(g), n)
  {
    hide BlocksOk;
    var all := groups + [g];
    assert all[|groups|] == g;
    assert forall i | 0 <= i < |groups| :: all[i] == groups[i];
  }

  lemma NoToks(comps: seq<Comp>)
    ensures BlocksOk([], |comps|)
    ensures forall tbl: nat :: DcToks(comps, tbl, []) == [] && AcToks(comps, tbl, []) == []
    ensures ItemsInRange(comps, [])
  {
  }

  // ---------------------------------------------------------------- ranges over groups

  /** All values of a scan are in range. */
  ghost predicate GroupsInRange(comps: seq<Comp>, groups: seq<seq<Mcu>>)
  {
    AllBlocksOk(groups, |comps|) && ScanInRange(comps, groups)
  }

  lemma {:induction false} ItemsPrefix(comps: seq<Comp>, items: seq<McuBlock>, more: seq<McuBlock>)
    requires BlocksOk(items + more, |comps|) && ItemsInRange(comps, items + more)
    ensures BlocksOk(items, |comps|) && ItemsInRange(comps, items)
    decreases |more|
  {
    hide BlockInRange, LastDc, ItemsInRange;
    BlocksOkJoin(items, more, |comps|);
    if more == [] {
      assert items + more == items;
    } else {
      var n := |more| - 1;
      assert items + more == (items + more[..n]) + [more[n]];
      BlocksOkJoin(items + more[..n], [more[n]], |comps|);
      assert [more[n]][0] == more[n];
      ItemsSnoc(comps, items + more[..n], more[n]);
      ItemsPrefix(comps, items, more[..n]);
    }
  }

  lemma OneFewerInRange(comps: seq<Comp>, mcus: seq<Mcu>, m: Mcu, interval: nat)
    requires GroupsInRange(comps, Groups(mcus + [m], interval))
    ensures GroupsInRange(comps, Groups(mcus, interval))
  {
    hide ItemsInRange, Groups, Joined, AllBlocksOk, ScanInRange;
    var g, g' := Groups(mcus, interval), Groups(mcus + [m], interval);
    NextGroups(mcus, interval, m);
    GroupsSplitLast(g);
    GroupsSplitLast(g');
    RangeSplit(comps, g'[..|g'| - 1], g'[|g'| - 1]);
    if |g'| == |g| {
      GroupGrows(g[|g| - 1], m);
      BlocksOkJoin(Joined(g[|g| - 1]), m, |comps|);
      ItemsPrefix(comps, Joined(g[|g| - 1]), m);
    } else {
      RangeSplit(comps, g[..|g| - 1], g[|g| - 1]);
    }
    RangeJoin(comps, g[..|g| - 1], g[|g| - 1]);
  }

  lemma RangeSplit(comps: seq<Comp>, groups: seq<seq<Mcu>>, g: seq<Mcu>)
    requires GroupsInRange(comps, groups + [g])
    ensures GroupsInRange(comps, groups) && BlocksOk(Joined(g), |comps|) && ItemsInRange(comps, Joined(g))
  {
    hide ItemsInRange, BlocksOk;
    AllBlocksSnoc(groups, g, |comps|);
    RowsGroup(comps, groups, g);
  }

  lemma RangeJoin(comps: seq<Comp>, groups: seq<seq<Mcu>>, g: seq<Mcu>)
    requires GroupsInRange(comps, groups) && BlocksOk(Joined(g), |comps|) && ItemsInRange(comps, Joined(g))
    ensures GroupsInRange(comps, groups + [g])
  {
    hide ItemsInRange, BlocksOk;
    RowsGroup(comps, groups, g);
  }

  lemma {:induction false} EarlierInRange(comps: seq<Comp>, mcus: seq<Mcu>, more: seq<Mcu>, interval: nat)
    requires GroupsInRange(comps, Groups(mcus + more, interval))
    ensures GroupsInRange(comps, Groups(mcus, interval))
    decreases |more|
  {
    hide GroupsInRange, Groups;
    if more == [] {
      assert mcus + more == mcus;
    } else {
      var n := |more| - 1;
      assert mcus + more == (mcus + more[..n]) + [more[n]];
      OneFewerInRange(comps, mcus + more[..n], more[n], interval);
      EarlierInRange(comps, mcus, more[..n], interval);
    }
  }

  // ---------------------------------------------------------------- the pass

  class GatherEncoder {
    const comps: seq<Comp>
    const membership: seq<nat>
    const interval: nat
    const dcCounts: array2<nat>
    const acCounts: array2<nat>
    var lastDc: seq<int>
    var restartsToGo: nat
    ghost var mcus: seq<Mcu>

    /** The parts that never change. */
    ghost predicate SetUp()
    {
      && dcCounts != acCounts
      && (forall ci | 0 <= ci < |comps| :: comps[ci].dcTbl < 4 && comps[ci].acTbl < 4)
      && forall i | 0 <= i < |membership| :: membership[i] < |comps|
    }

    /** The groups are complete, and the blocks `items` belong to the next one. */
    ghost predicate Counted(groups: seq<seq<Mcu>>, items: seq<McuBlock>)
      reads this`lastDc, dcCounts, acCounts
    {
      && GroupsInRange(comps, groups) && BlocksOk(items, |comps|) && ItemsInRange(comps, items)
      && lastDc == LastDc(items, NoDc(|comps|))
      && Tally(dcCounts, DcRows(comps, groups, items)) && Tally(acCounts, AcRows(comps, groups, items))
    }

    ghost predicate Valid()
      reads this, dcCounts, acCounts
    {
      var g := Groups(mcus, interval);
      var last := g[|g| - 1];
      SetUp() && Counted(g[..|g| - 1], Joined(last)) && CountsDown(interval, restartsToGo, |last|)
    }

    /** start_pass_huff for gathering statistics: no output, and all counts zero. */
    constructor (comps: seq<Comp>, membership: seq<nat>, interval: nat)
      requires forall ci | 0 <= ci < |comps| :: comps[ci].dcTbl < 4 && comps[ci].acTbl < 4
      requires forall i | 0 <= i < |membership| :: membership[i] < |comps|
      ensures Valid() && mcus == [] && fresh(dcCounts) && fresh(acCounts)
      ensures this.comps == comps && this.membership == membership && this.interval == interval
    {
      this.comps, this.membership, this.interval := comps, membership, interval;
      lastDc, restartsToGo, mcus := NoDc(|comps|), interval, [];
      dcCounts, acCounts := new nat[4, 257]((_, _) => 0), new nat[4, 257]((_, _) => 0);
      new;
      CountedNone(comps);
      assert Groups<Mcu>([], interval) == [[]] && Joined<McuBlock>([]) == [];
    }

    /** One block. */
    method CountBlock(ci: nat, block: seq<int>, ghost groups: seq<seq<Mcu>>, ghost items: seq<McuBlock>)
      returns (ok: bool)
      requires SetUp() && Counted(groups, items) && ci < |comps| && |block| == 64
      modifies this`lastDc, dcCounts, acCounts
      ensures BlocksOk(items + [McuBlock(ci, ZigzagOf(block))], |comps|)
      ensures ok <==> ItemsInRange(comps, items + [McuBlock(ci, ZigzagOf(block))])
      ensures ok ==> Counted(groups, items + [McuBlock(ci, ZigzagOf(block))])
    {
      hide Tally, GroupsInRange, ItemsInRange, DcRows, AcRows, LastDc, BlockInRange, AcTokens, ZigzagOf, BitLen;
      ghost var it := McuBlock(ci, ZigzagOf(block));
      ItemsSnoc(comps, items, it);
      LastDcSnoc(items, it, NoDc(|comps|));
      InRangeGroups(groups);
      RowsBlock(comps, groups, items, it);
      FirstStored(block);
      var c := comps[ci];
      ok := HtestOneBlock(block, lastDc[ci], dcCounts, c.dcTbl, acCounts, c.acTbl, DcRows(comps, groups, items),
          AcRows(comps, groups, items));
      if ok {
        lastDc := lastDc[ci := block[0]];
      }
    }

    lemma InRangeGroups(groups: seq<seq<Mcu>>)
      requires GroupsInRange(comps, groups)
      ensures AllBlocksOk(groups, |comps|)
    {
      hide ScanInRange, AllBlocksOk;
    }

    /** The blocks of an MCU. */
    method CountBlocks(blocks: seq<seq<int>>, ghost groups: seq<seq<Mcu>>, ghost items: seq<McuBlock>)
      returns (ok: bool)
      requires SetUp() && Counted(groups, items) && McuBlocks(membership, blocks)
      modifies this`lastDc, dcCounts, acCounts
      ensures BlocksOk(items + McuOf(membership, blocks), |comps|)
      ensures ok <==> ItemsInRange(comps, items + McuOf(membership, blocks))
      ensures ok ==> Counted(groups, items + McuOf(membership, blocks))
    {
      hide Tally, GroupsInRange, ItemsInRange, LastDc, ZigzagOf, DcRows, AcRows;
      ghost var m := McuOf(membership, blocks);
      BlocksOkJoin(items, m, |comps|);
      assert items + m[..0] == items;
      for blkn := 0 to |blocks|
        invariant Counted(groups, items + m[..blkn])
      {
        ghost var part := items + m[..blkn];
        ok := CountBlock(membership[blkn], blocks[blkn], groups, part);
        assert items + m[..blkn + 1] == part + [m[blkn]];
        if !ok {
          assert (part + [m[blkn]]) + m[blkn + 1..] == items + m;
          if ItemsInRange(comps, items + m) {
            ItemsPrefix(comps, part + [m[blkn]], m[blkn + 1..]);
          }
          return;
        }
      }
      assert m[..|blocks|] == m;
      ok := true;
    }

    /** The restart bookkeeping before each MCU. */
    method StartMcu(ghost groups: seq<seq<Mcu>>, ghost last: seq<Mcu>)
      requires Counted(groups, Joined(last)) && CountsDown(interval, restartsToGo, |last|)
      modifies this`lastDc, this`restartsToGo
      ensures if interval > 0 && |last| == interval
          then Counted(groups + [last], []) && CountsDown(interval, restartsToGo, 1)
        else Counted(groups, Joined(last)) && CountsDown(interval, restartsToGo, |last| + 1)
    {
      hide Tally, ItemsInRange, GroupsInRange, Joined, DcRows, AcRows;
      if interval != 0 {
        if restartsToGo == 0 {
          InRangeGroups(groups);
          RowsGroup(comps, groups, last);
          RangeJoin(comps, groups, last);
          NoToks(comps);
          lastDc := seq(|comps|, _ => 0);
          restartsToGo := interval;
        }
        restartsToGo := restartsToGo - 1;
      }
    }

    /** encode_mcu_gather: succeeds just when all values up to this MCU are in range. */
    method EncodeMcu(blocks: seq<seq<int>>) returns (ok: bool)
      requires Valid() && McuBlocks(membership, blocks)
      modifies this`lastDc, this`restartsToGo, this`mcus, dcCounts, acCounts
      ensures mcus == old(mcus) + [McuOf(membership, blocks)]
      ensures ok <==> GroupsInRange(comps, Groups(mcus, interval))
      ensures ok ==> Valid()
    {
      hide SetUp, Counted, Groups, Joined, CountsDown, GroupsInRange;
      ghost var m, g := McuOf(membership, blocks), Groups(mcus, interval);
      ghost var groups, last := g[..|g| - 1], g[|g| - 1];
      NextGroups(mcus, interval, m);
      mcus := mcus + [m];
      ghost var g' := Groups(mcus, interval);
      GroupsSplitLast(g);
      GroupsSplitLast(g');
      StartMcu(groups, last);
      if interval > 0 && |last| == interval {
        groups, last := g, [];
        JoinedNone();
      }
      ok := ContinueSegment(blocks, groups, last);
    }

    method ContinueSegment(blocks: seq<seq<int>>, ghost groups: seq<seq<Mcu>>, ghost last: seq<Mcu>) returns (ok: bool)
      requires SetUp() && Counted(groups, Joined(last)) && McuBlocks(membership, blocks)
      modifies this`lastDc, dcCounts, acCounts
      ensures ok <==> GroupsInRange(comps, groups + [last + [McuOf(membership, blocks)]])
      ensures ok ==> Counted(groups, Joined(last + [McuOf(membership, blocks)]))
    {
      hide SetUp, Joined, GroupsInRange, ItemsInRange, Tally, LastDc;
      ghost var m := McuOf(membership, blocks);
      GroupGrows(last, m);
      ok := CountBlocks(blocks, groups, Joined(last));
      if ok {
        RangeJoin(comps, groups, last + [m]);
      } else if GroupsInRange(comps, groups + [last + [m]]) {
        RangeSplit(comps, groups, last + [m]);
      }
    }

    /** What has been counted. */
    lemma Totals()
      requires Valid()
      ensures GroupsInRange(comps, Groups(mcus, interval)) && AllBlocksOk(Groups(mcus, interval), |comps|)
      ensures Tally(dcCounts, DcRows(comps, Groups(mcus, interval), []))
          && Tally(acCounts, AcRows(comps, Groups(mcus, interval), []))
    {
      hide Groups, Joined, ItemsInRange, GroupsInRange, Tally, DcRows, AcRows;
      var g := Groups(mcus, interval);
      GroupsSplitLast(g);
      InRangeGroups(g[..|g| - 1]);
      RowsGroup(comps, g[..|g| - 1], g[|g| - 1]);
      RangeJoin(comps, g[..|g| - 1], g[|g| - 1]);
      InRangeGroups(g);
    }
  }

  lemma CountedNone(comps: seq<Comp>)
    ensures BlocksOk([], |comps|) && GroupsInRange(comps, []) && ItemsInRange(comps, [])
    ensures LastDc([], NoDc(|comps|)) == NoDc(|comps|)
    ensures forall tbl | 0 <= tbl < 4 :: DcRows(comps, [], [])[tbl] == [] && AcRows(comps, [], [])[tbl] == []
  {
  }

  /** Count the symbols of a scan; fails just when a value is out of range. */
  method GatherSequential(comps: seq<Comp>, membership: seq<nat>, interval: nat, mcus: seq<seq<seq<int>>>)
    returns (ok: bool, dcCounts: array2<nat>, acCounts: array2<nat>)
    requires forall ci | 0 <= ci < |comps| :: comps[ci].dcTbl < 4 && comps[ci].acTbl < 4
    requires forall i | 0 <= i < |membership| :: membership[i] < |comps|
    requires forall i | 0 <= i < |mcus| :: McuBlocks(membership, mcus[i])
    ensures ok <==> GroupsInRange(comps, Groups(McusOf(membership, mcus), interval))
    ensures ok ==> AllBlocksOk(Groups(McusOf(membership, mcus), interval), |comps|)
    ensures ok ==> Tally(dcCounts, DcRows(comps, Groups(McusOf(membership, mcus), interval), []))
    ensures ok ==> Tally(acCounts, AcRows(comps, Groups(McusOf(membership, mcus), interval), []))
    ensures fresh(dcCounts) && fresh(acCounts)
  {
    hide GatherEncoder.Valid, GroupsInRange, Groups, DcRows, AcRows, Tally, AllBlocksOk;
    var enc := new GatherEncoder(comps, membership, interval);
    ghost var all := McusOf(membership, mcus);
    dcCounts, acCounts := enc.dcCounts, enc.acCounts;
    assert all[..0] == [];
    for i := 0 to |mcus|
      invariant enc.Valid() && enc.mcus == all[..i]
    {
      assert McuBlocks(membership, mcus[i]);
      ok := enc.EncodeMcu(mcus[i]);
      assert all[..i + 1] == all[..i] + [all[i]];
      if !ok {
        assert all[..i + 1] + all[i + 1..] == all;
        if GroupsInRange(comps, Groups(all, interval)) {
          EarlierInRange(comps, all[..i + 1], all[i + 1..], interval);
        }
        return;
      }
    }
    assert all[..|mcus|] == all;
    enc.Totals();
    ok := true;
  }
}
