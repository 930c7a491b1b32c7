/** A whole sequential scan through the encoder: MCUs of interleaved blocks, restart markers between
    segments, and DC predictions that start afresh in each. */
module SeqPass {
  import opened Bits
  import opened Coef
  import opened Huffman
  import opened HuffTables
  import opened BitOutput
  import opened Segments
  import opened AcScan
  import opened AcEncoder
  import opened SeqScan
  import opened SeqEncoder
  import opened Zigzag

  type Mcu = seq<McuBlock>

  lemma BlocksOkJoin(a: seq<McuBlock>, b: seq<McuBlock>, n: nat)
    ensures BlocksOk(a + b, n) <==> BlocksOk(a, n) && BlocksOk(b, n)
  {
    if BlocksOk(a + b, n) {
      forall i | 0 <= i < |a|
        ensures a[i].ci < n
      {
        assert (a + b)[i] == a[i];
      }
      forall i | 0 <= i < |b|
        ensures b[i].ci < n
      {
        assert (a + b)[|a| + i] == b[i];
      }
    }
  }

  /** All MCUs of one segment can be sent, starting without DC predictions. */
  predicate GroupCoded(ts: Tables, comps: seq<Comp>, g: seq<Mcu>)
  {
    Sendable(ts, comps, Joined(g))
  }

  function GroupBits(ts: Tables, comps: seq<Comp>, g: seq<Mcu>): BitSeq
    requires GroupCoded(ts, comps, g)
  {
    SentBits(ts, comps, Joined(g))
  }

  predicate GroupsCoded(ts: Tables, comps: seq<Comp>, groups: seq<seq<Mcu>>)
  {
    forall i | 0 <= i < |groups| :: GroupCoded(ts, comps, groups[i])
  }

  function GroupSegments(ts: Tables, comps: seq<Comp>, groups: seq<seq<Mcu>>): (segs: seq<BitSeq>)
    requires GroupsCoded(ts, comps, groups)
    ensures |segs| == |groups|
  {
    seq(|groups|, i requires 0 <= i < |groups| => GroupBits(ts, comps, groups[i]))
  }

  /** All MCUs of a scan can be sent. */
  predicate ScanCoded(ts: Tables, comps: seq<Comp>, mcus: seq<Mcu>, interval: nat)
  {
    GroupsCoded(ts, comps, Groups(mcus, interval))
  }

  /** The scan in the file. */
  function ScanData(ts: Tables, comps: seq<Comp>, mcus: seq<Mcu>, interval: nat): seq<Byte>
    requires ScanCoded(ts, comps, mcus, interval)
  {
    ScanBytes(GroupSegments(ts, comps, Groups(mcus, interval)))
  }

  // ---------------------------------------------------------------- groups

  lemma GroupsCodedSnoc(ts: Tables, comps: seq<Comp>, groups: seq<seq<Mcu>>, g: seq<Mcu>)
    ensures GroupsCoded(ts, comps, groups + [g]) <==> GroupsCoded(ts, comps, groups) && GroupCoded(ts, comps, g)
    ensures GroupsCoded(ts, comps, groups + [g]) ==>
      GroupSegments(ts, comps, groups + [g]) == GroupSegments(ts, comps, groups) + [GroupBits(ts, comps, g)]
  {
    hide GroupCoded, GroupBits;
    var all := groups + [g];
    assert all[|groups|] == g;
    assert forall i | 0 <= i < |groups| :: all[i] == groups[i];
  }

  /** What one more MCU adds to the segment it falls into. */
  lemma GroupGrows(g: seq<Mcu>, m: Mcu)
    ensures Joined(g + [m]) == Joined(g) + m
  {
    JoinedSnoc(g, m);
  }

  lemma PartCoded(ts: Tables, comps: seq<Comp>, items: seq<McuBlock>, more: seq<McuBlock>, last: seq<int>)
    requires Usable(ts, comps) && |comps| == |last| && BlocksOk(items + more, |comps|)
        && SegmentCoded(ts, comps, items + more, last)
    ensures BlocksOk(items, |comps|) && SegmentCoded(ts, comps, items, last)
  {
    hide SegmentCoded, SegmentBitsOf, Usable;
    var rest := SegmentSplit(ts, comps, items + more, last, |items|);
    assert (items + more)[..|items|] == items;
  }

  lemma ShorterCoded(ts: Tables, comps: seq<Comp>, g: seq<Mcu>, m: Mcu)
    requires GroupCoded(ts, comps, g + [m])
    ensures GroupCoded(ts, comps, g)
  {
    hide SegmentCoded, Usable;
    GroupGrows(g, m);
    PartCoded(ts, comps, Joined(g), m, NoDc(|comps|));
  }

  /** A scan that can be sent can be sent up to any MCU. */
  lemma {:induction false} EarlierCoded(ts: Tables, comps: seq<Comp>, mcus: seq<Mcu>, more: seq<Mcu>, interval: nat)
    requires ScanCoded(ts, comps, mcus + more, interval)
    ensures ScanCoded(ts, comps, mcus, interval)
    decreases |more|
  {
    hide GroupsCoded, Groups, GroupCoded;
    if more == [] {
      assert mcus + more == mcus;
    } else {
      var n := |more| - 1;
      assert mcus + more == (mcus + more[..n]) + [more[n]];
      OneFewerCoded(ts, comps, mcus + more[..n], more[n], interval);
      EarlierCoded(ts, comps, mcus, more[..n], interval);
    }
  }

  lemma OneFewerCoded(ts: Tables, comps: seq<Comp>, mcus: seq<Mcu>, m: Mcu, interval: nat)
    requires ScanCoded(ts, comps, mcus + [m], interval)
    ensures ScanCoded(ts, comps, mcus, interval)
  {
    hide GroupsCoded, Groups, GroupCoded;
    var g, g' := Groups(mcus, interval), Groups(mcus + [m], interval);
    NextGroups(mcus, interval, m);
    GroupsSplitLast(g);
    GroupsSplitLast(g');
    GroupsCodedSnoc(ts, comps, g'[..|g'| - 1], g'[|g'| - 1]);
    GroupsCodedSnoc(ts, comps, g[..|g| - 1], g[|g| - 1]);
    if |g'| == |g| {
      ShorterCoded(ts, comps, g[|g| - 1], m);
    }
  }

  // ---------------------------------------------------------------- the encoder

  /** The derived tables match those that the components use. */
  ghost predicate Derived(ts: Tables, comps: seq<Comp>, dcTbls: seq<CDerived>, acTbls: seq<CDerived>)
  {
    |dcTbls| == 4 && |acTbls| == 4 && forall ci | 0 <= ci < |comps| :: DerivedFor(ts, comps[ci], dcTbls, acTbls)
  }

  ghost predicate DerivedFor(ts: Tables, c: Comp, dcTbls: seq<CDerived>, acTbls: seq<CDerived>)
    requires |dcTbls| == 4 && |acTbls| == 4
  {
    && |ts.dc| == 4 && |ts.ac| == 4 && c.dcTbl < 4 && c.acTbl < 4
    && CMatches(ts.dc[c.dcTbl], dcTbls[c.dcTbl]) && CMatches(ts.ac[c.acTbl], acTbls[c.acTbl])
  }

  lemma DerivedUsable(ts: Tables, comps: seq<Comp>, dcTbls: seq<CDerived>, acTbls: seq<CDerived>)
    requires Derived(ts, comps, dcTbls, acTbls)
    ensures Usable(ts, comps)
  {
    forall ci | 0 <= ci < |comps|
      ensures UsableFor(ts, comps[ci])
    {
      assert DerivedFor(ts, comps[ci], dcTbls, acTbls);
    }
  }

  lemma DerivedAt(ts: Tables, comps: seq<Comp>, dcTbls: seq<CDerived>, acTbls: seq<CDerived>, ci: nat)
    requires Derived(ts, comps, dcTbls, acTbls) && ci < |comps|
    ensures |dcTbls| == 4 && |acTbls| == 4 && DerivedFor(ts, comps[ci], dcTbls, acTbls)
  {
  }

  /** The blocks of an MCU and the components they belong to. */
  function McuOf(membership: seq<nat>, blocks: seq<seq<int>>): (m: Mcu)
    requires |blocks| == |membership| && forall i | 0 <= i < |blocks| :: |blocks[i]| == 64
    ensures |m| == |blocks|
    ensures forall i | 0 <= i < |blocks| :: m[i] == McuBlock(membership[i], ZigzagOf(blocks[i]))
  {
    seq(|blocks|, i requires 0 <= i < |blocks| => McuBlock(membership[i], ZigzagOf(blocks[i])))
  }

  /** `membership` gives the component of each block of an MCU; `lastDc` the last DC value of each
      component, `restartsToGo` and `nextRestartNum` the restart counters. */
  class HuffEncoder {
    const w: BitWriter
    const ts: Tables
    const dcTbls: seq<CDerived>
    const acTbls: seq<CDerived>
    const comps: seq<Comp>
    const membership: seq<nat>
    const interval: nat
    var lastDc: seq<int>
    var restartsToGo: nat
    var nextRestartNum: nat
    ghost const start: seq<Byte>
    ghost var mcus: seq<Mcu>

    /** The parts that never change. */
    ghost predicate SetUp()
    {
      Derived(ts, comps, dcTbls, acTbls) && forall i | 0 <= i < |membership| :: membership[i] < |comps|
    }

    /** The blocks `items` make up the segment so far. */
    ghost predicate InSegment(items: seq<McuBlock>)
      reads this`lastDc, w
    {
      && w.Valid() && Usable(ts, comps) && BlocksOk(items, |comps|) && SegmentCoded(ts, comps, items, NoDc(|comps|))
      && w.segment == SegmentBitsOf(ts, comps, items, NoDc(|comps|))
      && lastDc == LastDc(items, NoDc(|comps|))
    }

    /** The groups before have been written, each followed by a restart marker. */
    ghost predicate Before(groups: seq<seq<Mcu>>)
      reads w
    {
      GroupsCoded(ts, comps, groups) && w.done == start + Marked(GroupSegments(ts, comps, groups))
    }

    ghost predicate Valid()
      reads this, w
    {
      var g := Groups(mcus, interval);
      var last := g[|g| - 1];
      && State(g[..|g| - 1], last)
      && nextRestartNum == (|g| - 1) % 8 && CountsDown(interval, restartsToGo, |last|)
    }

    constructor (w: BitWriter, ts: Tables, dcTbls: seq<CDerived>, acTbls: seq<CDerived>, comps: seq<Comp>,
          membership: seq<nat>, interval: nat)
      requires w.Valid() && w.segment == [] && Derived(ts, comps, dcTbls, acTbls)
      requires forall i | 0 <= i < |membership| :: membership[i] < |comps|
      ensures Valid() && mcus == [] && start == w.done
      ensures this.w == w && this.ts == ts && this.comps == comps && this.membership == membership
          && this.interval == interval
    {
      hide Derived, BitWriter.Valid;
      DerivedUsable(ts, comps, dcTbls, acTbls);
      this.w, this.ts, this.dcTbls, this.acTbls, this.comps, this.membership, this.interval := w, ts, dcTbls,
          acTbls, comps, membership, interval;
      lastDc, restartsToGo, nextRestartNum, start, mcus := NoDc(|comps|), interval, 0, w.done, [];
      new;
      assert start + [] == start;
      assert Groups<Mcu>([], interval) == [[]];
    }

    /** One block of the MCU. */
    method EncodeBlock(ci: nat, block: seq<int>, ghost items: seq<McuBlock>) returns (ok: bool)
      requires SetUp() && InSegment(items) && ci < |comps| && |block| == 64
      modifies w, this`lastDc
      ensures BlocksOk(items + [McuBlock(ci, ZigzagOf(block))], |comps|) && Usable(ts, comps) && w.Valid()
          && w.done == old(w.done)
      ensures ok <==> SegmentCoded(ts, comps, items + [McuBlock(ci, ZigzagOf(block))], NoDc(|comps|))
      ensures ok ==> InSegment(items + [McuBlock(ci, ZigzagOf(block))])
    {
      hide SegmentCoded, SegmentBitsOf, LastDc, CMatches, BlockCoded, BlockBits, BitWriter.Valid, Derived,
          Usable, ZigzagOf;
      ghost var z := ZigzagOf(block);
      ghost var it := McuBlock(ci, z);
      DerivedAt(ts, comps, dcTbls, acTbls, ci);
      var c := comps[ci];
      SegmentSnoc(ts, comps, items, it, NoDc(|comps|));
      LastDcSnoc(items, it, NoDc(|comps|));
      FirstStored(block);
      ok := EncodeOneBlock(w, block, lastDc[ci], ts.dc[c.dcTbl], dcTbls[c.dcTbl], ts.ac[c.acTbl], acTbls[c.acTbl]);
      if ok {
        lastDc := lastDc[ci := block[0]];
      }
    }

    /** emit_restart. */
    method EmitRestart(num: nat, ghost groups: seq<seq<Mcu>>, ghost g: seq<Mcu>)
      requires SetUp() && Before(groups) && InSegment(Joined(g)) && num == |groups| % 8
      modifies w, this`lastDc
      ensures Before(groups + [g]) && InSegment([])
    {
      hide SegmentCoded, SegmentBitsOf, LastDc, Usable, Derived, BitWriter.Valid, SegmentBytes, GroupSegments,
          Joined, GroupsCoded;
      GroupsCodedSnoc(ts, comps, groups, g);
      ghost var segs, seg := GroupSegments(ts, comps, groups), GroupBits(ts, comps, g);
      MarkedWith(segs, seg);
      w.FlushBits();
      w.EmitMarker(RST0 + num);
      assert ((start + Marked(segs)) + SegmentBytes(seg)) + RestartMarker(num)
          == start + ((Marked(segs) + SegmentBytes(seg)) + RestartMarker(num));
      lastDc := seq(|comps|, _ => 0);
      NothingSent(ts, comps);
    }

    /** The MCU data blocks: fails just when the segment with this MCU cannot be sent. */
    method EncodeBlocks(blocks: seq<seq<int>>, ghost items: seq<McuBlock>) returns (ok: bool)
      requires SetUp() && InSegment(items) && |blocks| == |membership|
          && forall i | 0 <= i < |blocks| :: |blocks[i]| == 64
      modifies w, this`lastDc
      ensures Usable(ts, comps) && BlocksOk(items + McuOf(membership, blocks), |comps|) && w.Valid()
          && w.done == old(w.done)
      ensures ok <==> SegmentCoded(ts, comps, items + McuOf(membership, blocks), NoDc(|comps|))
      ensures ok ==> InSegment(items + McuOf(membership, blocks))
    {
      hide SegmentCoded, SegmentBitsOf, LastDc, Usable, BitWriter.Valid, InSegment, ZigzagOf, SetUp;
      ghost var m := McuOf(membership, blocks);
      MemberOf(m);
      BlocksOkJoin(items, m, |comps|);
      Segment(items);
      assert items + m[..0] == items;
      for blkn := 0 to |blocks|
        invariant w.Valid() && w.done == old(w.done) && InSegment(items + m[..blkn])
      {
        ghost var part := items + m[..blkn];
        ok := EncodeBlock(membership[blkn], blocks[blkn], part);
        assert items + m[..blkn + 1] == part + [m[blkn]];
        if !ok {
          NotCodedLater(ts, comps, part + [m[blkn]], m[blkn + 1..], NoDc(|comps|));
          assert (part + [m[blkn]]) + m[blkn + 1..] == items + m;
          return;
        }
      }
      assert m[..|blocks|] == m;
      Segment(items + m);
      ok := true;
    }

    lemma Segment(items: seq<McuBlock>)
      requires InSegment(items)
      ensures w.Valid() && BlocksOk(items, |comps|) && Usable(ts, comps)
          && SegmentCoded(ts, comps, items, NoDc(|comps|))
    {
      hide SegmentCoded, SegmentBitsOf, LastDc, Usable, BitWriter.Valid;
    }

    lemma MemberOf(m: Mcu)
      requires SetUp() && |m| == |membership| && forall i | 0 <= i < |m| :: m[i].ci == membership[i]
      ensures BlocksOk(m, |comps|)
      ensures forall i | 0 <= i < |membership| :: membership[i] < |comps|
    {
      hide Derived;
    }

    ghost predicate State(groups: seq<seq<Mcu>>, last: seq<Mcu>)
      reads this`lastDc, w
    {
      SetUp() && Before(groups) && InSegment(Joined(last))
    }

    /** A restart marker, if it is due. */
    method StartMcu(ghost groups: seq<seq<Mcu>>, ghost last: seq<Mcu>)
      requires State(groups, last) && nextRestartNum == |groups| % 8 && CountsDown(interval, restartsToGo, |last|)
      modifies w, this`lastDc
      ensures if interval > 0 && |last| == interval then State(groups + [last], []) else State(groups, last)
    {
      hide SetUp, Before, InSegment, Joined;
      JoinedNone();
      if interval != 0 && restartsToGo == 0 {
        EmitRestart(nextRestartNum, groups, last);
      }
    }

    /** The restart bookkeeping after each MCU. */
    method CountMcu(ghost done: nat, ghost n: nat)
      requires nextRestartNum == done % 8 && CountsDown(interval, restartsToGo, n)
      modifies this`restartsToGo, this`nextRestartNum
      ensures if interval > 0 && n == interval
          then nextRestartNum == (done + 1) % 8 && CountsDown(interval, restartsToGo, 1)
        else nextRestartNum == done % 8 && CountsDown(interval, restartsToGo, n + 1)
    {
      if interval != 0 {
        if restartsToGo == 0 {
          restartsToGo := interval;
          nextRestartNum := (nextRestartNum + 1) % 8;
        }
        restartsToGo := restartsToGo - 1;
      }
    }

    /** The MCU itself. */
    method ContinueSegment(blocks: seq<seq<int>>, ghost groups: seq<seq<Mcu>>, ghost last: seq<Mcu>) returns (ok: bool)
      requires State(groups, last) && |blocks| == |membership| && forall i | 0 <= i < |blocks| :: |blocks[i]| == 64
      modifies w, this`lastDc
      ensures ok <==> GroupsCoded(ts, comps, groups + [last + [McuOf(membership, blocks)]])
      ensures ok ==> State(groups, last + [McuOf(membership, blocks)])
    {
      hide SetUp, InSegment, Joined, SegmentCoded, Usable, GroupsCoded, GroupSegments;
      ghost var m := McuOf(membership, blocks);
      GroupGrows(last, m);
      GroupsCodedSnoc(ts, comps, groups, last + [m]);
      ok := EncodeBlocks(blocks, Joined(last));
    }

    /** encode_mcu_huff: succeeds just when all MCUs up to this one can be sent. */
    method EncodeMcu(blocks: seq<seq<int>>) returns (ok: bool)
      requires Valid() && |blocks| == |membership| && forall i | 0 <= i < |blocks| :: |blocks[i]| == 64
      modifies w, this`lastDc, this`restartsToGo, this`nextRestartNum, this`mcus
      ensures mcus == old(mcus) + [McuOf(membership, blocks)]
      ensures ok <==> ScanCoded(ts, comps, mcus, interval)
      ensures ok ==> Valid()
    {
      hide SetUp, Before, InSegment, Groups, Joined, CountsDown, GroupsCoded;
      ghost var m, g := McuOf(membership, blocks), Groups(mcus, interval);
      ghost var groups, last := g[..|g| - 1], g[|g| - 1];
      NextGroups(mcus, interval, m);
      mcus := mcus + [m];
      ghost var g' := Groups(mcus, interval);
      GroupsSplitLast(g);
      GroupsSplitLast(g');
      StartMcu(groups, last);
      if interval > 0 && |last| == interval {
        groups, last := g, [];
      }
      ok := ContinueSegment(blocks, groups, last);
      CountMcu(|g| - 1, |g[|g| - 1]|);
    }

    /** finish_pass_huff. */
    method FinishPass()
      requires Valid()
      modifies w
      ensures ScanCoded(ts, comps, mcus, interval) && w.Valid() && w.segment == []
      ensures w.out == w.done == start + ScanData(ts, comps, mcus, interval)
    {
      hide SegmentCoded, SegmentBitsOf, LastDc, Usable, Derived, BitWriter.Valid, SegmentBytes, GroupSegments,
          Joined, GroupsCoded, Groups;
      ghost var g := Groups(mcus, interval);
      GroupsSplitLast(g);
      ghost var groups, last := g[..|g| - 1], g[|g| - 1];
      GroupsCodedSnoc(ts, comps, groups, last);
      ghost var segs, seg := GroupSegments(ts, comps, groups), GroupBits(ts, comps, last);
      w.FlushBits();
      assert (segs + [seg])[..|segs|] == segs;
      assert (start + Marked(segs)) + SegmentBytes(seg) == start + (Marked(segs) + SegmentBytes(seg));
    }
  }

  lemma NothingSent(ts: Tables, comps: seq<Comp>)
    requires Usable(ts, comps)
    ensures SegmentCoded(ts, comps, [], NoDc(|comps|)) && SegmentBitsOf(ts, comps, [], NoDc(|comps|)) == []
    ensures LastDc([], NoDc(|comps|)) == NoDc(|comps|)
  {
  }

  lemma JoinedNone()
    ensures Joined<McuBlock>([]) == []
  {
  }

  lemma NotCodedLater(ts: Tables, comps: seq<Comp>, items: seq<McuBlock>, more: seq<McuBlock>, last: seq<int>)
    requires Usable(ts, comps) && |comps| == |last| && BlocksOk(items + more, |comps|) && BlocksOk(items, |comps|)
    requires !SegmentCoded(ts, comps, items, last)
    ensures !SegmentCoded(ts, comps, items + more, last)
  {
    hide SegmentCoded, Usable;
    if SegmentCoded(ts, comps, items + more, last) {
      PartCoded(ts, comps, items, more, last);
    }
  }

  // ---------------------------------------------------------------- a whole scan

  /** What jpeg_make_c_derived_tbl accepts. */
  predicate Accepted(t: HuffTable, isDC: bool)
  {
    t.Shaped() && t.ValidCounts() && t.DistinctSymbols() && t.SymbolsAtMost(if isDC then 15 else 255)
  }

  predicate AcceptedFor(ts: Tables, c: Comp)
  {
    |ts.dc| == 4 && |ts.ac| == 4 && c.dcTbl < 4 && c.acTbl < 4 && Accepted(ts.dc[c.dcTbl], true)
        && Accepted(ts.ac[c.acTbl], false)
  }

  /** All components of a scan have tables the encoder accepts. */
  predicate TablesAccepted(ts: Tables, comps: seq<Comp>) { forall ci | 0 <= ci < |comps| :: AcceptedFor(ts, comps[ci]) }

  predicate TablesShaped(ts: Tables)
  {
    |ts.dc| == 4 && |ts.ac| == 4 && forall i | 0 <= i < 4 :: ts.dc[i].Shaped() && ts.ac[i].Shaped()
  }

  /** start_pass_huff: the derived tables, if all tables that are used are accepted. */
  method StartPass(ts: Tables, comps: seq<Comp>) returns (ok: bool, dcTbls: seq<CDerived>, acTbls: seq<CDerived>)
    requires TablesShaped(ts)
    ensures ok <==> TablesAccepted(ts, comps)
    ensures ok ==> Derived(ts, comps, dcTbls, acTbls)
  {
    hide CMatches, HuffTable.Shaped, HuffTable.ValidCounts, HuffTable.DistinctSymbols, HuffTable.SymbolsAtMost;
    var none := CDerived([], []);
    dcTbls, acTbls := [none, none, none, none], [none, none, none, none];
    for ci := 0 to |comps|
      invariant |dcTbls| == 4 && |acTbls| == 4
      invariant forall cj | 0 <= cj < ci :: AcceptedFor(ts, comps[cj]) && DerivedFor(ts, comps[cj], dcTbls, acTbls)
    {
      var c := comps[ci];
      if c.dcTbl >= 4 || c.acTbl >= 4 {
        return false, dcTbls, acTbls;
      }
      var dc := MakeCDerivedTbl(ts.dc[c.dcTbl], true);
      if dc == BadTable {
        return false, dcTbls, acTbls;
      }
      dcTbls := dcTbls[c.dcTbl := dc.value];
      var ac := MakeCDerivedTbl(ts.ac[c.acTbl], false);
      if ac == BadTable {
        return false, dcTbls, acTbls;
      }
      acTbls := acTbls[c.acTbl := ac.value];
    }
    ok := true;
  }

  predicate McuBlocks(membership: seq<nat>, blocks: seq<seq<int>>)
  {
    |blocks| == |membership| && forall i | 0 <= i < |blocks| :: |blocks[i]| == 64
  }

  /** The MCUs of a scan. */
  function McusOf(membership: seq<nat>, mcus: seq<seq<seq<int>>>): (m: seq<Mcu>)
    requires forall i | 0 <= i < |mcus| :: McuBlocks(membership, mcus[i])
    ensures |m| == |mcus|
  {
    seq(|mcus|, i requires 0 <= i < |mcus| => assert McuBlocks(membership, mcus[i]); McuOf(membership, mcus[i]))
  }

  /** Write a scan: succeeds just when the tables are accepted, all values are in range, and all symbols
      have codes. */
  method WriteSequential(w: BitWriter, ts: Tables, comps: seq<Comp>, membership: seq<nat>, interval: nat,
        mcus: seq<seq<seq<int>>>) returns (ok: bool)
    requires w.Valid() && w.segment == [] && TablesShaped(ts)
    requires forall i | 0 <= i < |membership| :: membership[i] < |comps|
    requires forall i | 0 <= i < |mcus| :: McuBlocks(membership, mcus[i])
    modifies w
    ensures ok <==> TablesAccepted(ts, comps) && ScanCoded(ts, comps, McusOf(membership, mcus), interval)
    ensures ok ==> w.Valid() && w.segment == []
                   && w.out == w.done == old(w.done) + ScanData(ts, comps, McusOf(membership, mcus), interval)
  {
    hide BitWriter.Valid, Derived, ScanCoded, ScanData, HuffEncoder.Valid, TablesAccepted;
    var dcTbls, acTbls;
    ok, dcTbls, acTbls := StartPass(ts, comps);
    if !ok {
      return;
    }
    var enc := new HuffEncoder(w, ts, dcTbls, acTbls, comps, membership, interval);
    ghost var all := McusOf(membership, mcus);
    assert all[..0] == [];
    for i := 0 to |mcus|
      invariant enc.Valid() && enc.mcus == all[..i]
    {
      assert McuBlocks(membership, mcus[i]);
      ok := enc.EncodeMcu(mcus[i]);
      assert all[..i + 1] == all[..i] + [all[i]];
      if !ok {
        assert all[..i + 1] + all[i + 1..] == all;
        NotCodedAtAll(ts, comps, all[..i + 1], all[i + 1..], interval);
        return;
      }
    }
    assert all[..|mcus|] == all;
    enc.FinishPass();
    ok := true;
  }

  lemma NotCodedAtAll(ts: Tables, comps: seq<Comp>, mcus: seq<Mcu>, more: seq<Mcu>, interval: nat)
    requires !ScanCoded(ts, comps, mcus, interval)
    ensures !ScanCoded(ts, comps, mcus + more, interval)
  {
    hide ScanCoded;
    if ScanCoded(ts, comps, mcus + more, interval) {
      EarlierCoded(ts, comps, mcus, more, interval);
    }
  }
}
