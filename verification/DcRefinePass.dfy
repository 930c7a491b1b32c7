/** A whole refining pass over DC coefficients: one bit per block, with the restart markers in between. */
module DcRefinePass {
  import opened Bits
  import opened Coef
  import opened BitOutput
  import opened Segments
  import opened DcScan
  import opened DcEncoder
  import opened DcPass
  import opened SeqGather

  /** The bits of a segment. */
  function RefineSeg(al: nat, g: seq<DcMcu>): BitSeq { RefineBits(al, Joined(g)) }

  function RefineSegs(al: nat, groups: seq<seq<DcMcu>>): (segs: seq<BitSeq>)
    ensures |segs| == |groups|
  {
    seq(|groups|, i requires 0 <= i < |groups| => RefineSeg(al, groups[i]))
  }

  lemma RefineJoin(al: nat, a: seq<Item>, b: seq<Item>)
    ensures RefineBits(al, a + b) == RefineBits(al, a) + RefineBits(al, b)
  {
    hide BitSet;
  }

  lemma EmptySegment(al: nat)
    ensures RefineSeg(al, []) == []
  {
    assert Joined<Item>([]) == [];
  }

  lemma RefineSegsSnoc(al: nat, groups: seq<seq<DcMcu>>, g: seq<DcMcu>)
    ensures RefineSegs(al, groups + [g]) == RefineSegs(al, groups) + [RefineSeg(al, g)]
  {
    hide RefineSeg;
  }

  class DcRefinePass {
    const enc: ProgDcEncoder
    const interval: nat
    const membership: seq<nat>
    var restartsToGo: nat
    var nextRestartNum: nat
    ghost const start: seq<Byte>
    ghost var mcus: seq<DcMcu>

    ghost predicate State(groups: seq<seq<DcMcu>>, last: seq<DcMcu>)
      reads enc, enc.w, enc.counts
    {
      && enc.Valid() && !enc.gather && enc.w.segment == RefineSeg(enc.al, last)
      && enc.w.done == start + Marked(RefineSegs(enc.al, groups))
    }

    ghost predicate Valid()
      reads this, enc, enc.w, enc.counts
    {
      var g := Groups(mcus, interval);
      State(g[..|g| - 1], g[|g| - 1]) && nextRestartNum == (|g| - 1) % 8
          && CountsDown(interval, restartsToGo, |g[|g| - 1]|)
    }

    constructor (enc: ProgDcEncoder, interval: nat, membership: seq<nat>)
      requires enc.Valid() && !enc.gather && enc.w.segment == []
      ensures Valid() && mcus == [] && this.enc == enc && this.interval == interval && this.membership == membership
          && start == enc.w.done
    {
      hide ProgDcEncoder.Valid;
      this.enc, this.interval, this.membership, restartsToGo, nextRestartNum, start, mcus := enc, interval,
          membership, interval, 0, enc.w.done, [];
      new;
      assert start + [] == start;
      assert Groups<DcMcu>([], interval) == [[]];
    }

    /** A restart marker, if it is due. */
    method StartMcu(ghost groups: seq<seq<DcMcu>>, ghost last: seq<DcMcu>)
      requires State(groups, last) && nextRestartNum == |groups| % 8 && CountsDown(interval, restartsToGo, |last|)
      modifies enc.w, enc`lastDcVal
      ensures if interval > 0 && |last| == interval then State(groups + [last], []) else State(groups, last)
    {
      hide ProgDcEncoder.Valid, Marked, RefineSegs, SegmentBytes;
      if interval != 0 && restartsToGo == 0 {
        EmptySegment(enc.al);
        RefineSegsSnoc(enc.al, groups, last);
        MarkedWith(RefineSegs(enc.al, groups), RefineSeg(enc.al, last));
        ghost var before := Marked(RefineSegs(enc.al, groups));
        ghost var seg := SegmentBytes(RefineSeg(enc.al, last));
        assert start + before + seg + RestartMarker(nextRestartNum)
            == start + (before + seg + RestartMarker(nextRestartNum));
        enc.EmitRestart(nextRestartNum);
      }
    }

    /** The MCU itself. */
    method ContinueSegment(blocks: seq<seq<int>>, ghost groups: seq<seq<DcMcu>>, ghost last: seq<DcMcu>)
      requires State(groups, last) && |membership| == |blocks| && forall i | 0 <= i < |blocks| :: |blocks[i]| == 64
      modifies enc.w
      ensures State(groups, last + [ItemsOf(membership, blocks)])
    {
      hide ProgDcEncoder.Valid, Marked, RefineSegs, Joined, RefineBits;
      JoinedSnoc(last, ItemsOf(membership, blocks));
      RefineJoin(enc.al, Joined(last), ItemsOf(membership, blocks));
      enc.EncodeMcuRefine(membership, blocks);
    }

    /** The restart bookkeeping after each MCU. */
    method CountMcu(ghost done: nat, ghost n: nat)
      requires nextRestartNum == done % 8 && CountsDown(interval, restartsToGo, n)
      modifies this`restartsToGo, this`nextRestartNum
      ensures if interval > 0 && n == interval
          then nextRestartNum == (done + 1) % 8 && CountsDown(interval, restartsToGo, 1)
        else nextRestartNum == done % 8 && CountsDown(interval, restartsToGo, n + 1)
    {
      if interval != 0 {
        if restartsToGo == 0 {
          restartsToGo := interval;
          nextRestartNum := (nextRestartNum + 1) % 8;
        }
        restartsToGo := restartsToGo - 1;
      }
    }

    /** encode_mcu_DC_refine, with the restart before it. */
    method EncodeMcu(blocks: seq<seq<int>>)
      requires Valid() && |membership| == |blocks| && forall i | 0 <= i < |blocks| :: |blocks[i]| == 64
      modifies enc.w, enc`lastDcVal, this`restartsToGo, this`nextRestartNum, this`mcus
      ensures Valid() && mcus == old(mcus) + [ItemsOf(membership, blocks)]
    {
      hide Groups, State, CountsDown, ItemsOf;
      ghost var m, g := ItemsOf(membership, blocks), Groups(mcus, interval);
      ghost var groups, last := g[..|g| - 1], g[|g| - 1];
      NextGroups(mcus, interval, m);
      mcus := mcus + [m];
      ghost var g' := Groups(mcus, interval);
      GroupsSplitLast(g);
      GroupsSplitLast(g');
      StartMcu(groups, last);
      if interval > 0 && |last| == interval {
        groups, last := g, [];
      }
      ContinueSegment(blocks, groups, last);
      CountMcu(|g| - 1, |g[|g| - 1]|);
    }
  }

  /** A refining pass over all MCUs.  Nothing can go wrong. */
  method WriteDcRefineScan(al: nat, w: BitWriter, membership: seq<nat>, mcus: seq<seq<seq<int>>>, interval: nat)
    requires w.Valid() && w.segment == []
    requires forall j | 0 <= j < |mcus| ::
        |mcus[j]| == |membership| && forall i | 0 <= i < |mcus[j]| :: |mcus[j][i]| == 64
    modifies w
    ensures w.out == old(w.done) + ScanBytes(RefineSegs(al, Groups(DcMcus(membership, mcus), interval)))
  {
    hide Groups, BitWriter.Valid, Tally, RefineSeg, RefineSegs, Marked, SegmentBytes, ScanBytes, CountsDown;
    var enc := new ProgDcEncoder(al, false, [], [], [], w);
    var pass := new DcRefinePass(enc, interval, membership);
    ghost var m := DcMcus(membership, mcus);
    assert m[..0] == [];
    for j := 0 to |mcus|
      invariant pass.Valid() && pass.mcus == m[..j]
    {
      pass.EncodeMcu(mcus[j]);
      assert m[..j + 1] == m[..j] + [m[j]];
    }
    assert m[..|mcus|] == m;
    ghost var g := Groups(m, interval);
    GroupsSplitLast(g);
    RefineSegsSnoc(al, g[..|g| - 1], g[|g| - 1]);
    w.FlushBits();
    LastSegment(RefineSegs(al, g[..|g| - 1]), RefineSeg(al, g[|g| - 1]));
    ghost var before, seg := Marked(RefineSegs(al, g[..|g| - 1])), SegmentBytes(RefineSeg(al, g[|g| - 1]));
    assert pass.start + before + seg == pass.start + (before + seg);
  }

  lemma LastSegment(segs: seq<BitSeq>, seg: BitSeq)
    ensures ScanBytes(segs + [seg]) == Marked(segs) + SegmentBytes(seg)
  {
    hide Marked, SegmentBytes;
    assert (segs + [seg])[..|segs|] == segs;
  }
}
