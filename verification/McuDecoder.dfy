/** The sequential decoder: MCUs of several blocks each, and the restart markers between segments. */
module McuDecoder {
  import opened Bits
  import opened Reading
  import opened Coef
  import opened Huffman
  import opened HuffTables
  import opened BitOutput
  import opened BitInput
  import opened HuffDecoding
  import opened AcScan
  import opened AcDecoder
  import opened Arrival
  import opened Segments
  import opened RestartMarkers
  import opened SeqScan
  import opened SeqMcu
  import opened SeqDecoder
  import opened Zigzag

  /** The derived tables match those that the components use. */
  ghost predicate DerivedD(ts: Tables, comps: seq<Comp>, dcTbls: seq<DDerived>, acTbls: seq<DDerived>)
  {
    |dcTbls| == 4 && |acTbls| == 4 && forall ci | 0 <= ci < |comps| :: DerivedDFor(ts, comps[ci], dcTbls, acTbls)
  }

  ghost predicate DerivedDFor(ts: Tables, c: Comp, dcTbls: seq<DDerived>, acTbls: seq<DDerived>)
    requires |dcTbls| == 4 && |acTbls| == 4
  {
    && UsableFor(ts, c) && ts.dc[c.dcTbl].SymbolsAtMost(15)
    && DMatches(ts.dc[c.dcTbl], dcTbls[c.dcTbl]) && DMatches(ts.ac[c.acTbl], acTbls[c.acTbl])
  }

  lemma DerivedDUsable(ts: Tables, comps: seq<Comp>, dcTbls: seq<DDerived>, acTbls: seq<DDerived>)
    requires DerivedD(ts, comps, dcTbls, acTbls)
    ensures Usable(ts, comps)
  {
    hide UsableFor, DMatches;
    forall ci | 0 <= ci < |comps|
      ensures UsableFor(ts, comps[ci])
    {
      assert DerivedDFor(ts, comps[ci], dcTbls, acTbls);
    }
  }

  lemma DerivedDAt(ts: Tables, comps: seq<Comp>, dcTbls: seq<DDerived>, acTbls: seq<DDerived>, ci: nat)
    requires DerivedD(ts, comps, dcTbls, acTbls) && ci < |comps|
    ensures |dcTbls| == 4 && |acTbls| == 4 && DerivedDFor(ts, comps[ci], dcTbls, acTbls)
  {
  }

  /** The areas the blocks of an MCU are decoded into. */
  predicate Areas(blocks: seq<array<int>>)
  {
    && (forall i | 0 <= i < |blocks| :: blocks[i].Length == 64)
    && forall i, j | 0 <= i < j < |blocks| :: blocks[i] != blocks[j]
  }

  function Contents(blocks: seq<array<int>>): (ds: seq<Block>)
    requires Areas(blocks)
    reads blocks
    ensures |ds| == |blocks|
  {
    seq(|blocks|, i requires 0 <= i < |blocks| reads blocks => ZigzagOf(blocks[i][..]))
  }

  /** Area `j` holds block `d`. */
  ghost predicate AreaHolds(area: array<int>, d: Block)
    reads area
  {
    area.Length == 64 && ZigzagOf(area[..]) == d
  }

  lemma AreasHold(blocks: seq<array<int>>)
    requires Areas(blocks)
    ensures forall j | 0 <= j < |blocks| :: AreaHolds(blocks[j], Contents(blocks)[j])
  {
    hide ZigzagOf;
  }

  /** Changing one area. */
  lemma OneArea(blocks: seq<array<int>>, ds: seq<Block>, i: nat)
    requires Areas(blocks) && i < |blocks| == |ds|
    requires forall j | 0 <= j < |blocks| && j != i :: AreaHolds(blocks[j], ds[j])
    ensures Contents(blocks) == ds[i := ZigzagOf(blocks[i][..])]
  {
    hide ZigzagOf;
    var a, b := Contents(blocks), ds[i := ZigzagOf(blocks[i][..])];
    forall j | 0 <= j < |blocks|
      ensures a[j] == b[j]
    {
      assert j != i ==> AreaHolds(blocks[j], ds[j]);
    }
  }

  // ---------------------------------------------------------------- the blocks of an MCU

  /** What an MCU is decoded from. */
  datatype Job = Job(ts: Tables, comps: seq<Comp>, mem: seq<nat>, ds: seq<Block>, last: seq<int>, a: BitSeq) {
    predicate Ok() {
      Usable(ts, comps) && MembersOk(mem, |comps|) && |last| == |comps| && |ds| == |mem|
    }

    function Outcome(ext: BitSeq): Read<(seq<Block>, seq<int>)>
      requires Ok()
    {
      DecodeBlocks(ts, comps, mem, ds, last, 0, a + ext)
    }
  }

  /** The job has come to block `i` with the areas `ds` and the bits `b`. */
  ghost predicate McuMidway(job: Job, zeros: nat, ds: seq<Block>, last: seq<int>, i: nat, b: BitSeq)
  {
    && job.Ok() && |ds| == |job.mem| && |last| == |job.comps| && i <= |job.mem| && ds[i..] == job.ds[i..]
    && forall ext: BitSeq :: McuSame(job, zeros, ds, last, i, b, ext)
  }

  ghost predicate McuSame(job: Job, zeros: nat, ds: seq<Block>, last: seq<int>, i: nat, b: BitSeq, ext: BitSeq)
    requires job.Ok() && |ds| == |job.mem| && |last| == |job.comps| && i <= |job.mem|
  {
    job.Outcome(ToBits(0, zeros) + ext) == DecodeBlocks(job.ts, job.comps, job.mem, ds, last, i, b + ext)
  }

  ghost predicate McuHonest(br: BitReader, job: Job, zeros: nat, warned: bool)
    reads br
  {
    job.Ok() && if zeros == 0 then br.insufficient == warned
        else br.insufficient && br.unreadMarker != 0 && job.Outcome([]) == More
  }

  ghost predicate McuGoing(br: BitReader, job: Job, zeros: nat, warned: bool, ds: seq<Block>, last: seq<int>, i: nat)
    reads br
  {
    br.Valid() && McuMidway(job, zeros, ds, last, i, br.Avail()) && McuHonest(br, job, zeros, warned)
  }

  lemma McuStarts(br: BitReader, job: Job)
    requires br.Valid() && job.Ok() && job.a == br.Avail()
    ensures McuGoing(br, job, 0, br.insufficient, job.ds, job.last, 0)
  {
    hide Usable, DecodeBlocks, ToRead;
    forall ext: BitSeq
      ensures McuSame(job, 0, job.ds, job.last, 0, job.a, ext)
    {
      assert ToBits(0, 0) + ext == ext;
    }
  }

  lemma McuNow(job: Job, zeros: nat, ds: seq<Block>, last: seq<int>, i: nat, b: BitSeq)
    requires McuMidway(job, zeros, ds, last, i, b)
    ensures job.Outcome(ToBits(0, zeros)) == DecodeBlocks(job.ts, job.comps, job.mem, ds, last, i, b)
  {
    hide Usable, DecodeBlocks, Job.Outcome, ToBits;
    assert McuSame(job, zeros, ds, last, i, b, []);
    assert ToBits(0, zeros) + [] == ToBits(0, zeros) && b + [] == b;
  }

  lemma NoZeroBits()
    ensures ToBits(0, 0) == []
  {
  }

  /** One more block is done. */
  lemma McuMoves(br: BitReader, job: Job, zeros: nat, warned: bool, ds: seq<Block>, last: seq<int>, i: nat,
        b: BitSeq, more: nat, z: Block)
    requires br.Valid() && McuMidway(job, zeros, ds, last, i, b) && i < |job.mem|
    requires DecodeNext(job.ts, job.comps, job.mem[i], last[job.mem[i]], ds[i], b + ToBits(0, more))
        == Got(z, br.Avail())
    ensures McuMidway(job, zeros + more, ds[i := z], last[job.mem[i] := z[0]], i + 1, br.Avail())
    ensures zeros == 0 && DecodeNext(job.ts, job.comps, job.mem[i], last[job.mem[i]], ds[i], b) == More ==>
        job.Outcome([]) == More
  {
    hide Usable, DecodeNext, Job.Outcome, ToBits, ToRead;
    var ci := job.mem[i];
    var last', ds', n, i', b' := last[ci := z[0]], ds[i := z], zeros + more, i + 1, br.Avail();
    forall ext: BitSeq
      ensures McuSame(job, n, ds', last', i', b', ext)
    {
      assert McuSame(job, zeros, ds, last, i, b, ToBits(0, more) + ext);
      ToBitsConcat(0, 0, zeros, more);
      assert ToBits(0, zeros) + (ToBits(0, more) + ext) == ToBits(0, zeros + more) + ext;
      assert b + (ToBits(0, more) + ext) == (b + ToBits(0, more)) + ext;
      NextBlockExtends(job.ts, job.comps, ci, last[ci], ds[i], b + ToBits(0, more), ext);
    }
    assert ds'[i + 1..] == ds[i..][1..] == job.ds[i + 1..];
    McuNow(job, zeros, ds, last, i, b);
    NoZeroBits();
  }

  /** Areas with which the same bits will give the same outcome. */
  ghost predicate AreasAsGood(job: Job, ds: seq<Block>)
  {
    job.Ok() && |ds| == |job.mem| && forall ext: BitSeq :: AsGoodWith(job, ds, ext)
  }

  ghost predicate AsGoodWith(job: Job, ds: seq<Block>, ext: BitSeq)
    requires job.Ok() && |ds| == |job.mem|
  {
    job.(ds := ds).Outcome(ext) == job.Outcome(ext)
  }

  /** What block `i` stands for when it has been given up. */
  ghost predicate NextPart(job: Job, ci: nat, last: int, d: Block, b: BitSeq, d': Block)
  {
    Usable(job.ts, job.comps) && ci < |job.comps| && forall ext: BitSeq :: NextPartWith(job, ci, last, d, b, d', ext)
  }

  ghost predicate NextPartWith(job: Job, ci: nat, last: int, d: Block, b: BitSeq, d': Block, ext: BitSeq)
    requires Usable(job.ts, job.comps) && ci < |job.comps|
  {
    DecodeNext(job.ts, job.comps, ci, last, d, b + ext).Got? ==>
        Between(d, d', DecodeNext(job.ts, job.comps, ci, last, d, b + ext).value)
  }

  lemma GivenUpWith(job: Job, ds: seq<Block>, last: seq<int>, i: nat, b: BitSeq, d': Block, ext: BitSeq)
    requires McuMidway(job, 0, ds, last, i, b) && i < |job.mem|
        && NextPart(job, job.mem[i], last[job.mem[i]], ds[i], b, d')
    requires job.Outcome(ext).Got?
    ensures |job.Outcome(ext).value.0| == |job.mem| && AllBetween(job.ds, ds[i := d'], job.Outcome(ext).value.0)
  {
    hide Usable, DecodeNext, Job.Outcome, ToBits, Between;
    var ci := job.mem[i];
    NoZeroBits();
    assert [] + ext == ext;
    assert McuSame(job, 0, ds, last, i, b, ext);
    assert NextPartWith(job, ci, last[ci], ds[i], b, d', ext);
    var y := DecodeNext(job.ts, job.comps, ci, last[ci], ds[i], b + ext);
    BlocksKeep(job.ts, job.comps, job.mem, ds[i := y.value], last[ci := y.value[0]], i + 1, y.rest);
    var zs := job.Outcome(ext).value.0;
    forall j | 0 <= j < |job.mem|
      ensures Between(job.ds[j], ds[i := d'][j], zs[j])
    {
      if j <= i {
        assert zs[j] == zs[..i + 1][j] == ds[i := y.value][..i + 1][j];
      }
      if j >= i {
        assert job.ds[j] == job.ds[i..][j - i] == ds[i..][j - i];
      }
      SideBetween(job.ds[j], zs[j]);
    }
  }

  lemma SideBetween(d: Block, z: Block)
    ensures Between(d, d, z) && Between(d, z, z)
  {
  }

  lemma McuGivenUp(job: Job, ds: seq<Block>, last: seq<int>, i: nat, b: BitSeq, d': Block)
    requires McuMidway(job, 0, ds, last, i, b) && i < |job.mem|
        && NextPart(job, job.mem[i], last[job.mem[i]], ds[i], b, d')
    ensures AreasAsGood(job, ds[i := d'])
  {
    hide Usable, DecodeBlocks, ToBits, Between, NextPart, McuMidway;
    MidwayParts(job, 0, ds, last, i, b);
    var ds' := ds[i := d'];
    forall ext: BitSeq
      ensures AsGoodWith(job, ds', ext)
    {
      BlocksMore(job.ts, job.comps, job.mem, job.ds, ds', job.last, 0, job.a + ext);
      if job.Outcome(ext).Got? {
        GivenUpWith(job, ds, last, i, b, d', ext);
        BlocksBetween(job.ts, job.comps, job.mem, job.ds, ds', job.last, 0, job.a + ext);
      }
    }
  }

  lemma MidwayParts(job: Job, zeros: nat, ds: seq<Block>, last: seq<int>, i: nat, b: BitSeq)
    requires McuMidway(job, zeros, ds, last, i, b)
    ensures job.Ok() && |ds| == |job.mem| && |last| == |job.comps| && i <= |job.mem|
    ensures i < |job.mem| ==> job.mem[i] < |job.comps|
  {
  }

  /** The next block of the MCU. */
  method DecodeBlockAt(br: BitReader, dcTbls: seq<DDerived>, acTbls: seq<DDerived>, ts: Tables, comps: seq<Comp>,
        ci: nat, block: array<int>, lastDcVal: int, ghost job: Job)
    returns (ok: bool, s: int, ghost zeros: nat)
    requires br.Valid() && block.Length == 64 && DerivedD(ts, comps, dcTbls, acTbls) && ci < |comps| && job.ts == ts
        && job.comps == comps && Usable(ts, comps)
    modifies br, block
    ensures br.Valid() && br.data == old(br.data)
    ensures br.Follows(old(br.pos), old(br.unreadMarker), old(br.insufficient))
    ensures ok ==>
        DecodeNext(ts, comps, ci, lastDcVal, ZigzagOf(old(block[..])), old(br.Avail()) + ToBits(0, zeros))
            == Got(ZigzagOf(block[..]), br.Avail())
    ensures ok ==> s == ZigzagOf(block[..])[0]
    ensures ok && zeros == 0 ==> br.insufficient == old(br.insufficient)
    ensures ok && zeros > 0 ==>
        br.insufficient && br.unreadMarker != 0
            && DecodeNext(ts, comps, ci, lastDcVal, ZigzagOf(old(block[..])), old(br.Avail())) == More
    ensures !ok ==> Dry(br.data, br.pos, br.unreadMarker)
    ensures !ok ==> NextPart(job, ci, lastDcVal, ZigzagOf(old(block[..])), old(br.Avail()), ZigzagOf(block[..]))
  {
    hide DMatches, ToRead, HuffTable.Shaped, HuffTable.ValidCounts, HuffTable.SymbolsAtMost, ToBits, Dry,
        DecodeBlockSeq, ZigzagOf, DerivedD, Usable, Between;
    DerivedDAt(ts, comps, dcTbls, acTbls, ci);
    var c := comps[ci];
    ok, s, zeros := DecodeOneBlock(br, ts.dc[c.dcTbl], dcTbls[c.dcTbl], ts.ac[c.acTbl], acTbls[c.acTbl],
        block, lastDcVal);
    if !ok {
      PartOfNext(job, ci, lastDcVal, ZigzagOf(old(block[..])), old(br.Avail()), ZigzagOf(block[..]));
    }
  }

  lemma PartOfNext(job: Job, ci: nat, last: int, d: Block, b: BitSeq, d': Block)
    requires Usable(job.ts, job.comps) && ci < |job.comps| && UsableFor(job.ts, job.comps[ci])
    requires BlockPart(job.ts.dc[job.comps[ci].dcTbl], job.ts.ac[job.comps[ci].acTbl], last, d, b, d')
    ensures NextPart(job, ci, last, d, b, d')
  {
    hide DecodeBlockSeq, Usable, Between, HuffTable.Shaped, HuffTable.ValidCounts;
    forall ext: BitSeq
      ensures NextPartWith(job, ci, last, d, b, d', ext)
    {
      assert BlockPartWith(job.ts.dc[job.comps[ci].dcTbl], job.ts.ac[job.comps[ci].acTbl], last, d, b, d', ext);
    }
  }

  // ---------------------------------------------------------------- the decoder

  /** The tables, the source and the restart state of one scan. */
  class HuffDecoder {
    const br: BitReader
    const ts: Tables
    const dcTbls: seq<DDerived>
    const acTbls: seq<DDerived>
    const comps: seq<Comp>
    const mem: seq<nat>
    const interval: nat
    const mr: MarkerReader
    var lastDc: seq<int>
    var restartsToGo: nat

    /** The parts that never change. */
    ghost predicate SetUp()
    {
      DerivedD(ts, comps, dcTbls, acTbls) && Usable(ts, comps) && MembersOk(mem, |comps|)
    }

    ghost predicate Valid()
      reads this, br, mr
    {
      br.Valid() && mr.br == br && mr.Valid() && SetUp() && |lastDc| == |comps|
    }

    /** start_pass_huff_decoder. */
    constructor (br: BitReader, mr: MarkerReader, ts: Tables, dcTbls: seq<DDerived>, acTbls: seq<DDerived>,
          comps: seq<Comp>, mem: seq<nat>, interval: nat)
      requires mr.Valid() && mr.br == br && DerivedD(ts, comps, dcTbls, acTbls) && MembersOk(mem, |comps|)
      ensures Valid() && this.br == br && this.mr == mr && this.ts == ts && this.comps == comps && this.mem == mem
          && this.interval == interval
      ensures lastDc == NoDc(|comps|) && restartsToGo == interval
    {
      hide DerivedD, Usable, BitReader.Valid;
      DerivedDUsable(ts, comps, dcTbls, acTbls);
      this.br, this.mr, this.ts, this.dcTbls, this.acTbls, this.comps, this.mem, this.interval := br, mr, ts,
          dcTbls, acTbls, comps, mem, interval;
      lastDc, restartsToGo := NoDc(|comps|), interval;
    }

    /** What decoding the blocks of an MCU means here. */
    ghost function JobOf(ds: seq<Block>): Job
      requires br.Valid()
      reads this`lastDc, br
    {
      Job(ts, comps, mem, ds, lastDc, br.Avail())
    }

    lemma JobOk(ds: seq<Block>)
      requires Valid() && |ds| == |mem|
      ensures JobOf(ds).Ok()
    {
      hide DerivedD, Usable;
    }

    /** The block in area `i`. */
    method DecodeArea(blocks: seq<array<int>>, i: nat, lastDcVal: int, ghost job: Job, ghost ds: seq<Block>)
      returns (ok: bool, s: int, ghost zeros: nat, ghost z: Block)
      requires br.Valid() && SetUp() && Areas(blocks) && |blocks| == |mem| && i < |mem| && job.ts == ts
          && job.comps == comps
      requires ds == Contents(blocks)
      modifies br, blocks[i]
      ensures br.Valid() && br.data == old(br.data)
      ensures br.Follows(old(br.pos), old(br.unreadMarker), old(br.insufficient))
      ensures Contents(blocks) == ds[i := z]
      ensures ok ==>
          DecodeNext(ts, comps, mem[i], lastDcVal, ds[i], old(br.Avail()) + ToBits(0, zeros)) == Got(z, br.Avail())
      ensures ok ==> s == z[0]
      ensures ok && zeros == 0 ==> br.insufficient == old(br.insufficient)
      ensures ok && zeros > 0 ==>
          br.insufficient && br.unreadMarker != 0
              && DecodeNext(ts, comps, mem[i], lastDcVal, ds[i], old(br.Avail())) == More
      ensures !ok ==> Dry(br.data, br.pos, br.unreadMarker)
      ensures !ok ==> NextPart(job, mem[i], lastDcVal, ds[i], old(br.Avail()), z)
    {
      hide DerivedD, Usable, ToRead, Dry, ZigzagOf, DecodeNext, ToBits, Contents, NextPart, Areas, AreaHolds;
      ContentsAt(blocks, i);
      AreasHold(blocks);
      var block := blocks[i];
      ok, s, zeros := DecodeBlockAt(br, dcTbls, acTbls, ts, comps, mem[i], block, lastDcVal, job);
      z := ZigzagOf(block[..]);
      forall j | 0 <= j < |blocks| && j != i
        ensures AreaHolds(blocks[j], ds[j])
      {
        Distinct(blocks, i, j);
      }
      OneArea(blocks, ds, i);
    }

    method NextBlock(blocks: seq<array<int>>, blkn: nat, last: seq<int>, ghost job: Job, ghost zeros: nat,
          ghost warned: bool)
      returns (ok: bool, last': seq<int>, ghost zeros': nat)
      requires SetUp() && Areas(blocks) && |blocks| == |mem| && blkn < |mem| && job.ts == ts && job.comps == comps
          && job.mem == mem
      requires McuGoing(br, job, zeros, warned, Contents(blocks), last, blkn) && |last| == |comps|
      modifies br, blocks[blkn]
      ensures br.Valid() && br.data == old(br.data) && |last'| == |comps|
      ensures br.Follows(old(br.pos), old(br.unreadMarker), old(br.insufficient))
      ensures ok ==> McuGoing(br, job, zeros', warned, Contents(blocks), last', blkn + 1)
      ensures !ok ==> Dry(br.data, br.pos, br.unreadMarker) && AreasAsGood(job, Contents(blocks))
    {
      hide DerivedD, Usable, Areas, ToRead, Dry, ZigzagOf, DecodeNext, ToBits, Contents, McuMidway, NextPart,
          AreasAsGood, Job.Outcome, BitReader.Valid;
      last' := last;
      ghost var b, ds := br.Avail(), Contents(blocks);
      MidwayParts(job, zeros, ds, last, blkn, b);
      var ci := mem[blkn];
      var s: int;
      ghost var more;
      ghost var z;
      ok, s, more, z := DecodeArea(blocks, blkn, last[ci], job, ds);
      zeros' := zeros + more;
      if ok {
        McuMoves(br, job, zeros, warned, ds, last, blkn, b, more, z);
        last' := last[ci := s];
      } else {
        assert zeros == 0 by { DryMarker(br.data, br.pos, br.unreadMarker); }
        McuGivenUp(job, ds, last, blkn, b, z);
      }
    }

    lemma Distinct(blocks: seq<array<int>>, i: nat, j: nat)
      requires Areas(blocks) && i < |blocks| && j < |blocks| && i != j
      ensures blocks[i] != blocks[j]
    {
    }

    lemma ContentsAt(blocks: seq<array<int>>, i: nat)
      requires Areas(blocks) && i < |blocks|
      ensures blocks[i].Length == 64 && Contents(blocks)[i] == ZigzagOf(blocks[i][..])
    {
      hide ZigzagOf;
    }

    /** The blocks of one MCU, decoded into areas zeroed by the caller.  An attempt that has to wait for data
        changes nothing but the areas, and that does no harm. */
    method DecodeAll(blocks: seq<array<int>>) returns (ok: bool, ghost zeros: nat)
      requires Valid() && Areas(blocks) && |blocks| == |mem|
      modifies br, blocks, this`lastDc
      ensures Valid() && br.data == old(br.data)
      ensures br.Follows(old(br.pos), old(br.unreadMarker), old(br.insufficient))
      ensures old(JobOf(Contents(blocks))).Ok()
      ensures ok ==>
          old(JobOf(Contents(blocks))).Outcome(ToBits(0, zeros)) == Got((Contents(blocks), lastDc), br.Avail())
      ensures ok && zeros == 0 ==> br.insufficient == old(br.insufficient)
      ensures ok && zeros > 0 ==>
          br.insufficient && br.unreadMarker != 0 && old(JobOf(Contents(blocks))).Outcome([]) == More
      ensures !ok ==>
          br.Stuck(old(br.data), old(br.pos), old(br.getBuffer), old(br.bitsLeft), old(br.unreadMarker),
              old(br.insufficient))
      ensures !ok ==> lastDc == old(lastDc) && br.Avail() == old(br.Avail())
                      && AreasAsGood(old(JobOf(Contents(blocks))), Contents(blocks))
    {
      hide DerivedD, Usable, ToRead, Dry, ToBits, Contents, McuGoing, AreasAsGood, Job.Outcome;
      var pos, getBuffer, bitsLeft := br.pos, br.getBuffer, br.bitsLeft;
      ghost var job, warned := JobOf(Contents(blocks)), br.insufficient;
      JobOk(Contents(blocks));
      McuStarts(br, job);
      var last := lastDc;
      zeros := 0;
      for blkn := 0 to |blocks|
        invariant br.Valid() && br.data == old(br.data) && |last| == |comps|
        invariant br.Follows(old(br.pos), old(br.unreadMarker), old(br.insufficient))
        invariant McuGoing(br, job, zeros, warned, Contents(blocks), last, blkn)
        invariant lastDc == old(lastDc)
      {
        ok, last, zeros := NextBlock(blocks, blkn, last, job, zeros, warned);
        if !ok {
          br.WasDry(pos, old(br.unreadMarker), old(br.insufficient));
          assert br.unreadMarker == 0 by { DryMarker(br.data, br.pos, br.unreadMarker); }
          br.pos, br.getBuffer, br.bitsLeft := pos, getBuffer, bitsLeft;
          return;
        }
      }
      AllDone(br, job, zeros, warned, Contents(blocks), last);
      lastDc := last;
      ok := true;
    }

    predicate RestartDue()
      reads this`restartsToGo
    {
      interval != 0 && restartsToGo == 0
    }

    ghost function EntryIn(all: seq<Byte>): Entry
      requires br.pos <= |all|
      reads this, br, mr
    {
      if RestartDue() then
        match Ahead(all, br.pos, br.unreadMarker)
        case Marker(m, q) =>
          if m == RST0 + mr.nextRestartNum && q <= |all| then
            Ready(Unpack(RestBytes(all, q)), RestEnd(all, q), NoDc(|comps|), false, interval,
                (mr.nextRestartNum + 1) % 8)
          else Lost
        case Data(_, _) => Waiting
        case Empty(_) => Waiting
      else
        Ready(ToRead(all, br.pos, br.getBuffer, br.bitsLeft, br.unreadMarker), Ahead(all, br.pos, br.unreadMarker),
            lastDc, br.insufficient, restartsToGo, mr.nextRestartNum)
    }

    /** Nothing has been skipped between segments. */
    ghost predicate Clean()
      reads mr
    {
      mr.discarded == 0 && !mr.extraneous
    }

    /** The bits in front of the next marker, all data considered. */
    ghost function Left(all: seq<Byte>): BitSeq
      requires br.pos <= |all|
      reads br
    {
      ToRead(all, br.pos, br.getBuffer, br.bitsLeft, br.unreadMarker)
    }

    /** process_restart: whatever data are still to come, the MCU to come stays the same. */
    method ProcessRestart(ghost more: seq<Byte>) returns (r: Outcome)
      requires Valid() && RestartDue()
      modifies this, br, mr
      ensures Valid() && br.data == old(br.data)
      ensures r == Done ==> !RestartDue() && EntryIn(br.data + more) == old(EntryIn(br.data + more))
      ensures r == Suspended ==>
          EntryIn(br.data + more) == old(EntryIn(br.data + more)) && Ahead(br.data, br.pos, br.unreadMarker).Empty?
      ensures r == Mismatch ==> old(EntryIn(br.data + more)) == Lost
      ensures old(Clean()) && |old(Left(br.data + more))| < 8 ==> Clean()
      ensures r == Suspended && |old(Left(br.data + more))| < 8 ==> |Left(br.data + more)| < 8
    {
      hide DerivedD, Usable, ToRead, RestBytes, Unpack, RestEnd, Stuff, Skipped, LaterBits;
      ghost var all := br.data + more;
      ghost var pos, buffer, bits, marker := br.pos, br.getBuffer, br.bitsLeft, br.unreadMarker;
      ToReadArrives(br.data, more, pos, buffer, bits, marker);
      FewLeft(br.data, more, pos, buffer, bits, marker);
      mr.discarded := mr.discarded + br.bitsLeft / 8;
      br.bitsLeft := 0;
      r := mr.ReadRestartMarker();
      if r != Done {
        if r == Suspended {
          StillWaiting(br.data, more, pos, buffer, bits);
        }
        return;
      }
      lastDc := seq(|comps|, _ => 0);
      restartsToGo := interval;
      if br.unreadMarker == 0 {
        br.insufficient := false;
      }
      FreshRead(all, br.pos, br.getBuffer);
    }

    /** Decoding at an entry. */
    function JobAt(e: Entry, ds: seq<Block>): Job
      requires e.Ready?
    {
      Job(ts, comps, mem, ds, e.last, e.bits)
    }

    /** The MCU is decoded; `zeros` bits had to be made up. */
    ghost predicate Decoded(e: Entry, ds: seq<Block>, zeros: nat, ds': seq<Block>, rest: BitSeq)
      requires e.Ready?
      reads this`lastDc, br`insufficient
    {
      && JobAt(e, ds).Ok() && JobAt(e, ds).Outcome(ToBits(0, zeros)) == Got((ds', lastDc), rest)
      && if zeros == 0 then !br.insufficient else br.insufficient && JobAt(e, ds).Outcome([]) == More
    }

    /** The areas have been left such that the MCU is decoded in the same way. */
    ghost predicate Undecoded(e: Entry, ds: seq<Block>, ds': seq<Block>)
      requires e.Ready?
    {
      && JobAt(e, ds).Ok() && JobAt(e, ds').Ok() && JobAt(e, ds').Outcome([]) == JobAt(e, ds).Outcome([])
    }

    /** decode_mcu without the restart. */
    method DecodeEntered(blocks: seq<array<int>>, ghost more: seq<Byte>) returns (ok: bool, ghost zeros: nat)
      requires Valid() && Areas(blocks) && |blocks| == |mem| && !RestartDue() && !br.insufficient
      modifies br, blocks, this`lastDc
      ensures Valid() && br.data == old(br.data) && old(EntryIn(br.data + more)).Ready?
      ensures ok ==>
          Decoded(old(EntryIn(br.data + more)), old(Contents(blocks)), zeros, Contents(blocks), Left(br.data + more))
      ensures ok ==> Ahead(br.data + more, br.pos, br.unreadMarker) == old(EntryIn(br.data + more)).ahead
      ensures !ok ==> Undecoded(old(EntryIn(br.data + more)), old(Contents(blocks)), Contents(blocks))
      ensures !ok ==>
          EntryIn(br.data + more) == old(EntryIn(br.data + more)) && Left(br.data + more) == old(Left(br.data + more))
      ensures !ok ==> Ahead(br.data, br.pos, br.unreadMarker).Empty?
    {
      hide DerivedD, Usable, Areas, ToRead, RestBytes, Unpack, RestEnd, LaterBits, LaterEnd, ToBits, Contents,
          Job.Outcome, Job.Ok, Ahead;
      ghost var all, ds := br.data + more, Contents(blocks);
      ToReadArrives(br.data, more, br.pos, br.getBuffer, br.bitsLeft, br.unreadMarker);
      ghost var later := LaterBits(all, Ahead(br.data, br.pos, br.unreadMarker));
      ghost var job, e := JobOf(ds), EntryIn(all);
      ok, zeros := DecodeAll(blocks);
      ToReadArrives(br.data, more, br.pos, br.getBuffer, br.bitsLeft, br.unreadMarker);
      if ok {
        if br.unreadMarker != 0 {
          NothingLater(br.data, all, br.pos, br.unreadMarker);
        }
        OutcomeWithLater(job, zeros, later, (Contents(blocks), lastDc), br.Avail());
      } else {
        SameWithLater(job, Contents(blocks), later);
        DryIsEmpty(br.data, br.pos, br.unreadMarker);
      }
    }

    /** decode_mcu.  `more` are data still to come, whatever they are. */
    method DecodeMcu(blocks: seq<array<int>>, ghost more: seq<Byte>) returns (r: Outcome, ghost zeros: nat)
      requires Valid() && Areas(blocks) && |blocks| == |mem|
      modifies this, br, mr, blocks
      ensures Valid() && br.data == old(br.data)
      ensures r == Mismatch ==> old(EntryIn(br.data + more)) == Lost
      ensures r == Done ==> Advanced(old(EntryIn(br.data + more)), Ahead(br.data + more, br.pos, br.unreadMarker))
      ensures r == Done && old(EntryIn(br.data + more)).insufficient ==>
          br.insufficient && Contents(blocks) == old(Contents(blocks))
      ensures r == Done && !old(EntryIn(br.data + more)).insufficient ==>
        Decoded(old(EntryIn(br.data + more)), old(Contents(blocks)), zeros, Contents(blocks), Left(br.data + more))
      ensures r == Suspended ==>
          EntryIn(br.data + more) == old(EntryIn(br.data + more)) && Ahead(br.data, br.pos, br.unreadMarker).Empty?
      ensures r == Suspended && EntryIn(br.data + more).Ready? ==>
          Undecoded(EntryIn(br.data + more), old(Contents(blocks)), Contents(blocks))
      ensures old(Clean() && (RestartDue() ==> |Left(br.data + more)| < 8)) ==> Clean()
      ensures r == Suspended && old(RestartDue() ==> |Left(br.data + more)| < 8) ==>
          RestartDue() ==> |Left(br.data + more)| < 8
    {
      hide DerivedD, Usable, Areas, ToRead, RestBytes, Unpack, RestEnd, ToBits, Contents, Job.Outcome, Job.Ok,
          Ahead, Undecoded;
      ghost var e, ds := EntryIn(br.data + more), Contents(blocks);
      if e.Ready? {
        NothingDecoded(e, ds);
      }
      r, zeros := Done, 0;
      if RestartDue() {
        r := ProcessRestart(more);
        if r != Done {
          return;
        }
      }
      if !br.insufficient {
        var ok;
        ok, zeros := DecodeEntered(blocks, more);
        if !ok {
          return Suspended, 0;
        }
      }
      restartsToGo := OneLess(restartsToGo);
    }

    lemma NothingDecoded(e: Entry, ds: seq<Block>)
      requires Valid() && |ds| == |mem| && e.Ready? && |e.last| == |comps|
      ensures Undecoded(e, ds, ds)
    {
      hide DerivedD, Usable, Job.Outcome;
    }

    /** The counters and the end of the data after an MCU. */
    predicate Advanced(e: Entry, ahead: Next)
      reads this`restartsToGo, mr`nextRestartNum
    {
      e.Ready? && restartsToGo == OneLess(e.toGo) && mr.nextRestartNum == e.num && ahead == e.ahead
    }
  }

  /** Decrementing an unsigned counter. */
  function OneLess(n: nat): nat { if n == 0 then 0xFFFF_FFFF else n - 1 }

  lemma DryIsEmpty(data: seq<Byte>, pos: nat, marker: Byte)
    requires Dry(data, pos, marker)
    ensures Ahead(data, pos, marker).Empty?
  {
  }

  lemma NothingLater(data: seq<Byte>, all: seq<Byte>, pos: nat, marker: Byte)
    requires pos <= |data| <= |all| && marker != 0
    ensures LaterBits(all, Ahead(data, pos, marker)) == []
  {
  }

  /** More bits behind those that were needed. */
  lemma OutcomeWithLater(job: Job, zeros: nat, later: BitSeq, v: (seq<Block>, seq<int>), rest: BitSeq)
    requires job.Ok() && job.Outcome(ToBits(0, zeros)) == Got(v, rest) && (zeros > 0 ==> later == [])
    ensures job.(a := job.a + later).Ok() && job.(a := job.a + later).Outcome(ToBits(0, zeros)) == Got(v, rest + later)
    ensures zeros > 0 ==> job.(a := job.a + later).Outcome([]) == job.Outcome([])
  {
    hide Usable, DecodeBlocks, MembersOk;
    if zeros > 0 {
      assert job.a + later == job.a && rest + later == rest;
    } else {
      NoZeroBits();
      assert job.a + [] == job.a && (job.a + later) + [] == job.a + later;
      BlocksExtend(job.ts, job.comps, job.mem, job.ds, job.last, 0, job.a, later);
    }
  }

  lemma SameWithLater(job: Job, ds: seq<Block>, later: BitSeq)
    requires job.Ok() && AreasAsGood(job, ds)
    ensures job.(a := job.a + later).Ok() && job.(ds := ds, a := job.a + later).Ok()
    ensures job.(ds := ds, a := job.a + later).Outcome([]) == job.(a := job.a + later).Outcome([])
  {
    hide Usable, DecodeBlocks, MembersOk;
    assert AsGoodWith(job, ds, later);
    assert (job.a + later) + [] == job.a + later;
  }

  /** Going on where the data ended. */
  lemma {:induction false} EndAgain(data: seq<Byte>, pos: nat)
    requires pos <= |data| && RestEnd(data, pos).Empty?
    ensures RestEnd(data, RestEnd(data, pos).pos) == RestEnd(data, pos)
    decreases |data| - pos
  {
    hide NextByte;
    var n := NextByte(data, pos);
    if n.Data? {
      EndAgain(data, n.pos);
    }
  }

  lemma StillWaiting(data: seq<Byte>, more: seq<Byte>, pos: nat, buffer: int, bits: nat)
    requires pos <= |data| && RestEnd(data, pos).Empty?
    ensures var q := RestEnd(data, pos).pos;
      && RestEnd(data, q).Empty? && RestEnd(data + more, q) == RestEnd(data + more, pos)
      && |ToRead(data + more, q, buffer, 0, 0)| <= |ToRead(data + more, pos, buffer, bits, 0)|
  {
    hide RestBytes, RestEnd;
    EndAgain(data, pos);
    RestArrives(data, more, pos);
  }

  lemma FreshRead(data: seq<Byte>, pos: nat, buffer: int)
    requires pos <= |data|
    ensures ToRead(data, pos, buffer, 0, 0) == Unpack(RestBytes(data, pos))
  {
    hide RestBytes, Unpack;
    assert ToBits(buffer, 0) == [];
  }

  /** With less than a byte left before the marker, there is nothing to skip. */
  lemma FewLeft(data: seq<Byte>, more: seq<Byte>, pos: nat, buffer: int, bits: nat, marker: Byte)
    requires pos <= |data|
    ensures |ToRead(data + more, pos, buffer, bits, marker)| < 8 ==>
        bits < 8 && (marker == 0 ==> Skipped(data, pos) == 0)
  {
    hide RestBytes, RestEnd;
    if marker == 0 && |ToRead(data + more, pos, buffer, bits, marker)| < 8 {
      RestArrives(data, more, pos);
      assert RestBytes(data + more, pos) == [];
      assert Stuff([]) == [];
    }
  }

  /** Where the next MCU starts, all data considered: unless a restart marker has to come first and does not,
      its bits, what comes after the last of them, the DC predictions, whether data have run out, and the
      restart counters. */
  datatype Entry = Lost | Waiting | Ready(bits: BitSeq, ahead: Next, last: seq<int>, insufficient: bool,
        toGo: nat, num: nat)

  lemma AllDone(br: BitReader, job: Job, zeros: nat, warned: bool, ds: seq<Block>, last: seq<int>)
    requires McuGoing(br, job, zeros, warned, ds, last, |job.mem|)
    ensures br.Valid() && job.Ok() && job.Outcome(ToBits(0, zeros)) == Got((ds, last), br.Avail())
    ensures if zeros == 0 then br.insufficient == warned
        else br.insufficient && br.unreadMarker != 0 && job.Outcome([]) == More
  {
    hide Usable, ToBits, Job.Outcome, McuMidway, ToRead, DecodeNext;
    McuNow(job, zeros, ds, last, |job.mem|, br.Avail());
    MidwayParts(job, zeros, ds, last, |job.mem|, br.Avail());
  }
}
