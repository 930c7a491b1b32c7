/** The decoder of a progressive DC scan, first or refining, with its restart markers. */
module DcScanDecoder {
  import opened Bits
  import opened Reading
  import opened Coef
  import opened Huffman
  import opened HuffTables
  import opened HuffDecoding
  import opened BitOutput
  import opened BitInput
  import opened DcScan
  import opened DcEncoder
  import opened DcDecoder
  import opened SeqMcu
  import opened Arrival
  import opened McuDecoder
  import opened RestartMarkers
  import opened Segments

  // ---------------------------------------------------------------- an MCU of either kind

  predicate DcOk(refine: bool, ts: seq<HuffTable>, mem: seq<nat>, last: seq<int>)
  {
    refine || (ValidTables(ts, |last|) && forall i | 0 <= i < |mem| :: mem[i] < |last|)
  }

  /** The DC values of an MCU, and the predictions after it. */
  function DcOutcome(refine: bool, al: nat, ts: seq<HuffTable>, mem: seq<nat>, last: seq<int>, ds: seq<int>,
        bs: BitSeq): Read<(seq<int>, seq<int>)>
    requires DcOk(refine, ts, mem, last)
  {
    if refine then
      var (vs, rest) :- DecodeRefine(al, ds, bs);
      Got((vs, last), rest)
    else
      var (r, rest) :- DecodeValues(ts, mem, last, bs);
      Got((Scaled(al, r.0), r.1), rest)
  }

  lemma {:induction false} ValuesExtend(ts: seq<HuffTable>, cis: seq<nat>, last: seq<int>, bs: BitSeq, ext: BitSeq)
    requires ValidTables(ts, |last|) && forall i | 0 <= i < |cis| :: cis[i] < |last|
    requires DecodeValues(ts, cis, last, bs).Got?
    ensures var r := DecodeValues(ts, cis, last, bs);
      DecodeValues(ts, cis, last, bs + ext) == Got(r.value, r.rest + ext)
    decreases |cis|
  {
    hide DecodeDiff, HuffTable.Shaped, HuffTable.ValidCounts;
    if cis != [] {
      var y := DecodeDiff(ts[cis[0]], bs);
      DiffExtends(ts[cis[0]], bs, ext);
      ValuesExtend(ts, cis[1..], last[cis[0] := y.value + last[cis[0]]], y.rest, ext);
    }
  }

  lemma RefineExtends(al: nat, ds: seq<int>, bs: BitSeq, ext: BitSeq)
    requires DecodeRefine(al, ds, bs).Got?
    ensures DecodeRefine(al, ds, bs + ext) == Got(DecodeRefine(al, ds, bs).value, DecodeRefine(al, ds, bs).rest + ext)
  {
    hide DecodeRefine, Refined;
    RefineIs(al, ds, bs);
    RefineIs(al, ds, bs + ext);
    RefinedMore(al, ds, bs, ext, |ds|);
  }

  lemma OutcomeExtends(refine: bool, al: nat, ts: seq<HuffTable>, mem: seq<nat>, last: seq<int>, ds: seq<int>,
        bs: BitSeq, ext: BitSeq)
    requires DcOk(refine, ts, mem, last) && DcOutcome(refine, al, ts, mem, last, ds, bs).Got?
    ensures var r := DcOutcome(refine, al, ts, mem, last, ds, bs);
      DcOutcome(refine, al, ts, mem, last, ds, bs + ext) == Got(r.value, r.rest + ext)
  {
    hide DecodeRefine, DecodeValues, Scaled, ValidTables;
    if refine {
      RefineExtends(al, ds, bs, ext);
    } else {
      ValuesExtend(ts, mem, last, bs, ext);
    }
  }

  /** More bits behind those that were needed. */
  lemma OutcomeLater(refine: bool, al: nat, ts: seq<HuffTable>, mem: seq<nat>, last: seq<int>, ds: seq<int>,
        a: BitSeq, zeros: nat, later: BitSeq, v: (seq<int>, seq<int>), rest: BitSeq)
    requires DcOk(refine, ts, mem, last) && (zeros > 0 ==> later == [])
    requires DcOutcome(refine, al, ts, mem, last, ds, a + ToBits(0, zeros)) == Got(v, rest)
    ensures DcOutcome(refine, al, ts, mem, last, ds, (a + later) + ToBits(0, zeros)) == Got(v, rest + later)
    ensures zeros > 0 ==> (a + later) + [] == a
  {
    hide DcOk, DcOutcome;
    if zeros > 0 {
      assert a + later == a && rest + later == rest;
    } else {
      DcDecoder.NoZeroBits();
      assert a + [] == a && (a + later) + [] == a + later;
      OutcomeExtends(refine, al, ts, mem, last, ds, a, later);
    }
  }

  /** Values that can stand for one another, in front of more bits. */
  lemma AsGoodLater(al: nat, ts: seq<HuffTable>, mem: seq<nat>, last: seq<int>, ds: seq<int>, ds': seq<int>,
        a: BitSeq, later: BitSeq)
    requires AsGood(al, ds, ds', a)
    ensures DcOutcome(true, al, ts, mem, last, ds', (a + later) + [])
        == DcOutcome(true, al, ts, mem, last, ds, (a + later) + [])
  {
    hide DecodeRefine;
    assert DcDecoder.AsGoodWith(al, ds, ds', a, later);
    assert (a + later) + [] == a + later;
  }

  // ---------------------------------------------------------------- the decoder

  /** Where the next MCU starts, all data considered: unless a restart marker has to come first and does not,
      its bits, what comes after the last of them, the predictions, whether data have run out, and the restart
      counters. */
  datatype DcEntry = NoEntry | NotYet | EntryAt(bits: BitSeq, ahead: Next, last: seq<int>, insufficient: bool,
        toGo: nat, num: nat)

  class ProgDcScanDecoder {
    const dc: ProgDcDecoder
    const mr: MarkerReader
    const interval: nat
    const mem: seq<nat>
    const refine: bool
    var restartsToGo: nat

    ghost predicate Valid()
      reads this, dc, dc.br, mr
    {
      dc.Valid() && mr.br == dc.br && mr.Valid() && (!refine ==> forall i | 0 <= i < |mem| :: mem[i] < |dc.ts|)
    }

    /** start_pass_phuff_decoder. */
    constructor (dc: ProgDcDecoder, mr: MarkerReader, interval: nat, mem: seq<nat>, refine: bool)
      requires dc.Valid() && mr.br == dc.br && mr.Valid()
      requires !refine ==> forall i | 0 <= i < |mem| :: mem[i] < |dc.ts|
      ensures Valid() && this.dc == dc && this.mr == mr && this.interval == interval && restartsToGo == interval
      ensures this.mem == mem && this.refine == refine
    {
      this.dc, this.mr, this.interval, this.mem, this.refine, restartsToGo := dc, mr, interval, mem, refine, interval;
    }

    predicate RestartDue()
      reads this`restartsToGo
    {
      interval != 0 && restartsToGo == 0
    }

    ghost function EntryIn(all: seq<Byte>): DcEntry
      requires dc.br.pos <= |all|
      reads this, dc, dc.br, mr
    {
      var br := dc.br;
      if RestartDue() then
        match Ahead(all, br.pos, br.unreadMarker)
        case Marker(m, q) =>
          if m == RST0 + mr.nextRestartNum && q <= |all| then
            EntryAt(Unpack(RestBytes(all, q)), RestEnd(all, q), NoPrediction(|dc.ts|), false, interval,
                (mr.nextRestartNum + 1) % 8)
          else NoEntry
        case Data(_, _) => NotYet
        case Empty(_) => NotYet
      else
        EntryAt(ToRead(all, br.pos, br.getBuffer, br.bitsLeft, br.unreadMarker), Ahead(all, br.pos, br.unreadMarker),
            dc.lastDcVal, br.insufficient, restartsToGo, mr.nextRestartNum)
    }

    /** Nothing has been skipped between segments. */
    ghost predicate Clean()
      reads mr
    {
      mr.discarded == 0 && !mr.extraneous
    }

    /** The bits in front of the next marker, all data considered. */
    ghost function Left(all: seq<Byte>): BitSeq
      requires dc.br.pos <= |all|
      reads dc, dc.br
    {
      ToRead(all, dc.br.pos, dc.br.getBuffer, dc.br.bitsLeft, dc.br.unreadMarker)
    }

    /** process_restart: whatever data are still to come, the MCU to come stays the same. */
    method ProcessRestart(ghost more: seq<Byte>) returns (r: Outcome)
      requires Valid() && RestartDue()
      modifies this, dc, dc.br, mr
      ensures Valid() && dc.br.data == old(dc.br.data)
      ensures r == Done ==> !RestartDue() && EntryIn(dc.br.data + more) == old(EntryIn(dc.br.data + more))
      ensures r == Suspended ==>
          EntryIn(dc.br.data + more) == old(EntryIn(dc.br.data + more))
              && Ahead(dc.br.data, dc.br.pos, dc.br.unreadMarker).Empty?
      ensures r == Mismatch ==> old(EntryIn(dc.br.data + more)) == NoEntry
      ensures old(Clean()) && |old(Left(dc.br.data + more))| < 8 ==> Clean()
      ensures r == Suspended && |old(Left(dc.br.data + more))| < 8 ==> |Left(dc.br.data + more)| < 8
    {
      hide Usable1, ToRead, RestBytes, Unpack, RestEnd, Stuff, Skipped, LaterBits;
      var br := dc.br;
      ghost var all := br.data + more;
      ghost var pos, buffer, bits, marker := br.pos, br.getBuffer, br.bitsLeft, br.unreadMarker;
      ToReadArrives(br.data, more, pos, buffer, bits, marker);
      FewLeft(br.data, more, pos, buffer, bits, marker);
      mr.discarded := mr.discarded + br.bitsLeft / 8;
      br.bitsLeft := 0;
      r := mr.ReadRestartMarker();
      if r != Done {
        if r == Suspended {
          StillWaiting(br.data, more, pos, buffer, bits);
        }
        return;
      }
      dc.lastDcVal := seq(|dc.ts|, _ => 0);
      restartsToGo := interval;
      if br.unreadMarker == 0 {
        br.insufficient := false;
      }
      FreshRead(all, br.pos, br.getBuffer);
    }

    ghost predicate EntryOk(e: DcEntry) { e.EntryAt? && DcOk(refine, dc.ts, mem, e.last) }

    ghost function Outcome1(e: DcEntry, ds: seq<int>, ext: BitSeq): Read<(seq<int>, seq<int>)>
      requires EntryOk(e)
    {
      DcOutcome(refine, dc.al, dc.ts, mem, e.last, ds, e.bits + ext)
    }

    /** The MCU is decoded; `zeros` bits had to be made up. */
    ghost predicate Decoded(e: DcEntry, ds: seq<int>, zeros: nat, ds': seq<int>, rest: BitSeq)
      reads dc`lastDcVal, dc.br`insufficient
    {
      && EntryOk(e) && Outcome1(e, ds, ToBits(0, zeros)) == Got((ds', dc.lastDcVal), rest)
      && if zeros == 0 then !dc.br.insufficient else dc.br.insufficient && Outcome1(e, ds, []) == More
    }

    /** The values have been left such that the MCU is decoded in the same way. */
    ghost predicate Undecoded(e: DcEntry, ds: seq<int>, ds': seq<int>)
    {
      EntryOk(e) && Outcome1(e, ds', []) == Outcome1(e, ds, [])
    }

    /** The MCU from where the bit reader stands, without the restart. */
    method DecodeHere(blocks: seq<array<int>>) returns (ok: bool, ghost zeros: nat)
      requires Valid() && Blocks(blocks) && |blocks| == |mem| && (refine || !dc.br.insufficient)
      modifies dc, dc.br, blocks
      ensures Valid() && dc.br.data == old(dc.br.data) && OnlyDc(blocks)
      ensures dc.br.Follows(old(dc.br.pos), old(dc.br.unreadMarker), old(dc.br.insufficient))
      ensures DcOk(refine, dc.ts, mem, old(dc.lastDcVal))
      ensures ok ==> DcOutcome(refine, dc.al, dc.ts, mem, old(dc.lastDcVal), old(DcOf(blocks)),
          old(dc.br.Avail()) + ToBits(0, zeros)) == Got((DcOf(blocks), dc.lastDcVal), dc.br.Avail())
      ensures ok && zeros == 0 ==> dc.br.insufficient == old(dc.br.insufficient)
      ensures ok && zeros > 0 ==> dc.br.unreadMarker != 0
      ensures ok && zeros > 0 ==> dc.br.insufficient && DcOutcome(refine, dc.al, dc.ts, mem, old(dc.lastDcVal),
          old(DcOf(blocks)), old(dc.br.Avail())) == More
      ensures !ok ==>
          dc.br.Stuck(old(dc.br.data), old(dc.br.pos), old(dc.br.getBuffer), old(dc.br.bitsLeft),
              old(dc.br.unreadMarker), old(dc.br.insufficient))
      ensures !ok ==> dc.br.Avail() == old(dc.br.Avail()) && dc.lastDcVal == old(dc.lastDcVal)
      ensures !ok && refine ==> AsGood(dc.al, old(DcOf(blocks)), DcOf(blocks), dc.br.Avail())
    {
      hide ToRead, Dry, ToBits, Usable1, DecodeRefine, DecodeValues, AsGood, DcOf, Scaled, Blocks, ValidTables;
      UsableAll(dc.ts, dc.tbls);
      if refine {
        ok, zeros := dc.DecodeMcuRefine(blocks);
      } else {
        ghost var a := dc.br.Avail();
        assert a + [] == a;
        ok, zeros := dc.DecodeMcuFirst(mem, blocks);
      }
    }

    /** ... all data considered. */
    method DecodeEntered(blocks: seq<array<int>>, ghost more: seq<Byte>) returns (ok: bool, ghost zeros: nat)
      requires Valid() && Blocks(blocks) && |blocks| == |mem| && !RestartDue() && (refine || !dc.br.insufficient)
      modifies dc, dc.br, blocks
      ensures Valid() && dc.br.data == old(dc.br.data) && OnlyDc(blocks)
      ensures EntryOk(old(EntryIn(dc.br.data + more)))
      ensures ok && !old(dc.br.insufficient) ==>
          Decoded(old(EntryIn(dc.br.data + more)), old(DcOf(blocks)), zeros, DcOf(blocks), Left(dc.br.data + more))
      ensures ok ==> (old(dc.br.insufficient) ==> dc.br.insufficient)
                     && Ahead(dc.br.data + more, dc.br.pos, dc.br.unreadMarker)
                        == old(EntryIn(dc.br.data + more)).ahead
      ensures !ok ==> Undecoded(old(EntryIn(dc.br.data + more)), old(DcOf(blocks)), DcOf(blocks))
      ensures !ok ==> EntryIn(dc.br.data + more) == old(EntryIn(dc.br.data + more))
                      && Left(dc.br.data + more) == old(Left(dc.br.data + more))
      ensures !ok ==> Ahead(dc.br.data, dc.br.pos, dc.br.unreadMarker).Empty?
    {
      hide Usable1, ToRead, RestBytes, Unpack, RestEnd, LaterBits, LaterEnd, ToBits, Ahead, DcOutcome, DcOk, AsGood,
          DcOf, Blocks;
      var br := dc.br;
      ghost var all, ds, last := br.data + more, DcOf(blocks), dc.lastDcVal;
      ToReadArrives(br.data, more, br.pos, br.getBuffer, br.bitsLeft, br.unreadMarker);
      ghost var later := LaterBits(all, Ahead(br.data, br.pos, br.unreadMarker));
      ghost var a := br.Avail();
      ok, zeros := DecodeHere(blocks);
      ToReadArrives(br.data, more, br.pos, br.getBuffer, br.bitsLeft, br.unreadMarker);
      if ok {
        if br.unreadMarker != 0 {
          NothingLater(br.data, all, br.pos, br.unreadMarker);
        }
        OutcomeLater(refine, dc.al, dc.ts, mem, last, ds, a, zeros, later, (DcOf(blocks), dc.lastDcVal), br.Avail());
      } else {
        if refine {
          AsGoodLater(dc.al, dc.ts, mem, last, ds, DcOf(blocks), a, later);
        } else {
          AnyValues(dc.al, dc.ts, mem, last, ds, DcOf(blocks), (a + later) + []);
        }
        DryIsEmpty(br.data, br.pos, br.unreadMarker);
      }
    }

    /** decode_mcu_DC_first or decode_mcu_DC_refine.  `more` are data still to come, whatever they are. */
    method DecodeMcu(blocks: seq<array<int>>, ghost more: seq<Byte>) returns (r: Outcome, ghost zeros: nat)
      requires Valid() && Blocks(blocks) && |blocks| == |mem|
      modifies this, dc, dc.br, mr, blocks
      ensures Valid() && dc.br.data == old(dc.br.data) && OnlyDc(blocks)
      ensures r == Mismatch ==> old(EntryIn(dc.br.data + more)) == NoEntry
      ensures r == Done ==>
          Advanced(old(EntryIn(dc.br.data + more)), Ahead(dc.br.data + more, dc.br.pos, dc.br.unreadMarker))
      ensures r == Done && old(EntryIn(dc.br.data + more)).insufficient ==>
          dc.br.insufficient && (!refine ==> DcOf(blocks) == old(DcOf(blocks)))
      ensures r == Done && !old(EntryIn(dc.br.data + more)).insufficient ==>
        Decoded(old(EntryIn(dc.br.data + more)), old(DcOf(blocks)), zeros, DcOf(blocks), Left(dc.br.data + more))
      ensures r == Suspended ==>
          EntryIn(dc.br.data + more) == old(EntryIn(dc.br.data + more))
              && Ahead(dc.br.data, dc.br.pos, dc.br.unreadMarker).Empty?
      ensures r == Suspended && EntryOk(EntryIn(dc.br.data + more)) ==>
          Undecoded(EntryIn(dc.br.data + more), old(DcOf(blocks)), DcOf(blocks))
      ensures old(Clean() && (RestartDue() ==> |Left(dc.br.data + more)| < 8)) ==> Clean()
      ensures r == Suspended && old(RestartDue() ==> |Left(dc.br.data + more)| < 8) ==>
          RestartDue() ==> |Left(dc.br.data + more)| < 8
    {
      hide Usable1, ToRead, RestBytes, Unpack, RestEnd, ToBits, DcOutcome, DcOk, Ahead, DcOf, Blocks;
      r, zeros := Done, 0;
      if RestartDue() {
        r := ProcessRestart(more);
        if r != Done {
          return;
        }
      }
      if refine || !dc.br.insufficient {
        var ok;
        ok, zeros := DecodeEntered(blocks, more);
        if !ok {
          return Suspended, 0;
        }
      }
      restartsToGo := OneLess(restartsToGo);
    }

    /** The counters and the end of the data after an MCU. */
    predicate Advanced(e: DcEntry, ahead: Next)
      reads this`restartsToGo, mr`nextRestartNum
    {
      e.EntryAt? && restartsToGo == OneLess(e.toGo) && mr.nextRestartNum == e.num && ahead == e.ahead
    }
  }

  /** A first pass does not look at the values it replaces. */
  lemma AnyValues(al: nat, ts: seq<HuffTable>, mem: seq<nat>, last: seq<int>, ds: seq<int>, ds': seq<int>, bs: BitSeq)
    requires DcOk(false, ts, mem, last)
    ensures DcOutcome(false, al, ts, mem, last, ds', bs) == DcOutcome(false, al, ts, mem, last, ds, bs)
  {
    hide DecodeValues, Scaled;
  }
}
