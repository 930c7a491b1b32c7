/** The decoder of a progressive AC scan with its restart markers. */
module PhuffDecoder {
  import opened Bits
  import opened Reading
  import opened Huffman
  import opened HuffTables
  import opened HuffDecoding
  import opened BitOutput
  import opened BitInput
  import opened AcScan
  import opened AcDecoder
  import opened AcFirstDecoder
  import opened Arrival
  import opened McuDecoder
  import opened RestartMarkers
  import opened Segments
  import opened Suspension
  import opened Zigzag

  /** Where the next block starts, all data considered: unless a restart marker has to come first and does not,
      its bits, what comes after the last of them, the end-of-band run, whether data have run out, and the restart
      counters. */
  datatype BlockEntry = NoEntry | NotYet | EntryAt(bits: BitSeq, ahead: Next, run: nat, insufficient: bool,
        toGo: nat, num: nat)

  class ProgAcDecoder {
    const band: BandDecoder
    const mr: MarkerReader
    const interval: nat
    var restartsToGo: nat

    ghost predicate Valid()
      reads this, band, band.br, mr
    {
      band.Valid() && mr.br == band.br && mr.Valid()
    }

    /** start_pass_phuff_decoder. */
    constructor (band: BandDecoder, mr: MarkerReader, interval: nat)
      requires band.Valid() && mr.br == band.br && mr.Valid()
      ensures Valid() && this.band == band && this.mr == mr && this.interval == interval && restartsToGo == interval
    {
      this.band, this.mr, this.interval, restartsToGo := band, mr, interval, interval;
    }

    predicate RestartDue()
      reads this`restartsToGo
    {
      interval != 0 && restartsToGo == 0
    }

    ghost function EntryIn(all: seq<Byte>): BlockEntry
      requires band.br.pos <= |all|
      reads this, band, band.br, mr
    {
      var br := band.br;
      if RestartDue() then
        match Ahead(all, br.pos, br.unreadMarker)
        case Marker(m, q) =>
          if m == RST0 + mr.nextRestartNum && q <= |all| then
            EntryAt(Unpack(RestBytes(all, q)), RestEnd(all, q), 0, false, interval, (mr.nextRestartNum + 1) % 8)
          else NoEntry
        case Data(_, _) => NotYet
        case Empty(_) => NotYet
      else
        EntryAt(ToRead(all, br.pos, br.getBuffer, br.bitsLeft, br.unreadMarker), Ahead(all, br.pos, br.unreadMarker),
            band.eobrun, br.insufficient, restartsToGo, mr.nextRestartNum)
    }

    /** Nothing has been skipped between segments. */
    ghost predicate Clean()
      reads mr
    {
      mr.discarded == 0 && !mr.extraneous
    }

    /** The bits in front of the next marker, all data considered. */
    ghost function Left(all: seq<Byte>): BitSeq
      requires band.br.pos <= |all|
      reads band, band.br
    {
      ToRead(all, band.br.pos, band.br.getBuffer, band.br.bitsLeft, band.br.unreadMarker)
    }

    /** process_restart: whatever data are still to come, the block to come stays the same. */
    method ProcessRestart(ghost more: seq<Byte>) returns (r: Outcome)
      requires Valid() && RestartDue()
      modifies this, band, band.br, mr
      ensures Valid() && band.br.data == old(band.br.data)
      ensures r == Done ==> !RestartDue() && EntryIn(band.br.data + more) == old(EntryIn(band.br.data + more))
      ensures r == Suspended ==>
          EntryIn(band.br.data + more) == old(EntryIn(band.br.data + more))
              && Ahead(band.br.data, band.br.pos, band.br.unreadMarker).Empty?
      ensures r == Mismatch ==> old(EntryIn(band.br.data + more)) == NoEntry
      ensures old(Clean()) && |old(Left(band.br.data + more))| < 8 ==> Clean()
      ensures r == Suspended && |old(Left(band.br.data + more))| < 8 ==> |Left(band.br.data + more)| < 8
    {
      hide DMatches, ToRead, RestBytes, Unpack, RestEnd, Stuff, Skipped, LaterBits;
      var br := band.br;
      ghost var all := br.data + more;
      ghost var pos, buffer, bits, marker := br.pos, br.getBuffer, br.bitsLeft, br.unreadMarker;
      ToReadArrives(br.data, more, pos, buffer, bits, marker);
      FewLeft(br.data, more, pos, buffer, bits, marker);
      mr.discarded := mr.discarded + br.bitsLeft / 8;
      br.bitsLeft := 0;
      r := mr.ReadRestartMarker();
      if r != Done {
        if r == Suspended {
          StillWaiting(br.data, more, pos, buffer, bits);
        }
        return;
      }
      band.eobrun := 0;
      restartsToGo := interval;
      if br.unreadMarker == 0 {
        br.insufficient := false;
      }
      FreshRead(all, br.pos, br.getBuffer);
    }

    ghost function Outcome1(e: BlockEntry, d: Block, ext: BitSeq): Read<(Block, nat)>
      requires e.EntryAt? && TableOk()
    {
      DecodeBlock(band.t, band.sc, d, e.run, e.bits + ext)
    }

    ghost predicate TableOk() { band.t.Shaped() && band.t.ValidCounts() && band.sc.Valid() }

    /** The block is decoded; `zeros` bits had to be made up. */
    ghost predicate Decoded(e: BlockEntry, d: Block, zeros: nat, d': Block, rest: BitSeq)
      requires e.EntryAt?
      reads band`eobrun, band.br`insufficient
    {
      && TableOk() && Outcome1(e, d, ToBits(0, zeros)) == Got((d', band.eobrun), rest)
      && if zeros == 0 then !band.br.insufficient else band.br.insufficient && Outcome1(e, d, []) == More
    }

    /** The block has been left such that it is decoded in the same way. */
    ghost predicate Undecoded(e: BlockEntry, d: Block, d': Block)
      requires e.EntryAt?
    {
      TableOk() && Outcome1(e, d', []) == Outcome1(e, d, [])
    }

    /** The routine for one block, without the restart. */
    method DecodeEntered(block: array<int>, ghost more: seq<Byte>) returns (ok: bool, ghost zeros: nat)
      requires Valid() && block.Length == 64 && !RestartDue() && !band.br.insufficient
      modifies band, band.br, block
      ensures Valid() && band.br.data == old(band.br.data) && old(EntryIn(band.br.data + more)).EntryAt?
      ensures ok ==>
          Decoded(old(EntryIn(band.br.data + more)), old(ZigzagOf(block[..])), zeros, ZigzagOf(block[..]),
              Left(band.br.data + more))
      ensures ok ==>
          Ahead(band.br.data + more, band.br.pos, band.br.unreadMarker) == old(EntryIn(band.br.data + more)).ahead
      ensures !ok ==> Undecoded(old(EntryIn(band.br.data + more)), old(ZigzagOf(block[..])), ZigzagOf(block[..]))
      ensures !ok ==> EntryIn(band.br.data + more) == old(EntryIn(band.br.data + more))
                      && Left(band.br.data + more) == old(Left(band.br.data + more))
      ensures !ok ==> Ahead(band.br.data, band.br.pos, band.br.unreadMarker).Empty?
    {
      hide DMatches, HuffTable.Shaped, HuffTable.ValidCounts, ToRead, RestBytes, Unpack, RestEnd, LaterBits,
          LaterEnd, ToBits, ZigzagOf, DecodeBlock, Ahead, Interchangeable;
      var br := band.br;
      ghost var all, b0 := br.data + more, block[..];
      TableSizes(band.t, band.d);
      ToReadArrives(br.data, more, br.pos, br.getBuffer, br.bitsLeft, br.unreadMarker);
      ghost var later := LaterBits(all, Ahead(br.data, br.pos, br.unreadMarker));
      ghost var a, run := br.Avail(), band.eobrun;
      ok, zeros := AcFirstDecoder.DecodeMcu(band, block);
      ToReadArrives(br.data, more, br.pos, br.getBuffer, br.bitsLeft, br.unreadMarker);
      if ok {
        if br.unreadMarker != 0 {
          NothingLater(br.data, all, br.pos, br.unreadMarker);
        }
        BlockWithLater(band.t, band.sc, ZigzagOf(b0), run, a, zeros, later, (ZigzagOf(block[..]), band.eobrun),
            br.Avail());
      } else {
        BlockSameLater(band.t, band.sc, b0, block[..], run, a, later);
        DryIsEmpty(br.data, br.pos, br.unreadMarker);
      }
    }

    /** decode_mcu_AC_first or decode_mcu_AC_refine.  `more` are data still to come, whatever they are. */
    method DecodeMcu(block: array<int>, ghost more: seq<Byte>) returns (r: Outcome, ghost zeros: nat)
      requires Valid() && block.Length == 64
      modifies this, band, band.br, mr, block
      ensures Valid() && band.br.data == old(band.br.data)
      ensures r == Mismatch ==> old(EntryIn(band.br.data + more)) == NoEntry
      ensures r == Done ==>
          Advanced(old(EntryIn(band.br.data + more)), Ahead(band.br.data + more, band.br.pos, band.br.unreadMarker))
      ensures r == Done && old(EntryIn(band.br.data + more)).insufficient ==>
          band.br.insufficient && block[..] == old(block[..])
      ensures r == Done && !old(EntryIn(band.br.data + more)).insufficient ==>
        Decoded(old(EntryIn(band.br.data + more)), old(ZigzagOf(block[..])), zeros, ZigzagOf(block[..]),
            Left(band.br.data + more))
      ensures r == Suspended ==>
          EntryIn(band.br.data + more) == old(EntryIn(band.br.data + more))
              && Ahead(band.br.data, band.br.pos, band.br.unreadMarker).Empty?
      ensures r == Suspended && EntryIn(band.br.data + more).EntryAt? ==>
          Undecoded(EntryIn(band.br.data + more), old(ZigzagOf(block[..])), ZigzagOf(block[..]))
      ensures old(Clean() && (RestartDue() ==> |Left(band.br.data + more)| < 8)) ==> Clean()
      ensures r == Suspended && old(RestartDue() ==> |Left(band.br.data + more)| < 8) ==>
          RestartDue() ==> |Left(band.br.data + more)| < 8
    {
      hide DMatches, HuffTable.Shaped, HuffTable.ValidCounts, ToRead, RestBytes, Unpack, RestEnd, ToBits, ZigzagOf,
          DecodeBlock, Ahead;
      TableSizes(band.t, band.d);
      r, zeros := Done, 0;
      if RestartDue() {
        r := ProcessRestart(more);
        if r != Done {
          return;
        }
      }
      if !band.br.insufficient {
        var ok;
        ok, zeros := DecodeEntered(block, more);
        if !ok {
          return Suspended, 0;
        }
      }
      restartsToGo := OneLess(restartsToGo);
    }

    /** The counters and the end of the data after a block. */
    predicate Advanced(e: BlockEntry, ahead: Next)
      reads this`restartsToGo, mr`nextRestartNum
    {
      e.EntryAt? && restartsToGo == OneLess(e.toGo) && mr.nextRestartNum == e.num && ahead == e.ahead
    }
  }

  /** More bits behind those that were needed. */
  lemma BlockWithLater(t: HuffTable, sc: Scan, d: Block, run: nat, a: BitSeq, zeros: nat, later: BitSeq,
        v: (Block, nat), rest: BitSeq)
    requires t.Shaped() && t.ValidCounts() && sc.Valid()
        && DecodeBlock(t, sc, d, run, a + ToBits(0, zeros)) == Got(v, rest) && (zeros > 0 ==> later == [])
    ensures DecodeBlock(t, sc, d, run, (a + later) + ToBits(0, zeros)) == Got(v, rest + later)
    ensures zeros > 0 ==> (a + later) + [] == a
  {
    hide HuffTable.Shaped, HuffTable.ValidCounts, DecodeBlock;
    if zeros > 0 {
      assert a + later == a && rest + later == rest;
    } else {
      NoZeroes(a);
      NoZeroes(a + later);
      BlockExtends(t, sc, d, run, a, later);
    }
  }

  lemma BlockSameLater(t: HuffTable, sc: Scan, b: seq<int>, b': seq<int>, run: nat, a: BitSeq, later: BitSeq)
    requires Interchangeable(t, sc, b, b', run, a)
    ensures |b| == 64 && |b'| == 64 && t.Shaped() && t.ValidCounts() && sc.Valid()
    ensures DecodeBlock(t, sc, ZigzagOf(b'), run, (a + later) + [])
        == DecodeBlock(t, sc, ZigzagOf(b), run, (a + later) + [])
  {
    hide HuffTable.Shaped, HuffTable.ValidCounts, DecodeBlock, ZigzagOf;
    assert SameWith(t, sc, b, b', run, a, later);
    assert (a + later) + [] == a + later;
  }
}
