/** The progressive DC encoders: a first pass that sends differences of shifted values, or only counts their symbols,
    and refinements that send one bit each. */
module DcEncoder {
  import opened Bits
  import opened Reading
  import opened Coef
  import opened Huffman
  import opened HuffTables
  import opened BitOutput
  import opened Segments
  import opened AcScan
  import opened AcEncoder
  import opened DcScan
  import opened SeqEncoder
  import opened SeqGather

  function NoPrediction(n: nat): (last: seq<int>)
    ensures |last| == n
  {
    seq(n, _ => 0)
  }

  /** The DC values of an MCU, with the components they belong to. */
  function ItemsOf(membership: seq<nat>, blocks: seq<seq<int>>): (items: seq<Item>)
    requires |membership| == |blocks| && forall i | 0 <= i < |blocks| :: |blocks[i]| == 64
    ensures |items| == |blocks|
  {
    seq(|blocks|, i requires 0 <= i < |blocks| => Item(membership[i], blocks[i][0]))
  }

  /** No difference needs more than the bits that a coefficient difference may have. */
  predicate DiffsSmall(al: nat, items: seq<Item>, last: seq<int>)
    requires ItemsOk(items, |last|)
  {
    items == [] ||
    var v := Shr(items[0].dc, al);
    var ci := items[0].ci;
    BitLen(Abs(v - last[ci])) <= MAX_COEF_BITS + 1 && DiffsSmall(al, items[1..], last[ci := v])
  }

  /** The predictions after the blocks `items`. */
  function LastAfter(al: nat, items: seq<Item>, last: seq<int>): (r: seq<int>)
    requires ItemsOk(items, |last|)
    ensures |r| == |last|
    decreases |items|
  {
    if items == [] then last else LastAfter(al, items[1..], last[items[0].ci := Shr(items[0].dc, al)])
  }

  predicate Sendable(ts: seq<HuffTable>, al: nat, items: seq<Item>, last: seq<int>)
    requires ValidTables(ts, |last|) && ItemsOk(items, |last|)
  {
    DiffsSmall(al, items, last) && DiffsCoded(ts, al, items, last)
  }

  /** With `segment` written, and `items` still to come after `last`, the MCU stands as at its start. */
  ghost predicate Underway(ts: seq<HuffTable>, al: nat, all: seq<Item>, last0: seq<int>, segment0: BitSeq,
        items: seq<Item>, last: seq<int>, segment: BitSeq)
  {
    && |last| == |last0| && ValidTables(ts, |last|) && ItemsOk(all, |last|) && ItemsOk(items, |last|)
    && (Sendable(ts, al, all, last0) <==> Sendable(ts, al, items, last))
    && LastAfter(al, all, last0) == LastAfter(al, items, last)
    && (Sendable(ts, al, items, last) ==>
       segment0 + FirstBits(ts, al, all, last0) == segment + FirstBits(ts, al, items, last))
  }

  lemma Begins(ts: seq<HuffTable>, al: nat, items: seq<Item>, last: seq<int>, segment: BitSeq)
    requires ValidTables(ts, |last|) && ItemsOk(items, |last|)
    ensures Underway(ts, al, items, last, segment, items, last, segment)
  {
    hide HuffTable.Shaped, HuffTable.ValidCounts, DiffsSmall, DiffsCoded, FirstBits, LastAfter;
  }

  lemma ItemsRest(items: seq<Item>, comps: nat)
    requires items != [] && ItemsOk(items, comps)
    ensures items[0].ci < comps && ItemsOk(items[1..], comps)
  {
  }

  /** The next difference is sent, or cannot be. */
  lemma OneDiff(ts: seq<HuffTable>, al: nat, all: seq<Item>, last0: seq<int>, segment0: BitSeq, items: seq<Item>,
        last: seq<int>, segment: BitSeq)
    requires Underway(ts, al, all, last0, segment0, items, last, segment) && items != []
    ensures items[0].ci < |last| == |ts| && ts[items[0].ci].Shaped() && ts[items[0].ci].ValidCounts()
    ensures var v, ci := Shr(items[0].dc, al), items[0].ci;
      if BitLen(Abs(v - last[ci])) <= MAX_COEF_BITS + 1 && ts[ci].HasCode(BitLen(Abs(v - last[ci])))
      then Underway(ts, al, all, last0, segment0, items[1..], last[ci := v], segment + DiffBits(ts[ci], v - last[ci]))
      else !Sendable(ts, al, all, last0)
  {
    hide HuffTable.Shaped, HuffTable.ValidCounts, HuffTable.HasCode, DiffBits, BitLen, Shr, ItemsOk;
    ItemsRest(items, |last|);
    var v, ci := Shr(items[0].dc, al), items[0].ci;
    if BitLen(Abs(v - last[ci])) <= MAX_COEF_BITS + 1 && ts[ci].HasCode(BitLen(Abs(v - last[ci]))) {
      if Sendable(ts, al, items, last) {
        assert segment + (DiffBits(ts[ci], v - last[ci]) + FirstBits(ts, al, items[1..], last[ci := v]))
            == (segment + DiffBits(ts[ci], v - last[ci])) + FirstBits(ts, al, items[1..], last[ci := v]);
      }
    }
  }

  lemma Ends(ts: seq<HuffTable>, al: nat, all: seq<Item>, last0: seq<int>, segment0: BitSeq, last: seq<int>,
        segment: BitSeq)
    requires Underway(ts, al, all, last0, segment0, [], last, segment)
    ensures ValidTables(ts, |last0|) && ItemsOk(all, |last0|) && Sendable(ts, al, all, last0)
    ensures segment == segment0 + FirstBits(ts, al, all, last0) && last == LastAfter(al, all, last0)
  {
    assert segment + [] == segment;
  }

  // ---------------------------------------------------------------- counting

  /** The symbols of the differences coded with table `tbl`; `no` gives the table of each component. */
  function DiffToks(tbl: nat, no: seq<nat>, al: nat, items: seq<Item>, last: seq<int>): seq<Token>
    requires |no| == |last| && ItemsOk(items, |last|)
    decreases |items|
  {
    if items == [] then []
    else
      var v, ci := Shr(items[0].dc, al), items[0].ci;
      (if no[ci] == tbl then [Sym(BitLen(Abs(v - last[ci])))] else [])
          + DiffToks(tbl, no, al, items[1..], last[ci := v])
  }

  /** Row `tbl`, with what is still to be counted of `items`, will be as from the start of the MCU. */
  ghost predicate CountingItems(no: seq<nat>, al: nat, all: seq<Item>, last0: seq<int>, rows0: seq<seq<Token>>,
        items: seq<Item>, last: seq<int>, rows: seq<seq<Token>>)
  {
    && |no| == |last| == |last0| && |rows| == |rows0| == 4 && ItemsOk(all, |last|) && ItemsOk(items, |last|)
    && (DiffsSmall(al, all, last0) <==> DiffsSmall(al, items, last))
    && LastAfter(al, all, last0) == LastAfter(al, items, last)
    && RowsGoing(no, al, all, last0, rows0, items, last, rows)
  }

  ghost predicate RowsGoing(no: seq<nat>, al: nat, all: seq<Item>, last0: seq<int>, rows0: seq<seq<Token>>,
        items: seq<Item>, last: seq<int>, rows: seq<seq<Token>>)
    requires |no| == |last| == |last0| && |rows| == |rows0| == 4 && ItemsOk(all, |last|) && ItemsOk(items, |last|)
  {
    forall tbl | 0 <= tbl < 4 ::
        rows0[tbl] + DiffToks(tbl, no, al, all, last0) == rows[tbl] + DiffToks(tbl, no, al, items, last)
  }

  lemma CountBegins(no: seq<nat>, al: nat, items: seq<Item>, last: seq<int>, rows: seq<seq<Token>>)
    requires |no| == |last| && |rows| == 4 && ItemsOk(items, |last|)
    ensures CountingItems(no, al, items, last, rows, items, last, rows)
  {
    hide DiffsSmall, LastAfter, DiffToks, ItemsOk;
  }

  lemma CountsOne(no: seq<nat>, al: nat, all: seq<Item>, last0: seq<int>, rows0: seq<seq<Token>>, items: seq<Item>,
        last: seq<int>, rows: seq<seq<Token>>)
    requires CountingItems(no, al, all, last0, rows0, items, last, rows) && items != []
        && forall ci | 0 <= ci < |no| :: no[ci] < 4
    ensures items[0].ci < |no| == |last|
    ensures var v, ci := Shr(items[0].dc, al), items[0].ci;
      var n := BitLen(Abs(v - last[ci]));
      if n <= MAX_COEF_BITS + 1
      then CountingItems(no, al, all, last0, rows0, items[1..], last[ci := v], rows[no[ci] := rows[no[ci]] + [Sym(n)]])
      else !DiffsSmall(al, all, last0)
  {
    hide BitLen, Shr, ItemsOk, RowsGoing, DiffToks;
    ItemsRest(items, |last|);
    RowsOne(no, al, all, last0, rows0, items, last, rows);
  }

  lemma RowsOne(no: seq<nat>, al: nat, all: seq<Item>, last0: seq<int>, rows0: seq<seq<Token>>, items: seq<Item>,
        last: seq<int>, rows: seq<seq<Token>>)
    requires |no| == |last| == |last0| && |rows| == |rows0| == 4 && ItemsOk(all, |last|) && ItemsOk(items, |last|)
    requires RowsGoing(no, al, all, last0, rows0, items, last, rows) && items != []
        && forall ci | 0 <= ci < |no| :: no[ci] < 4
    ensures items[0].ci < |no| == |last| && ItemsOk(items[1..], |last|)
    ensures var v, ci := Shr(items[0].dc, al), items[0].ci;
      RowsGoing(no, al, all, last0, rows0, items[1..], last[ci := v],
          rows[no[ci] := rows[no[ci]] + [Sym(BitLen(Abs(v - last[ci])))]])
  {
    hide BitLen, Shr, ItemsOk, DiffToks;
    ItemsRest(items, |last|);
    var v, ci := Shr(items[0].dc, al), items[0].ci;
    var rows' := rows[no[ci] := rows[no[ci]] + [Sym(BitLen(Abs(v - last[ci])))]];
    forall tbl | 0 <= tbl < 4
      ensures rows0[tbl] + DiffToks(tbl, no, al, all, last0)
          == rows'[tbl] + DiffToks(tbl, no, al, items[1..], last[ci := v])
    {
      RowGrowsBy(tbl, no, al, items, last, rows[tbl]);
    }
  }

  lemma RowGrowsBy(tbl: nat, no: seq<nat>, al: nat, items: seq<Item>, last: seq<int>, row: seq<Token>)
    requires |no| == |last| && ItemsOk(items, |last|) && items != []
    ensures items[0].ci < |no|
    ensures var v, ci := Shr(items[0].dc, al), items[0].ci;
      row + DiffToks(tbl, no, al, items, last)
      == (if no[ci] == tbl then row + [Sym(BitLen(Abs(v - last[ci])))] else row)
          + DiffToks(tbl, no, al, items[1..], last[ci := v])
  {
    hide BitLen, Shr;
    var v, ci := Shr(items[0].dc, al), items[0].ci;
    var rest := DiffToks(tbl, no, al, items[1..], last[ci := v]);
    var sym := Sym(BitLen(Abs(v - last[ci])));
    if no[ci] == tbl {
      assert row + ([sym] + rest) == (row + [sym]) + rest;
    } else {
      assert [] + rest == rest;
    }
  }

  /** The rows after the MCU. */
  function RowsAfter(no: seq<nat>, al: nat, items: seq<Item>, last: seq<int>,
        rows: seq<seq<Token>>): (r: seq<seq<Token>>)
    requires |no| == |last| && |rows| == 4 && ItemsOk(items, |last|)
    ensures |r| == 4
  {
    seq(4, tbl requires 0 <= tbl < 4 => rows[tbl] + DiffToks(tbl, no, al, items, last))
  }

  lemma CountEnds(no: seq<nat>, al: nat, all: seq<Item>, last0: seq<int>, rows0: seq<seq<Token>>, last: seq<int>,
        rows: seq<seq<Token>>)
    requires CountingItems(no, al, all, last0, rows0, [], last, rows)
    ensures DiffsSmall(al, all, last0) && last == LastAfter(al, all, last0)
        && rows == RowsAfter(no, al, all, last0, rows0)
  {
    hide ItemsOk;
    forall tbl | 0 <= tbl < 4
      ensures rows[tbl] == RowsAfter(no, al, all, last0, rows0)[tbl]
    {
      assert rows[tbl] + [] == rows[tbl];
    }
  }

  /** Once every symbol counted has a code, no difference lacks one. */
  lemma {:induction false} CountedDiffsCoded(ts: seq<HuffTable>, no: seq<nat>, al: nat, items: seq<Item>,
        last: seq<int>)
    requires ValidTables(ts, |last|) && |no| == |last| && ItemsOk(items, |last|)
    requires forall ci, s: nat | 0 <= ci < |no| && Sym(s) in DiffToks(no[ci], no, al, items, last) :: ts[ci].HasCode(s)
    ensures DiffsCoded(ts, al, items, last)
    decreases |items|
  {
    hide BitLen, Shr, HuffTable.HasCode, HuffTable.Shaped, HuffTable.ValidCounts;
    if items != [] {
      ItemsRest(items, |last|);
      var v, ci := Shr(items[0].dc, al), items[0].ci;
      var n := BitLen(Abs(v - last[ci]));
      assert DiffToks(no[ci], no, al, items, last)[0] == Sym(n);
      forall ck, s: nat | 0 <= ck < |no| && Sym(s) in DiffToks(no[ck], no, al, items[1..], last[ci := v])
        ensures ts[ck].HasCode(s)
      {
        assert Sym(s) in DiffToks(no[ck], no, al, items, last);
      }
      CountedDiffsCoded(ts, no, al, items[1..], last[ci := v]);
    }
  }

  // ---------------------------------------------------------------- the encoder

  /** `no` are the table numbers of the components; in a pass that writes, `ts` and `tbls` are their tables. */
  class ProgDcEncoder {
    const al: nat
    const gather: bool
    const no: seq<nat>
    const ts: seq<HuffTable>
    const tbls: seq<CDerived>
    const w: BitWriter
    const counts: array2<nat>
    var lastDcVal: seq<int>
    ghost var rows: seq<seq<Token>>

    /** The parts that never change. */
    ghost predicate SetUp()
    {
      && |no| == |ts| == |tbls| && (forall ci | 0 <= ci < |no| :: no[ci] < 4)
      && (gather || forall ci | 0 <= ci < |no| :: CMatches(ts[ci], tbls[ci]))
    }

    ghost predicate Valid()
      reads this, w, counts
    {
      w.Valid() && SetUp() && |lastDcVal| == |no| && Tally(counts, rows)
    }

    /** start_pass_phuff, for a scan of DC coefficients: no prediction has been made. */
    constructor (al: nat, gather: bool, no: seq<nat>, ts: seq<HuffTable>, tbls: seq<CDerived>, w: BitWriter)
      requires w.Valid() && |no| == |ts| == |tbls| && (forall ci | 0 <= ci < |no| :: no[ci] < 4)
      requires gather || forall ci | 0 <= ci < |no| :: CMatches(ts[ci], tbls[ci])
      ensures Valid() && this.al == al && this.gather == gather && this.no == no && this.ts == ts && this.w == w
      ensures fresh(counts) && lastDcVal == NoPrediction(|no|) && rows == [[], [], [], []]
    {
      this.al, this.gather, this.no, this.ts, this.tbls, this.w, lastDcVal := al, gather, no, ts, tbls, w,
          NoPrediction(|no|);
      counts := new nat[4, 257]((i, j) => 0);
      rows := [[], [], [], []];
    }

    /** The difference of a DC value to the last one of its component. */
    method EncodeDiff(ci: nat, dc: int) returns (ok: bool)
      requires Valid() && ci < |no|
      modifies w, counts, this`lastDcVal, this`rows
      ensures gather || (ts[ci].Shaped() && ts[ci].ValidCounts())
      ensures var v := Shr(dc, al); var diff := v - old(lastDcVal)[ci]; var n := BitLen(Abs(diff));
        && (ok <==> n <= MAX_COEF_BITS + 1 && (gather || ts[ci].HasCode(n)))
        && (ok ==> Valid() && w.done == old(w.done) && lastDcVal == old(lastDcVal)[ci := v])
        && (ok && gather ==> w.segment == old(w.segment) && rows == old(rows)[no[ci] := old(rows)[no[ci]] + [Sym(n)]])
        && (ok && !gather ==> rows == old(rows) && w.segment == old(w.segment) + DiffBits(ts[ci], diff))
    {
      hide HuffTable.Shaped, HuffTable.ValidCounts, HuffTable.HasCode, HuffTable.EncodeSym, CMatches, BitLen,
          BitWriter.Valid, ToBits, MagBits, Tally;
      EncoderTables(gather, ts[ci], tbls[ci]);
      TallySize(counts, rows);
      var temp2 := Shr(dc, al);
      var temp := temp2 - lastDcVal[ci];
      lastDcVal := lastDcVal[ci := temp2];
      temp2 := temp;
      if temp < 0 {
        temp2 := temp2 - 1;
      }
      var nbits := MagnitudeBits(Abs(temp));
      if nbits > MAX_COEF_BITS + 1 {
        return false;
      }
      if gather {
        CountSym(counts, no[ci], nbits, rows);
        rows := rows[no[ci] := rows[no[ci]] + [Sym(nbits)]];
        return true;
      }
      ok := EmitCode(w, ts[ci], tbls[ci], nbits);
      if !ok {
        return;
      }
      ValueBits(temp, nbits);
      ghost var segment := w.segment;
      if nbits != 0 {
        var sent := w.EmitBits(temp2, nbits);
      } else {
        NoMagBits(temp);
        assert segment + [] == segment;
      }
    }

    /** The items of an MCU fit the components. */
    ghost predicate Fits(membership: seq<nat>, blocks: seq<seq<int>>)
    {
      |membership| == |blocks| && forall i | 0 <= i < |blocks| :: |blocks[i]| == 64 && membership[i] < |no|
    }

    /** encode_mcu_DC_first: fails just when a difference is out of range or, if it is to be written, has no code. */
    method EncodeMcuFirst(membership: seq<nat>, blocks: seq<seq<int>>) returns (ok: bool)
      requires Valid() && Fits(membership, blocks)
      modifies w, counts, this`lastDcVal, this`rows
      ensures |old(lastDcVal)| == |no| && |old(rows)| == 4 && ItemsOk(ItemsOf(membership, blocks), |no|)
      ensures ok ==>
          Valid() && w.done == old(w.done) && lastDcVal == LastAfter(al, ItemsOf(membership, blocks), old(lastDcVal))
      ensures gather ==> (ok <==> DiffsSmall(al, ItemsOf(membership, blocks), old(lastDcVal)))
      ensures ok && gather ==>
          w.segment == old(w.segment)
              && rows == RowsAfter(no, al, ItemsOf(membership, blocks), old(lastDcVal), old(rows))
      ensures !gather ==>
          ValidTables(ts, |no|) && (ok <==> Sendable(ts, al, ItemsOf(membership, blocks), old(lastDcVal)))
      ensures ok && !gather ==>
          w.segment == old(w.segment) + FirstBits(ts, al, ItemsOf(membership, blocks), old(lastDcVal))
              && rows == old(rows)
    {
      hide HuffTable.Shaped, HuffTable.ValidCounts, HuffTable.HasCode, CMatches, BitWriter.Valid, Underway,
          CountingItems, Sendable, FirstBits, LastAfter, DiffBits, BitLen, Shr,
        DiffsSmall, RowsAfter, DiffToks, Tally;
      ghost var items, last0, segment0, rows0 := ItemsOf(membership, blocks), lastDcVal, w.segment, rows;
      TallySize(counts, rows);
      if gather {
        CountBegins(no, al, items, last0, rows0);
      } else {
        TablesValid(ts, tbls);
        Begins(ts, al, items, last0, segment0);
      }
      assert items[0..] == items;
      for blkn := 0 to |blocks|
        invariant Valid() && w.done == old(w.done)
        invariant gather ==>
            CountingItems(no, al, items, last0, rows0, items[blkn..], lastDcVal, rows) && w.segment == segment0
        invariant !gather ==>
            Underway(ts, al, items, last0, segment0, items[blkn..], lastDcVal, w.segment) && rows == rows0
      {
        if gather {
          CountsOne(no, al, items, last0, rows0, items[blkn..], lastDcVal, rows);
        } else {
          OneDiff(ts, al, items, last0, segment0, items[blkn..], lastDcVal, w.segment);
        }
        assert items[blkn..][1..] == items[blkn + 1..];
        ok := EncodeDiff(membership[blkn], blocks[blkn][0]);
        if !ok {
          return;
        }
      }
      assert items[|blocks|..] == [];
      if gather {
        CountEnds(no, al, items, last0, rows0, lastDcVal, rows);
      } else {
        Ends(ts, al, items, last0, segment0, lastDcVal, w.segment);
      }
      ok := true;
    }

    /** emit_restart, of a DC scan. */
    method EmitRestart(num: nat)
      requires Valid() && num < 8
      modifies w, this`lastDcVal
      ensures Valid() && lastDcVal == NoPrediction(|no|)
      ensures gather ==> w.segment == old(w.segment) && w.done == old(w.done)
      ensures !gather ==> w.segment == [] && w.done == old(w.done) + SegmentBytes(old(w.segment)) + RestartMarker(num)
    {
      hide BitWriter.Valid, CMatches, SegmentBytes, Tally;
      if !gather {
        w.FlushBits();
        w.EmitMarker(RST0 + num);
      }
      lastDcVal := seq(|no|, _ => 0);
    }

    /** encode_mcu_DC_refine. */
    method EncodeMcuRefine(membership: seq<nat>, blocks: seq<seq<int>>)
      requires Valid() && |membership| == |blocks| && forall i | 0 <= i < |blocks| :: |blocks[i]| == 64
      modifies w
      ensures Valid() && w.done == old(w.done)
      ensures w.segment == if gather then old(w.segment)
          else old(w.segment) + RefineBits(al, ItemsOf(membership, blocks))
    {
      hide BitWriter.Valid, CMatches, Shr, ToBits, Tally;
      if gather {
        return;
      }
      ghost var bits := RefineBits(al, ItemsOf(membership, blocks));
      assert w.segment + bits[..0] == w.segment;
      for blkn := 0 to |blocks|
        invariant w.Valid() && w.done == old(w.done) && w.segment == old(w.segment) + bits[..blkn]
      {
        var temp := blocks[blkn][0];
        var ok := w.EmitBits(Shr(temp, al), 1);
        LowBit(Shr(temp, al));
        assert bits[blkn] == BitSet(temp, al);
        assert bits[..blkn + 1] == bits[..blkn] + [bits[blkn]];
      }
      assert bits[..|blocks|] == bits;
    }
  }

  lemma LowBit(v: int)
    ensures ToBits(v, 1) == [v % 2 == 1]
  {
    assert ToBits(v / 2, 0) == [];
  }

  lemma NoMagBits(v: int)
    ensures MagBits(v, 0) == []
  {
  }

  lemma TablesValid(ts: seq<HuffTable>, tbls: seq<CDerived>)
    requires |ts| == |tbls| && forall ci | 0 <= ci < |ts| :: CMatches(ts[ci], tbls[ci])
    ensures ValidTables(ts, |ts|)
  {
    hide CMatches, HuffTable.Shaped, HuffTable.ValidCounts;
    forall ci | 0 <= ci < |ts|
      ensures ts[ci].Shaped() && ts[ci].ValidCounts()
    {
      EncoderTables(false, ts[ci], tbls[ci]);
    }
  }
}
