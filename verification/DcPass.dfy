/** A whole first pass over DC coefficients: writing it segment by segment, or counting its symbols, and that the two
    agree. */
module DcPass {
  import opened Bits
  import opened Coef
  import opened Huffman
  import opened HuffTables
  import opened BitOutput
  import opened Segments
  import opened AcScan
  import opened AcEncoder
  import opened AcPass
  import opened DcScan
  import opened DcEncoder
  import opened SeqGather

  // ---------------------------------------------------------------- one part after another

  lemma ItemsJoin(a: seq<Item>, b: seq<Item>, comps: nat)
    requires ItemsOk(a, comps) && ItemsOk(b, comps)
    ensures ItemsOk(a + b, comps)
  {
  }

  lemma {:induction false} LastJoin(al: nat, a: seq<Item>, b: seq<Item>, last: seq<int>)
    requires ItemsOk(a, |last|) && ItemsOk(b, |last|)
    ensures ItemsOk(a + b, |last|) && LastAfter(al, a + b, last) == LastAfter(al, b, LastAfter(al, a, last))
    ensures DiffsSmall(al, a + b, last) <==> DiffsSmall(al, a, last) && DiffsSmall(al, b, LastAfter(al, a, last))
    decreases |a|
  {
    hide BitLen, Shr, ItemsOk;
    ItemsJoin(a, b, |last|);
    if a == [] {
      assert a + b == b;
    } else {
      ItemsRest(a, |last|);
      assert (a + b)[1..] == a[1..] + b;
      LastJoin(al, a[1..], b, last[a[0].ci := Shr(a[0].dc, al)]);
    }
  }

  lemma {:induction false} CodedJoin(ts: seq<HuffTable>, al: nat, a: seq<Item>, b: seq<Item>, last: seq<int>)
    requires ValidTables(ts, |last|) && ItemsOk(a, |last|) && ItemsOk(b, |last|)
    ensures ItemsOk(a + b, |last|)
    ensures DiffsCoded(ts, al, a + b, last)
        <==> DiffsCoded(ts, al, a, last) && DiffsCoded(ts, al, b, LastAfter(al, a, last))
    ensures DiffsCoded(ts, al, a + b, last) ==>
      FirstBits(ts, al, a + b, last) == FirstBits(ts, al, a, last) + FirstBits(ts, al, b, LastAfter(al, a, last))
    decreases |a|
  {
    hide BitLen, Shr, ItemsOk, DiffBits, HuffTable.Shaped, HuffTable.ValidCounts, HuffTable.HasCode;
    ItemsJoin(a, b, |last|);
    if a == [] {
      assert a + b == b;
      if DiffsCoded(ts, al, b, last) {
        assert [] + FirstBits(ts, al, b, last) == FirstBits(ts, al, b, last);
      }
    } else {
      ItemsRest(a, |last|);
      assert (a + b)[1..] == a[1..] + b;
      var v, ci := Shr(a[0].dc, al), a[0].ci;
      var last' := last[ci := v];
      CodedJoin(ts, al, a[1..], b, last');
      if DiffsCoded(ts, al, a + b, last) {
        assert DiffBits(ts[ci], v - last[ci])
            + (FirstBits(ts, al, a[1..], last') + FirstBits(ts, al, b, LastAfter(al, a[1..], last')))
            == (DiffBits(ts[ci], v - last[ci]) + FirstBits(ts, al, a[1..], last'))
                + FirstBits(ts, al, b, LastAfter(al, a[1..], last'));
      }
    }
  }

  lemma SendableJoin(ts: seq<HuffTable>, al: nat, a: seq<Item>, b: seq<Item>, last: seq<int>)
    requires ValidTables(ts, |last|) && ItemsOk(a, |last|) && ItemsOk(b, |last|)
    ensures ItemsOk(a + b, |last|) && LastAfter(al, a + b, last) == LastAfter(al, b, LastAfter(al, a, last))
    ensures DcEncoder.Sendable(ts, al, a + b, last)
        <==> DcEncoder.Sendable(ts, al, a, last) && DcEncoder.Sendable(ts, al, b, LastAfter(al, a, last))
    ensures DcEncoder.Sendable(ts, al, a + b, last) ==>
      FirstBits(ts, al, a + b, last) == FirstBits(ts, al, a, last) + FirstBits(ts, al, b, LastAfter(al, a, last))
  {
    hide DiffsSmall, DiffsCoded, FirstBits, LastAfter, ItemsOk, HuffTable.Shaped, HuffTable.ValidCounts;
    LastJoin(al, a, b, last);
    CodedJoin(ts, al, a, b, last);
  }

  lemma {:induction false} ToksJoin(tbl: nat, no: seq<nat>, al: nat, a: seq<Item>, b: seq<Item>, last: seq<int>)
    requires |no| == |last| && ItemsOk(a, |last|) && ItemsOk(b, |last|)
    ensures ItemsOk(a + b, |last|)
    ensures DiffToks(tbl, no, al, a + b, last)
        == DiffToks(tbl, no, al, a, last) + DiffToks(tbl, no, al, b, LastAfter(al, a, last))
    decreases |a|
  {
    hide BitLen, Shr, ItemsOk;
    ItemsJoin(a, b, |last|);
    if a == [] {
      assert a + b == b;
      assert [] + DiffToks(tbl, no, al, b, last) == DiffToks(tbl, no, al, b, last);
    } else {
      ItemsRest(a, |last|);
      assert (a + b)[1..] == a[1..] + b;
      var last' := last[a[0].ci := Shr(a[0].dc, al)];
      ToksJoin(tbl, no, al, a[1..], b, last');
      var sym := [Sym(BitLen(Abs(Shr(a[0].dc, al) - last[a[0].ci])))];
      var here := if no[a[0].ci] == tbl then sym else [];
      var more, rest := DiffToks(tbl, no, al, a[1..], last'), DiffToks(tbl, no, al, b, LastAfter(al, a[1..], last'));
      assert here + (more + rest) == (here + more) + rest;
    }
  }

  // ---------------------------------------------------------------- segments

  type DcMcu = seq<Item>

  /** What a scan depends on: the tables of its components, by number and, in a pass that writes, by value. */
  datatype DcScanOf = DcScanOf(al: nat, no: seq<nat>, ts: seq<HuffTable>) {
    predicate Tables() { ValidTables(ts, |no|) }

    predicate GroupOk(g: seq<DcMcu>) { ItemsOk(Joined(g), |no|) }

    predicate GroupsOk(groups: seq<seq<DcMcu>>) { forall i | 0 <= i < |groups| :: GroupOk(groups[i]) }

    /** All differences of a segment, predictions starting at 0, are in range. */
    predicate GroupSmall(g: seq<DcMcu>) { GroupOk(g) && DiffsSmall(al, Joined(g), NoPrediction(|no|)) }

    predicate AllSmall(groups: seq<seq<DcMcu>>) { forall i | 0 <= i < |groups| :: GroupSmall(groups[i]) }

    /** ... and have codes. */
    predicate GroupSendable(g: seq<DcMcu>)
      requires Tables()
    {
      GroupOk(g) && DcEncoder.Sendable(ts, al, Joined(g), NoPrediction(|no|))
    }

    predicate AllSendable(groups: seq<seq<DcMcu>>)
      requires Tables()
    {
      forall i | 0 <= i < |groups| :: GroupSendable(groups[i])
    }

    function Bits(g: seq<DcMcu>): BitSeq
      requires Tables() && GroupSendable(g)
    {
      FirstBits(ts, al, Joined(g), NoPrediction(|no|))
    }

    function Segs(groups: seq<seq<DcMcu>>): (segs: seq<BitSeq>)
      requires Tables() && AllSendable(groups)
      ensures |segs| == |groups|
    {
      seq(|groups|, i requires 0 <= i < |groups| => Bits(groups[i]))
    }

    /** The symbols that a scan sends with table `tbl`. */
    function Toks(tbl: nat, groups: seq<seq<DcMcu>>): seq<Token>
      requires GroupsOk(groups)
    {
      if groups == [] then []
      else Toks(tbl, groups[..|groups| - 1]) + DiffToks(tbl, no, al, Joined(groups[|groups| - 1]), NoPrediction(|no|))
    }

    /** ... table by table, after complete groups and some items of the next. */
    function Rows(groups: seq<seq<DcMcu>>, items: seq<Item>): (rows: seq<seq<Token>>)
      requires GroupsOk(groups) && ItemsOk(items, |no|)
      ensures |rows| == 4
    {
      seq(4, tbl requires 0 <= tbl < 4 => Toks(tbl, groups) + DiffToks(tbl, no, al, items, NoPrediction(|no|)))
    }
  }

  lemma RowsMcu(d: DcScanOf, groups: seq<seq<DcMcu>>, items: seq<Item>, m: DcMcu)
    requires d.GroupsOk(groups) && ItemsOk(items, |d.no|) && ItemsOk(m, |d.no|)
    ensures ItemsOk(items + m, |d.no|)
    ensures d.Rows(groups, items + m)
        == RowsAfter(d.no, d.al, m, LastAfter(d.al, items, NoPrediction(|d.no|)), d.Rows(groups, items))
  {
    hide DiffToks, ItemsOk, LastAfter, DcScanOf.GroupsOk, DcScanOf.Toks;
    ItemsJoin(items, m, |d.no|);
    var none := NoPrediction(|d.no|);
    var a, b := d.Rows(groups, items + m),
        RowsAfter(d.no, d.al, m, LastAfter(d.al, items, none), d.Rows(groups, items));
    forall tbl | 0 <= tbl < 4
      ensures a[tbl] == b[tbl]
    {
      ToksJoin(tbl, d.no, d.al, items, m, none);
      assert d.Toks(tbl, groups)
          + (DiffToks(tbl, d.no, d.al, items, none) + DiffToks(tbl, d.no, d.al, m, LastAfter(d.al, items, none)))
          == (d.Toks(tbl, groups) + DiffToks(tbl, d.no, d.al, items, none))
              + DiffToks(tbl, d.no, d.al, m, LastAfter(d.al, items, none));
    }
  }

  lemma RowsGroup(d: DcScanOf, groups: seq<seq<DcMcu>>, g: seq<DcMcu>)
    requires d.GroupsOk(groups) && d.GroupOk(g)
    ensures d.GroupsOk(groups + [g]) && ItemsOk([], |d.no|) && d.Rows(groups + [g], []) == d.Rows(groups, Joined(g))
  {
    hide DiffToks, ItemsOk, Joined, DcScanOf.GroupOk;
    GroupIs(d, g);
    NoItems(d);
    var a, b := d.Rows(groups + [g], []), d.Rows(groups, Joined(g));
    forall tbl | 0 <= tbl < 4
      ensures a[tbl] == b[tbl]
    {
      assert (groups + [g])[..|groups|] == groups;
      assert d.Toks(tbl, groups + [g]) + [] == d.Toks(tbl, groups + [g]);
      NoToksOf(tbl, d);
    }
  }

  lemma GroupIs(d: DcScanOf, g: seq<DcMcu>)
    requires d.GroupOk(g)
    ensures ItemsOk(Joined(g), |d.no|)
  {
  }

  lemma NoItems(d: DcScanOf)
    ensures ItemsOk([], |d.no|)
  {
  }

  lemma NoToksOf(tbl: nat, d: DcScanOf)
    ensures ItemsOk([], |d.no|) && DiffToks(tbl, d.no, d.al, [], NoPrediction(|d.no|)) == []
  {
  }

  // ---------------------------------------------------------------- the two passes agree

  lemma {:induction false} ToksOfGroup(d: DcScanOf, tbl: nat, groups: seq<seq<DcMcu>>, i: nat, tok: Token)
    requires d.GroupsOk(groups) && i < |groups| && d.GroupOk(groups[i])
        && tok in DiffToks(tbl, d.no, d.al, Joined(groups[i]), NoPrediction(|d.no|))
    ensures tok in d.Toks(tbl, groups)
    decreases |groups|
  {
    hide DiffToks, Joined;
    var n := |groups| - 1;
    if i < n {
      ToksOfGroup(d, tbl, groups[..n], i, tok);
    }
  }

  /** Once every symbol that the statistics pass has counted has a code, the output pass misses none. */
  lemma CountedScanSendable(d: DcScanOf, groups: seq<seq<DcMcu>>)
    requires d.Tables() && d.AllSmall(groups) && d.GroupsOk(groups)
    requires forall ci, s: nat | 0 <= ci < |d.no| && Sym(s) in d.Toks(d.no[ci], groups) :: d.ts[ci].HasCode(s)
    ensures d.AllSendable(groups)
  {
    hide DiffToks, DiffsSmall, DiffsCoded, Joined, HuffTable.Shaped, HuffTable.ValidCounts, HuffTable.HasCode,
        DcScanOf.Toks, ItemsOk;
    forall i | 0 <= i < |groups|
      ensures d.GroupSendable(groups[i])
    {
      var items, none := Joined(groups[i]), NoPrediction(|d.no|);
      assert d.GroupOk(groups[i]) && d.GroupSmall(groups[i]);
      forall ci, s: nat | 0 <= ci < |d.no| && Sym(s) in DiffToks(d.no[ci], d.no, d.al, items, none)
        ensures d.ts[ci].HasCode(s)
      {
        ToksOfGroup(d, d.no[ci], groups, i, Sym(s));
      }
      CountedDiffsCoded(d.ts, d.no, d.al, items, none);
    }
  }

  // ---------------------------------------------------------------- the pass

  /** The encoder with its restart counters. */
  class DcScanPass {
    const enc: ProgDcEncoder
    const interval: nat
    const membership: seq<nat>
    var restartsToGo: nat
    var nextRestartNum: nat
    ghost const start: seq<Byte>
    ghost var mcus: seq<DcMcu>

    function Of(): DcScanOf { DcScanOf(enc.al, enc.no, enc.ts) }

    /** Segments `groups` are complete. */
    ghost predicate Before(groups: seq<seq<DcMcu>>)
      reads enc.w
    {
      && Of().GroupsOk(groups) && Of().AllSmall(groups)
      && (enc.gather || (Of().Tables() && Of().AllSendable(groups) && enc.w.done == start + Marked(Of().Segs(groups))))
    }

    /** The items of the current segment so far. */
    ghost predicate InSegment(groups: seq<seq<DcMcu>>, items: seq<Item>)
      requires Of().GroupsOk(groups)
      reads enc, enc.w, enc.counts
    {
      var none := NoPrediction(|enc.no|);
      && enc.Valid() && ItemsOk(items, |enc.no|) && DiffsSmall(enc.al, items, none)
         && enc.lastDcVal == LastAfter(enc.al, items, none)
      && (enc.gather ==> enc.rows == Of().Rows(groups, items))
      && (enc.gather || (Of().Tables() && DcEncoder.Sendable(enc.ts, enc.al, items, none)
         && enc.w.segment == FirstBits(enc.ts, enc.al, items, none)))
    }

    ghost predicate State(groups: seq<seq<DcMcu>>, last: seq<DcMcu>)
      reads enc, enc.w, enc.counts
    {
      Before(groups) && InSegment(groups, Joined(last))
    }

    /** All MCUs so far can be counted, or written. */
    ghost predicate Accepted(groups: seq<seq<DcMcu>>)
    {
      Of().AllSmall(groups) && (enc.gather || (Of().Tables() && Of().AllSendable(groups)))
    }

    ghost predicate Valid()
      reads this, enc, enc.w, enc.counts
    {
      var g := Groups(mcus, interval);
      State(g[..|g| - 1], g[|g| - 1]) && nextRestartNum == (|g| - 1) % 8
          && CountsDown(interval, restartsToGo, |g[|g| - 1]|)
      && forall i | 0 <= i < |membership| :: membership[i] < |enc.no|
    }

    constructor (enc: ProgDcEncoder, interval: nat, membership: seq<nat>)
      requires enc.Valid() && enc.lastDcVal == NoPrediction(|enc.no|) && enc.rows == [[], [], [], []]
          && enc.w.segment == []
      requires forall i | 0 <= i < |membership| :: membership[i] < |enc.no|
      ensures Valid() && mcus == [] && this.enc == enc && this.interval == interval && this.membership == membership
          && start == enc.w.done
    {
      hide BitWriter.Valid, CMatches, Tally;
      this.enc, this.interval, this.membership, restartsToGo, nextRestartNum, start, mcus := enc, interval,
          membership, interval, 0, enc.w.done, [];
      new;
      assert start + [] == start;
      assert Groups<DcMcu>([], interval) == [[]];
      if !enc.gather {
        TablesValid(enc.ts, enc.tbls);
      }
      NothingCounted(Of());
    }

    /** A restart marker, if it is due. */
    method StartMcu(ghost groups: seq<seq<DcMcu>>, ghost last: seq<DcMcu>)
      requires State(groups, last) && nextRestartNum == |groups| % 8 && CountsDown(interval, restartsToGo, |last|)
      modifies enc.w, enc`lastDcVal
      ensures if interval > 0 && |last| == interval then State(groups + [last], []) else State(groups, last)
    {
      hide State;
      if interval != 0 && restartsToGo == 0 {
        Restart(groups, last);
      }
    }

    method Restart(ghost groups: seq<seq<DcMcu>>, ghost last: seq<DcMcu>)
      requires State(groups, last) && nextRestartNum == |groups| % 8
      modifies enc.w, enc`lastDcVal
      ensures State(groups + [last], [])
    {
      hide BitWriter.Valid, CMatches, Tally, DiffsSmall, FirstBits, LastAfter, Joined, Marked, SegmentBytes,
          RestartMarker, DcScanOf.Rows, DcScanOf.GroupsOk, DcScanOf.AllSmall,
        DcScanOf.AllSendable, DcScanOf.GroupSmall, DcScanOf.Segs, DcScanOf.Tables, DcEncoder.Sendable,
            ProgDcEncoder.SetUp, ItemsOk;
      ghost var d := Of();
      NothingSent(d);
      NoneIn();
      SegmentDone(d, groups, last);
      if !enc.gather {
        SegmentMarked(d, groups, last, start, nextRestartNum);
      }
      enc.EmitRestart(nextRestartNum);
    }

    /** The MCU itself. */
    method ContinueSegment(blocks: seq<seq<int>>, ghost groups: seq<seq<DcMcu>>, ghost last: seq<DcMcu>)
      returns (ok: bool)
      requires State(groups, last) && enc.Fits(membership, blocks)
      modifies enc.w, enc.counts, enc`lastDcVal, enc`rows
      ensures ok <==> Accepted(groups + [last + [ItemsOf(membership, blocks)]])
      ensures ok ==> State(groups, last + [ItemsOf(membership, blocks)])
    {
      hide BitWriter.Valid, CMatches, Tally, DiffsSmall, DiffsCoded, FirstBits, LastAfter, Joined, DcScanOf.Rows,
          DcScanOf.Toks, HuffTable.Shaped, HuffTable.ValidCounts, ItemsOk;
      ghost var m, none := ItemsOf(membership, blocks), NoPrediction(|enc.no|);
      ghost var items := Joined(last);
      JoinedSnoc(last, m);
      ItemsFit(membership, blocks, |enc.no|);
      LastJoin(enc.al, items, m, none);
      RowsMcu(Of(), groups, items, m);
      if !enc.gather {
        SendableJoin(enc.ts, enc.al, items, m, none);
      }
      LastGroup(Of(), groups, last + [m]);
      ok := enc.EncodeMcuFirst(membership, blocks);
    }

    /** The restart bookkeeping after each MCU. */
    method CountMcu(ghost done: nat, ghost n: nat)
      requires nextRestartNum == done % 8 && CountsDown(interval, restartsToGo, n)
      modifies this`restartsToGo, this`nextRestartNum
      ensures if interval > 0 && n == interval
          then nextRestartNum == (done + 1) % 8 && CountsDown(interval, restartsToGo, 1)
        else nextRestartNum == done % 8 && CountsDown(interval, restartsToGo, n + 1)
    {
      if interval != 0 {
        if restartsToGo == 0 {
          restartsToGo := interval;
          nextRestartNum := (nextRestartNum + 1) % 8;
        }
        restartsToGo := restartsToGo - 1;
      }
    }

    /** encode_mcu_DC_first, with the restart before it: succeeds just when all MCUs up to this one are accepted. */
    method EncodeMcu(blocks: seq<seq<int>>) returns (ok: bool)
      requires Valid() && enc.Fits(membership, blocks)
      modifies enc.w, enc.counts, enc`lastDcVal, enc`rows, this`restartsToGo, this`nextRestartNum, this`mcus
      ensures mcus == old(mcus) + [ItemsOf(membership, blocks)]
      ensures ok <==> Accepted(Groups(mcus, interval))
      ensures ok ==> Valid()
    {
      hide State, Accepted, Groups, CountsDown, Joined, ItemsOf;
      ghost var m, g := ItemsOf(membership, blocks), Groups(mcus, interval);
      ghost var groups, last := g[..|g| - 1], g[|g| - 1];
      NextGroups(mcus, interval, m);
      mcus := mcus + [m];
      ghost var g' := Groups(mcus, interval);
      GroupsSplitLast(g);
      GroupsSplitLast(g');
      StartMcu(groups, last);
      if interval > 0 && |last| == interval {
        groups, last := g, [];
      }
      ok := ContinueSegment(blocks, groups, last);
      CountMcu(|g| - 1, |g[|g| - 1]|);
    }
  }

  // ---------------------------------------------------------------- whole scans

  predicate DcBlocks(membership: seq<nat>, comps: nat, mcus: seq<seq<seq<int>>>)
  {
    && (forall i | 0 <= i < |membership| :: membership[i] < comps)
    && forall j | 0 <= j < |mcus| :: |mcus[j]| == |membership| && forall i | 0 <= i < |mcus[j]| :: |mcus[j][i]| == 64
  }

  /** The MCUs of a scan. */
  function DcMcus(membership: seq<nat>, mcus: seq<seq<seq<int>>>): (m: seq<DcMcu>)
    requires forall j | 0 <= j < |mcus| ::
        |mcus[j]| == |membership| && forall i | 0 <= i < |mcus[j]| :: |mcus[j][i]| == 64
    ensures |m| == |mcus|
  {
    seq(|mcus|, j requires 0 <= j < |mcus| => ItemsOf(membership, mcus[j]))
  }

  /** All MCUs of a scan, up to the end of the pass. */
  method EncodeAllMcus(pass: DcScanPass, mcus: seq<seq<seq<int>>>) returns (ok: bool)
    requires pass.Valid() && pass.mcus == [] && DcBlocks(pass.membership, |pass.enc.no|, mcus)
    modifies pass, pass.enc, pass.enc.w, pass.enc.counts
    ensures ok <==> pass.Accepted(Groups(DcMcus(pass.membership, mcus), pass.interval))
    ensures ok ==> pass.Valid() && pass.mcus == DcMcus(pass.membership, mcus)
  {
    hide DcScanPass.State, DcScanPass.Accepted, Groups, CountsDown;
    ghost var m := DcMcus(pass.membership, mcus);
    assert m[..0] == [];
    NothingAccepted(pass);
    for j := 0 to |mcus|
      invariant pass.Valid() && pass.mcus == m[..j] && pass.Accepted(Groups(m[..j], pass.interval))
    {
      ok := pass.EncodeMcu(mcus[j]);
      assert m[..j + 1] == m[..j] + [m[j]];
      if !ok {
        RestFits(pass.membership, |pass.enc.no|, mcus, j + 1);
        StaysRefused(pass, m[..j + 1], m[j + 1..]);
        assert m[..j + 1] + m[j + 1..] == m;
        return;
      }
    }
    assert m[..|mcus|] == m;
    ok := true;
  }

  lemma RestFits(membership: seq<nat>, comps: nat, mcus: seq<seq<seq<int>>>, j: nat)
    requires DcBlocks(membership, comps, mcus) && j <= |mcus|
    ensures var rest := DcMcus(membership, mcus)[j..]; forall i | 0 <= i < |rest| :: ItemsOk(rest[i], comps)
  {
  }

  lemma NothingAccepted(pass: DcScanPass)
    requires pass.Valid() && pass.mcus == []
    ensures pass.Accepted(Groups<DcMcu>([], pass.interval))
  {
    hide ProgDcEncoder.Valid, DiffsSmall, DcEncoder.Sendable, FirstBits, LastAfter, ItemsOk, DcScanOf.Rows,
        Tally, BitWriter.Valid;
    assert Groups<DcMcu>([], pass.interval) == [[]];
    var d := pass.Of();
    var none: seq<seq<DcMcu>> := [];
    LastGroup(d, none, []);
    assert none + [[]] == [[]];
    NothingCounted(d);
  }

  /** What cannot be sent cannot be sent with more behind it. */
  lemma {:induction false} StaysRefused(pass: DcScanPass, ms: seq<DcMcu>, rest: seq<DcMcu>)
    requires !pass.Accepted(Groups(ms, pass.interval)) && forall j | 0 <= j < |rest| :: ItemsOk(rest[j], |pass.enc.no|)
    ensures !pass.Accepted(Groups(ms + rest, pass.interval))
    decreases |rest|
  {
    hide Groups, DcScanPass.Accepted, ItemsOk;
    if rest == [] {
      assert ms + rest == ms;
    } else {
      RefusedOne(pass, ms, rest[0]);
      assert ms + rest == (ms + [rest[0]]) + rest[1..];
      StaysRefused(pass, ms + [rest[0]], rest[1..]);
    }
  }

  lemma RefusedOne(pass: DcScanPass, ms: seq<DcMcu>, m: DcMcu)
    requires !pass.Accepted(Groups(ms, pass.interval)) && ItemsOk(m, |pass.enc.no|)
    ensures !pass.Accepted(Groups(ms + [m], pass.interval))
  {
    hide Groups, ItemsOk, DcScanOf.AllSmall, DcScanOf.AllSendable, DcScanOf.GroupSmall, DcScanOf.GroupSendable,
        DcScanOf.Tables, Joined;
    var d := pass.Of();
    var g, g' := Groups(ms, pass.interval), Groups(ms + [m], pass.interval);
    NextGroups(ms, pass.interval, m);
    GroupsSplitLast(g);
    GroupsSplitLast(g');
    var last := g[|g| - 1];
    LastGroup(d, g[..|g| - 1], last);
    LastGroup(d, g'[..|g'| - 1], g'[|g'| - 1]);
    if !(pass.interval > 0 && |last| == pass.interval) {
      SmallerGroup(d, last, m);
    }
  }

  lemma SmallerGroup(d: DcScanOf, last: seq<DcMcu>, m: DcMcu)
    requires ItemsOk(m, |d.no|)
    ensures d.GroupSmall(last + [m]) ==> d.GroupSmall(last)
    ensures d.Tables() && d.GroupSendable(last + [m]) ==> d.GroupSendable(last)
  {
    hide DiffsSmall, DiffsCoded, LastAfter, Joined, HuffTable.Shaped, HuffTable.ValidCounts, FirstBits;
    JoinedSnoc(last, m);
    var none := NoPrediction(|d.no|);
    if d.GroupOk(last + [m]) {
      assert forall i | 0 <= i < |Joined(last)| :: (Joined(last) + m)[i] == Joined(last)[i];
      LastJoin(d.al, Joined(last), m, none);
      if d.Tables() {
        SendableJoin(d.ts, d.al, Joined(last), m, none);
      }
    }
  }

  /** An output pass: it succeeds just when all differences of the scan can be sent. */
  method WriteDcScan(al: nat, no: seq<nat>, ts: seq<HuffTable>, tbls: seq<CDerived>, w: BitWriter, membership: seq<nat>,
        mcus: seq<seq<seq<int>>>, interval: nat)
    returns (ok: bool)
    requires w.Valid() && w.segment == [] && |no| == |ts| == |tbls| && DcBlocks(membership, |no|, mcus)
    requires forall ci | 0 <= ci < |no| :: no[ci] < 4 && CMatches(ts[ci], tbls[ci])
    modifies w
    ensures var d := DcScanOf(al, no, ts); var g := Groups(DcMcus(membership, mcus), interval);
      d.Tables() && (ok <==> d.AllSendable(g)) && (ok ==> w.out == old(w.done) + ScanBytes(d.Segs(g)))
  {
    hide CMatches, BitWriter.Valid, Groups, DcMcus, DcScanOf.AllSendable, DcScanOf.AllSmall, DcScanOf.Segs,
        Tally, Joined, DiffsSmall, DcEncoder.Sendable, FirstBits,
      LastAfter, ItemsOk, DcScanOf.Rows, SegmentBytes, Marked, HuffTable.Shaped, HuffTable.ValidCounts, CountsDown,
          DcScanOf.GroupsOk;
    TablesValid(ts, tbls);
    var enc := new ProgDcEncoder(al, false, no, ts, tbls, w);
    MembersFit(membership, |no|, mcus);
    var pass := new DcScanPass(enc, interval, membership);
    ghost var d, g := DcScanOf(al, no, ts), Groups(DcMcus(membership, mcus), interval);
    SendableSmall(d, g);
    ok := EncodeAllMcus(pass, mcus);
    if ok {
      GroupsSplitLast(g);
      ghost var groups, last := g[..|g| - 1], g[|g| - 1];
      SegmentIs(d, groups, last);
      w.FlushBits();
      assert pass.start + Marked(d.Segs(groups)) + SegmentBytes(d.Bits(last))
          == pass.start + (Marked(d.Segs(groups)) + SegmentBytes(d.Bits(last)));
    }
  }

  lemma MembersFit(membership: seq<nat>, comps: nat, mcus: seq<seq<seq<int>>>)
    requires DcBlocks(membership, comps, mcus)
    ensures forall i | 0 <= i < |membership| :: membership[i] < comps
  {
  }

  lemma SendableSmall(d: DcScanOf, groups: seq<seq<DcMcu>>)
    requires d.Tables()
    ensures d.AllSendable(groups) ==> d.AllSmall(groups)
  {
    hide DiffsSmall, DiffsCoded, Joined, HuffTable.Shaped, HuffTable.ValidCounts, ItemsOk;
    if d.AllSendable(groups) {
      forall i | 0 <= i < |groups|
        ensures d.GroupSmall(groups[i])
      {
        assert d.GroupSendable(groups[i]);
      }
    }
  }

  lemma SegmentIs(d: DcScanOf, groups: seq<seq<DcMcu>>, last: seq<DcMcu>)
    requires d.Tables() && d.AllSendable(groups + [last])
    ensures d.AllSendable(groups) && d.GroupSendable(last) && d.Segs(groups + [last]) == d.Segs(groups) + [d.Bits(last)]
    ensures ScanBytes(d.Segs(groups + [last])) == Marked(d.Segs(groups)) + SegmentBytes(d.Bits(last))
  {
    hide DcScanOf.AllSendable, DcScanOf.GroupSendable, DcScanOf.Bits, DcScanOf.Tables, SegmentBytes, Marked,
        DcScanOf.Segs;
    LastGroup(d, groups, last);
    SegsSnoc(d, groups, last);
    var segs := d.Segs(groups) + [d.Bits(last)];
    assert segs[..|segs| - 1] == d.Segs(groups);
  }

  /** A statistics pass: it counts just the symbols that an output pass sends, table by table. */
  method CountDcScan(al: nat, no: seq<nat>, membership: seq<nat>, mcus: seq<seq<seq<int>>>, interval: nat)
    returns (ok: bool, counts: array2<nat>)
    requires DcBlocks(membership, |no|, mcus) && forall ci | 0 <= ci < |no| :: no[ci] < 4
    ensures var d := DcScanOf(al, no, seq(|no|, _ => HuffTable([], [])));
    var g := Groups(DcMcus(membership, mcus), interval);
      (ok <==> d.AllSmall(g)) && (ok ==> d.GroupsOk(g) && Tally(counts, AllToks(d, g)))
  {
    hide CMatches, BitWriter.Valid, Groups, DcMcus, DcScanOf.AllSendable, DcScanOf.AllSmall, DcScanOf.Segs,
        Tally, Joined, DiffsSmall, DcEncoder.Sendable, FirstBits,
      LastAfter, ItemsOk, DcScanOf.Rows, SegmentBytes, Marked, CountsDown, DcScanOf.GroupsOk, AllToks;
    var none := seq(|no|, _ => HuffTable([], []));
    var w := new BitWriter([]);
    var enc := new ProgDcEncoder(al, true, no, none, seq(|no|, _ => CDerived([], [])), w);
    MembersFit(membership, |no|, mcus);
    var pass := new DcScanPass(enc, interval, membership);
    ghost var d, g := DcScanOf(al, no, none), Groups(DcMcus(membership, mcus), interval);
    ok := EncodeAllMcus(pass, mcus);
    counts := enc.counts;
    if ok {
      GroupsSplitLast(g);
      AllCounted(d, g[..|g| - 1], g[|g| - 1]);
    }
  }

  /** The symbols of a scan, table by table. */
  function AllToks(d: DcScanOf, groups: seq<seq<DcMcu>>): (rows: seq<seq<Token>>)
    requires d.GroupsOk(groups)
  {
    seq(4, tbl requires 0 <= tbl < 4 => d.Toks(tbl, groups))
  }

  lemma {:induction false} ToksAnyTables(d: DcScanOf, ts: seq<HuffTable>, tbl: nat, groups: seq<seq<DcMcu>>)
    requires d.GroupsOk(groups)
    ensures d.(ts := ts).GroupsOk(groups) && d.(ts := ts).Toks(tbl, groups) == d.Toks(tbl, groups)
    decreases |groups|
  {
    hide DiffToks, Joined;
    if groups != [] {
      ToksAnyTables(d, ts, tbl, groups[..|groups| - 1]);
    }
  }

  /** The two passes over a scan agree: with tables that have a code for every symbol counted, it can be written. */
  lemma CountedScanWritable(d: DcScanOf, ts: seq<HuffTable>, groups: seq<seq<DcMcu>>, counts: array2<nat>)
    requires d.AllSmall(groups) && d.GroupsOk(groups) && Tally(counts, AllToks(d, groups))
    requires ValidTables(ts, |d.no|) && forall ci | 0 <= ci < |d.no| :: d.no[ci] < 4
    requires forall ci, s: nat | 0 <= ci < |d.no| && s < 257 && counts[d.no[ci], s] > 0 :: ts[ci].HasCode(s)
    ensures d.(ts := ts).AllSendable(groups)
  {
    hide DiffsSmall, Joined, HuffTable.Shaped, HuffTable.ValidCounts, HuffTable.HasCode, DcScanOf.Toks, ItemsOk, Occurs;
    var d' := d.(ts := ts);
    forall ci, s: nat | 0 <= ci < |d.no| && Sym(s) in d'.Toks(d.no[ci], groups)
      ensures ts[ci].HasCode(s)
    {
      ToksAnyTables(d, ts, d.no[ci], groups);
      SmallToks(d, d.no[ci], groups, s);
      var toks := d.Toks(d.no[ci], groups);
      var i :| 0 <= i < |toks| && toks[i] == Sym(s);
      OccursAt(toks, i);
      assert AllToks(d, groups)[d.no[ci]] == toks;
    }
    CountedScanSendable(d', groups);
  }

  /** Symbols of differences in range are counted in the row. */
  lemma {:induction false} SmallToks(d: DcScanOf, tbl: nat, groups: seq<seq<DcMcu>>, s: nat)
    requires d.GroupsOk(groups) && d.AllSmall(groups) && Sym(s) in d.Toks(tbl, groups)
    ensures s < 257
    decreases |groups|
  {
    hide DiffToks, DiffsSmall, Joined;
    if groups != [] {
      var n := |groups| - 1;
      assert d.GroupSmall(groups[n]);
      if Sym(s) in DiffToks(tbl, d.no, d.al, Joined(groups[n]), NoPrediction(|d.no|)) {
        SmallSyms(tbl, d.no, d.al, Joined(groups[n]), NoPrediction(|d.no|), s);
      } else {
        SmallToks(d, tbl, groups[..n], s);
      }
    }
  }

  lemma {:induction false} SmallSyms(tbl: nat, no: seq<nat>, al: nat, items: seq<Item>, last: seq<int>, s: nat)
    requires |no| == |last| && ItemsOk(items, |last|) && DiffsSmall(al, items, last)
        && Sym(s) in DiffToks(tbl, no, al, items, last)
    ensures s <= MAX_COEF_BITS + 1
    decreases |items|
  {
    hide BitLen, Shr;
    if items != [] {
      var v, ci := Shr(items[0].dc, al), items[0].ci;
      if s != BitLen(Abs(v - last[ci])) {
        SmallSyms(tbl, no, al, items[1..], last[ci := v], s);
      }
    }
  }

  lemma AllCounted(d: DcScanOf, groups: seq<seq<DcMcu>>, last: seq<DcMcu>)
    requires d.GroupsOk(groups) && ItemsOk(Joined(last), |d.no|)
    ensures d.GroupsOk(groups + [last]) && AllToks(d, groups + [last]) == d.Rows(groups, Joined(last))
  {
    hide Joined, DiffToks, ItemsOk;
    GroupOkIs(d, last);
    RowsGroup(d, groups, last);
    NoItems(d);
    var a, b := AllToks(d, groups + [last]), d.Rows(groups + [last], []);
    forall tbl | 0 <= tbl < 4
      ensures a[tbl] == b[tbl]
    {
      NoToksOf(tbl, d);
      assert d.Toks(tbl, groups + [last]) + [] == d.Toks(tbl, groups + [last]);
    }
  }

  lemma GroupOkIs(d: DcScanOf, g: seq<DcMcu>)
    requires ItemsOk(Joined(g), |d.no|)
    ensures d.GroupOk(g)
  {
  }

  lemma SegmentDone(d: DcScanOf, groups: seq<seq<DcMcu>>, last: seq<DcMcu>)
    requires d.GroupsOk(groups) && d.AllSmall(groups) && ItemsOk(Joined(last), |d.no|)
        && DiffsSmall(d.al, Joined(last), NoPrediction(|d.no|))
    ensures d.GroupsOk(groups + [last]) && d.AllSmall(groups + [last]) && ItemsOk([], |d.no|)
    ensures d.Rows(groups + [last], []) == d.Rows(groups, Joined(last))
  {
    hide DiffsSmall, Joined, ItemsOk, DcScanOf.GroupsOk, DcScanOf.AllSmall, DcScanOf.Rows;
    RowsGroup(d, groups, last);
    LastGroup(d, groups, last);
  }

  lemma SegmentMarked(d: DcScanOf, groups: seq<seq<DcMcu>>, last: seq<DcMcu>, start: seq<Byte>, num: nat)
    requires d.Tables() && d.AllSendable(groups) && ItemsOk(Joined(last), |d.no|)
        && DcEncoder.Sendable(d.ts, d.al, Joined(last), NoPrediction(|d.no|)) && num == |groups| % 8
    ensures d.AllSendable(groups + [last])
    ensures start + Marked(d.Segs(groups)) + SegmentBytes(FirstBits(d.ts, d.al, Joined(last), NoPrediction(|d.no|)))
        + RestartMarker(num)
         == start + Marked(d.Segs(groups + [last]))
  {
    hide DcScanOf.Tables, DcScanOf.AllSendable, DcScanOf.Segs, FirstBits, Joined, ItemsOk, DcEncoder.Sendable,
        SegmentBytes, Marked;
    SegsSnoc(d, groups, last);
    MarkedWith(d.Segs(groups), d.Bits(last));
    var m, b, r := Marked(d.Segs(groups)), SegmentBytes(d.Bits(last)), RestartMarker(num);
    assert start + m + b + r == start + (m + b + r);
  }

  lemma NothingCounted(d: DcScanOf)
    ensures ItemsOk([], |d.no|) && d.GroupsOk([]) && d.Rows([], []) == [[], [], [], []] && Joined<Item>([]) == []
    ensures DiffsSmall(d.al, [], NoPrediction(|d.no|))
        && LastAfter(d.al, [], NoPrediction(|d.no|)) == NoPrediction(|d.no|)
    ensures d.Tables() ==>
        DcEncoder.Sendable(d.ts, d.al, [], NoPrediction(|d.no|))
            && FirstBits(d.ts, d.al, [], NoPrediction(|d.no|)) == []
  {
    hide HuffTable.Shaped, HuffTable.ValidCounts;
  }

  lemma NothingSent(d: DcScanOf)
    ensures ItemsOk([], |d.no|) && DiffsSmall(d.al, [], NoPrediction(|d.no|))
        && LastAfter(d.al, [], NoPrediction(|d.no|)) == NoPrediction(|d.no|)
    ensures d.Tables() ==>
        DcEncoder.Sendable(d.ts, d.al, [], NoPrediction(|d.no|))
            && FirstBits(d.ts, d.al, [], NoPrediction(|d.no|)) == []
  {
    hide HuffTable.Shaped, HuffTable.ValidCounts;
  }

  lemma NoneIn()
    ensures Joined<Item>([]) == []
  {
  }

  lemma SegsSnoc(d: DcScanOf, groups: seq<seq<DcMcu>>, g: seq<DcMcu>)
    requires d.Tables() && d.AllSendable(groups) && d.GroupSendable(g)
    ensures d.AllSendable(groups + [g]) && d.Segs(groups + [g]) == d.Segs(groups) + [d.Bits(g)]
  {
    hide HuffTable.Shaped, HuffTable.ValidCounts, Joined, DiffsSmall, DiffsCoded, ItemsOk, DcScanOf.GroupSendable,
        DcScanOf.Bits;
  }

  lemma ItemsFit(membership: seq<nat>, blocks: seq<seq<int>>, comps: nat)
    requires |membership| == |blocks| && forall i | 0 <= i < |blocks| :: |blocks[i]| == 64 && membership[i] < comps
    ensures ItemsOk(ItemsOf(membership, blocks), comps)
  {
  }

  /** What holds of all groups holds of the last one. */
  lemma LastGroup(d: DcScanOf, groups: seq<seq<DcMcu>>, g: seq<DcMcu>)
    ensures d.AllSmall(groups + [g]) <==> d.AllSmall(groups) && d.GroupSmall(g)
    ensures d.Tables() ==> (d.AllSendable(groups + [g]) <==> d.AllSendable(groups) && d.GroupSendable(g))
  {
    hide HuffTable.Shaped, HuffTable.ValidCounts, Joined, DcScanOf.GroupSendable, DcScanOf.GroupSmall;
    var all := groups + [g];
    assert all[|groups|] == g;
    assert forall i | 0 <= i < |groups| :: all[i] == groups[i];
  }
}
