/** The progressive DC round trip, down to bytes: a decoder brings the DC value of every block of a scan that the
    encoder has written to the precision of the scan, however the data arrive. */
module DcRoundTrip {
  import opened Bits
  import opened Reading
  import opened Coef
  import opened Huffman
  import opened HuffTables
  import opened BitOutput
  import opened BitInput
  import opened DcScan
  import opened DcEncoder
  import opened DcDecoder
  import opened DcPass
  import opened DcRefinePass
  import opened DcScanDecoder
  import opened Arrival
  import opened McuDecoder
  import opened RestartMarkers
  import opened Segments
  import opened SeqRoundTrip

  // ---------------------------------------------------------------- the file

  /** A scan in the file, first or refining, and the bytes after it.  `mem` gives the components of the blocks of an
      MCU, `no` and `ts` the table of each component. */
  datatype DcFile = DcFile(refine: bool, al: nat, no: seq<nat>, ts: seq<HuffTable>, mem: seq<nat>, interval: nat,
        mcus: seq<DcMcu>, following: seq<Byte>) {
    function Of(): DcScanOf { DcScanOf(al, no, ts) }

    function Groups(): (g: seq<seq<DcMcu>>)
      ensures g != []
    {
      Segments.Groups(mcus, interval)
    }

    ghost predicate Coded()
    {
      |no| == |ts| && (!refine ==> Of().Tables() && Of().AllSendable(Groups()))
    }

    ghost predicate Ok()
    {
      Coded() && StartsMarker(following) && (forall i | 0 <= i < |mcus| :: IsMcu(mcus[i]))
      && (!refine ==> forall j | 0 <= j < |mem| :: mem[j] < |ts|)
    }

    predicate IsMcu(m: DcMcu) { |m| == |mem| && forall j | 0 <= j < |m| :: m[j].ci == mem[j] }

    ghost function Segs(): (segs: seq<BitSeq>)
      requires Coded()
      ensures |segs| == |Groups()|
    {
      if refine then RefineSegs(al, Groups()) else Of().Segs(Groups())
    }

    /** The MCUs of segment `s` up to number `n`, and from there on. */
    ghost predicate Within(s: nat, n: nat) { Coded() && s < |Groups()| && n <= |Groups()[s]| }

    function Early(s: nat, n: nat): seq<Item>
      requires s < |Groups()| && n <= |Groups()[s]|
    {
      Joined(Groups()[s][..n])
    }

    function Late(s: nat, n: nat): seq<Item>
      requires s < |Groups()| && n <= |Groups()[s]|
    {
      Joined(Groups()[s][n..])
    }

    /** The predictions and bits there. */
    ghost predicate Sent(s: nat, n: nat)
    {
      && Within(s, n)
      && (!refine ==> Of().Tables() && |no| == |ts| && ItemsOk(Early(s, n), |ts|) && ItemsOk(Late(s, n), |ts|))
      && (!refine ==> DcEncoder.Sendable(ts, al, Late(s, n), LastAt(s, n)))
    }

    ghost function LastAt(s: nat, n: nat): (last: seq<int>)
      requires Within(s, n) && (!refine ==> ItemsOk(Early(s, n), |ts|))
      ensures |last| == |ts|
    {
      if refine then NoPrediction(|ts|) else LastAfter(al, Early(s, n), NoPrediction(|ts|))
    }

    ghost function Rest(s: nat, n: nat): BitSeq
      requires Sent(s, n)
    {
      (if refine then RefineBits(al, Late(s, n)) else FirstBits(ts, al, Late(s, n), LastAt(s, n)))
      + Padding(|Segs()[s]|)
    }
  }

  /** The DC values that an MCU of the scan brings, where the decoder holds `ds`. */
  function New(f: DcFile, ds: seq<int>, m: DcMcu): (vs: seq<int>)
    requires |ds| == |m|
    ensures |vs| == |ds|
  {
    if f.refine then Ored(f.al, ds, m) else Floors(f.al, m)
  }

  /** With the right values before a refinement, they are right after it. */
  lemma NewIsFloor(f: DcFile, ds: seq<int>, m: DcMcu)
    requires |ds| == |m| && (f.refine ==> ds == Floors(f.al + 1, m))
    ensures New(f, ds, m) == Floors(f.al, m)
  {
    hide Floors, Ored;
    OredFloors(f.al, m);
  }

  lemma SentParts(f: DcFile, s: nat, n: nat)
    requires f.Within(s, n)
    ensures f.Sent(s, n)
    ensures n == 0 ==> f.Rest(s, n) == f.Segs()[s] + Padding(|f.Segs()[s]|) && f.LastAt(s, n) == NoPrediction(|f.ts|)
  {
    hide Segments.Groups, Joined, DcEncoder.Sendable, LastAfter, FirstBits, RefineBits, ItemsOk, Padding;
    var g := f.Groups()[s];
    JoinedSplit(g, n);
    if n == 0 {
      assert g[0..] == g && Joined(g[..0]) == [] by { NothingJoined(g); }
    }
    if !f.refine {
      SendableSegment(f, s);
      ItemsSplit(f.Early(s, n), f.Late(s, n), |f.ts|);
      SendableJoin(f.ts, f.al, f.Early(s, n), f.Late(s, n), NoPrediction(|f.ts|));
      NothingBefore(f);
    }
  }

  lemma NothingJoined(g: seq<DcMcu>)
    ensures Joined(g[..0]) == []
  {
  }

  lemma NothingBefore(f: DcFile)
    ensures ItemsOk([], |f.ts|) && LastAfter(f.al, [], NoPrediction(|f.ts|)) == NoPrediction(|f.ts|)
  {
  }

  lemma ItemsSplit(a: seq<Item>, b: seq<Item>, comps: nat)
    requires ItemsOk(a + b, comps)
    ensures ItemsOk(a, comps) && ItemsOk(b, comps)
  {
    forall i | 0 <= i < |a|
      ensures a[i].ci < comps
    {
      assert (a + b)[i] == a[i];
    }
    forall i | 0 <= i < |b|
      ensures b[i].ci < comps
    {
      assert (a + b)[|a| + i] == b[i];
    }
  }

  lemma SendableSegment(f: DcFile, s: nat)
    requires f.Coded() && !f.refine && s < |f.Groups()|
    ensures ItemsOk(Joined(f.Groups()[s]), |f.ts|) && ValidTables(f.ts, |f.ts|)
    ensures DcEncoder.Sendable(f.ts, f.al, Joined(f.Groups()[s]), NoPrediction(|f.ts|))
    ensures f.Segs()[s] == FirstBits(f.ts, f.al, Joined(f.Groups()[s]), NoPrediction(|f.ts|))
  {
    hide Segments.Groups, Joined, DcEncoder.Sendable, FirstBits;
    assert f.Of().GroupSendable(f.Groups()[s]);
  }

  /** Each MCU is one of those of the scan. */
  lemma McuKnown(f: DcFile, s: nat, n: nat)
    requires f.Ok() && s < |f.Groups()| && n < |f.Groups()[s]|
    ensures f.IsMcu(f.Groups()[s][n])
  {
    hide Segments.Groups, DcFile.Coded, DcFile.IsMcu;
    var g := f.Groups();
    JoinedGroups(f.mcus, f.interval);
    JoinedAround(g, s);
    var i := |Joined(g[..s])| + n;
    assert f.mcus[i] == g[s][n];
  }

  /** The next MCU comes out as it should, whatever is held. */
  lemma McuComes(f: DcFile, s: nat, n: nat, ds: seq<int>)
    requires f.Ok() && s < |f.Groups()| && n < |f.Groups()[s]| && |ds| == |f.mem|
    ensures f.Sent(s, n) && f.Sent(s, n + 1) && |f.Groups()[s][n]| == |ds|
    ensures DcOk(f.refine, f.ts, f.mem, f.LastAt(s, n))
    ensures DcOutcome(f.refine, f.al, f.ts, f.mem, f.LastAt(s, n), ds, f.Rest(s, n))
        == Got((New(f, ds, f.Groups()[s][n]), f.LastAt(s, n + 1)), f.Rest(s, n + 1))
  {
    hide Segments.Groups, Joined, DcEncoder.Sendable, LastAfter, FirstBits, RefineBits, ItemsOk, Padding, DecodeValues,
        DecodeRefine, Floors, Ored, DcFile.Segs, DcScanOf.AllSendable;
    SentParts(f, s, n);
    SentParts(f, s, n + 1);
    McuKnown(f, s, n);
    var g, pad := f.Groups()[s], Padding(|f.Segs()[s]|);
    var m, later := g[n], f.Late(s, n + 1);
    assert g[n..] == [m] + g[n + 1..];
    JoinedFirst(g, n);
    if f.refine {
      RefineJoin(f.al, m, later);
      RefineAny(f.al, ds, m, RefineBits(f.al, later) + pad);
      assert (RefineBits(f.al, m) + RefineBits(f.al, later)) + pad
          == RefineBits(f.al, m) + (RefineBits(f.al, later) + pad);
    } else {
      FirstComes(f, s, n, pad);
      ShiftedIsFloor(f.al, m);
    }
  }

  lemma JoinedFirst(g: seq<DcMcu>, n: nat)
    requires n < |g|
    ensures Joined(g[n..]) == g[n] + Joined(g[n + 1..])
    ensures Joined(g[..n + 1]) == Joined(g[..n]) + g[n]
  {
    assert g[n..][1..] == g[n + 1..];
    assert g[..n + 1] == g[..n] + [g[n]];
    JoinedSnoc(g[..n], g[n]);
  }

  /** The first MCU of those that have been sent. */
  lemma FirstStep(ts: seq<HuffTable>, al: nat, m: seq<Item>, later: seq<Item>, last: seq<int>, pad: BitSeq)
    requires ValidTables(ts, |last|) && ItemsOk(m, |last|) && ItemsOk(later, |last|) && ItemsOk(m + later, |last|)
    requires DcEncoder.Sendable(ts, al, m + later, last)
    ensures DcEncoder.Sendable(ts, al, later, LastAfter(al, m, last))
    ensures DecodeValues(ts, Components(m), last, FirstBits(ts, al, m + later, last) + pad)
        == Got((Shifted(al, m), LastAfter(al, m, last)), FirstBits(ts, al, later, LastAfter(al, m, last)) + pad)
  {
    hide DcEncoder.Sendable, LastAfter, FirstBits, DecodeValues, ItemsOk, HuffTable.Shaped, HuffTable.ValidCounts;
    SendableJoin(ts, al, m, later, last);
    SendableBits(ts, al, m, last);
    SendableBits(ts, al, later, LastAfter(al, m, last));
    var rest := FirstBits(ts, al, later, LastAfter(al, m, last)) + pad;
    McuFirstRoundTrip(ts, al, m, last, rest);
    var bits := FirstBits(ts, al, m, last);
    assert (bits + FirstBits(ts, al, later, LastAfter(al, m, last))) + pad == bits + rest;
  }

  lemma SendableBits(ts: seq<HuffTable>, al: nat, items: seq<Item>, last: seq<int>)
    requires ValidTables(ts, |last|) && ItemsOk(items, |last|) && DcEncoder.Sendable(ts, al, items, last)
    ensures DiffsCoded(ts, al, items, last)
  {
    hide DiffsCoded, DiffsSmall, ItemsOk, HuffTable.Shaped, HuffTable.ValidCounts;
  }

  lemma FirstComes(f: DcFile, s: nat, n: nat, pad: BitSeq)
    requires f.Ok() && !f.refine && s < |f.Groups()| && n < |f.Groups()[s]| && f.IsMcu(f.Groups()[s][n])
    requires f.Sent(s, n) && f.Sent(s, n + 1)
    ensures DcOk(false, f.ts, f.mem, f.LastAt(s, n)) && DiffsCoded(f.ts, f.al, f.Late(s, n), f.LastAt(s, n))
    ensures DiffsCoded(f.ts, f.al, f.Late(s, n + 1), f.LastAt(s, n + 1))
    ensures DecodeValues(f.ts, f.mem, f.LastAt(s, n), FirstBits(f.ts, f.al, f.Late(s, n), f.LastAt(s, n)) + pad)
        == Got((Shifted(f.al, f.Groups()[s][n]), f.LastAt(s, n + 1)),
            FirstBits(f.ts, f.al, f.Late(s, n + 1), f.LastAt(s, n + 1)) + pad)
  {
    hide Segments.Groups, Joined, DcEncoder.Sendable, LastAfter, FirstBits, Padding, DecodeValues, ItemsOk, DcFile.Ok,
        DiffsCoded, HuffTable.Shaped, HuffTable.ValidCounts, DcFile.IsMcu;
    var m, later, last := f.Groups()[s][n], f.Late(s, n + 1), f.LastAt(s, n);
    JoinedFirst(f.Groups()[s], n);
    McuItems(f, m);
    LastJoin(f.al, f.Early(s, n), m, NoPrediction(|f.ts|));
    FirstStep(f.ts, f.al, m, later, last, pad);
    SendableBits(f.ts, f.al, f.Late(s, n), last);
    SendableBits(f.ts, f.al, later, f.LastAt(s, n + 1));
  }

  lemma McuItems(f: DcFile, m: DcMcu)
    requires f.Ok() && !f.refine && f.IsMcu(m)
    ensures ItemsOk(m, |f.ts|) && Components(m) == f.mem && forall j | 0 <= j < |f.mem| :: f.mem[j] < |f.ts|
  {
    hide DcFile.Coded;
  }

  lemma ShiftedIsFloor(al: nat, m: DcMcu)
    ensures Scaled(al, Shifted(al, m)) == Floors(al, m)
  {
    hide Shr, Pow2;
  }

  // ---------------------------------------------------------------- where decoding stands

  /** The marker after segment `s`, and what follows it. */
  ghost predicate AfterSegment(f: DcFile, all: seq<Byte>, s: nat, ahead: Next)
  {
    && f.Coded() && s < |f.Groups()| && ahead.Marker? && |f.following| >= 2
    && (s + 1 < |f.Groups()| ==> ahead.m == RST0 + s % 8 && AtSegment(all, ahead.pos, f.Segs(), s + 1, f.following))
    && (s + 1 == |f.Groups()| ==> ahead.m == f.following[1])
  }

  /** The next MCU is number `n` of segment `s`. */
  ghost predicate EntryFor(f: DcFile, all: seq<Byte>, s: nat, n: nat, e: DcEntry)
  {
    && f.Ok() && f.Sent(s, n) && n < |f.Groups()[s]|
    && e.EntryAt? && e.bits == f.Rest(s, n) && AfterSegment(f, all, s, e.ahead) && e.last == f.LastAt(s, n)
    && !e.insufficient && CountsDown(f.interval, e.toGo, n) && (f.interval > 0 ==> e.toGo > 0) && e.num == s % 8
  }

  /** The decoder is set up for this scan. */
  ghost predicate For(dec: ProgDcScanDecoder, f: DcFile)
  {
    && dec.dc.al == f.al && dec.dc.ts == f.ts && dec.mem == f.mem && dec.refine == f.refine
    && dec.interval == f.interval
  }

  /** What is left of the segment, and the predictions. */
  ghost predicate Level(dec: ProgDcScanDecoder, f: DcFile, all: seq<Byte>, s: nat, n: nat)
    requires f.Sent(s, n) && dec.dc.br.pos <= |all|
    reads dec.dc, dec.dc.br
  {
    if n == |f.Groups()[s]| then |dec.Left(all)| < 8
    else !dec.dc.br.insufficient && dec.Left(all) == f.Rest(s, n) && dec.dc.lastDcVal == f.LastAt(s, n)
  }

  /** The decoder has finished `n` MCUs of segment `s`. */
  ghost predicate Stands(dec: ProgDcScanDecoder, f: DcFile, all: seq<Byte>, s: nat, n: nat)
    reads dec, dec.dc, dec.dc.br, dec.mr
  {
    && f.Sent(s, n) && dec.dc.br.pos <= |all| && Level(dec, f, all, s, n)
    && dec.Valid() && f.Ok() && For(dec, f) && dec.Clean() && CountsDown(f.interval, dec.restartsToGo, n)
       && dec.mr.nextRestartNum == s % 8
    && AfterSegment(f, all, s, Ahead(all, dec.dc.br.pos, dec.dc.br.unreadMarker))
  }

  lemma WithinParts(f: DcFile, s: nat, n: nat)
    requires f.Sent(s, n)
    ensures f.Coded() && s < |f.Groups()| && n <= |f.Groups()[s]|
  {
    hide Segments.Groups, DcFile.Coded, DcEncoder.Sendable;
  }

  /** Inside a segment no restart is due. */
  lemma EntryWithin(dec: ProgDcScanDecoder, f: DcFile, all: seq<Byte>, s: nat, n: nat)
    requires Stands(dec, f, all, s, n) && s < |f.Groups()| && n < |f.Groups()[s]|
    ensures EntryFor(f, all, s, n, dec.EntryIn(all)) && !dec.RestartDue()
  {
    hide Segments.Groups, DcFile.Ok, DcFile.Coded, DcFile.Sent, ProgDcScanDecoder.Valid, ToRead, Ahead, AfterSegment,
        DcFile.Rest, DcFile.LastAt;
    WithinParts(f, s, n);
    GroupSizes(f.mcus, f.interval, s);
  }

  lemma FileCoded(f: DcFile)
    requires f.Ok()
    ensures f.Coded() && StartsMarker(f.following)
  {
    hide DcFile.Coded;
  }

  /** After a segment comes its restart marker, and with it the next segment. */
  lemma EntryNext(dec: ProgDcScanDecoder, f: DcFile, all: seq<Byte>, s: nat)
    requires s < |f.Groups()| && Stands(dec, f, all, s, |f.Groups()[s]|) && s + 1 < |f.Groups()|
        && f.Groups()[s + 1] != []
    ensures EntryFor(f, all, s + 1, 0, dec.EntryIn(all)) && |dec.Left(all)| < 8
  {
    hide Segments.Groups, DcFile.Ok, DcFile.Coded, DcFile.Sent, ProgDcScanDecoder.Valid, ToRead, RestBytes, Unpack,
        RestEnd, DcFile.Rest, DcFile.LastAt, DcFile.Segs, ScanFrom, Padding;
    FileCoded(f);
    GroupSizes(f.mcus, f.interval, s);
    var ahead := Ahead(all, dec.dc.br.pos, dec.dc.br.unreadMarker);
    AtRestart(f, all, s, ahead);
    SentParts(f, s + 1, 0);
  }

  lemma AtRestart(f: DcFile, all: seq<Byte>, s: nat, ahead: Next)
    requires s + 1 < |f.Groups()| && AfterSegment(f, all, s, ahead)
    ensures f.Coded() && ahead.m == RST0 + s % 8 && ahead.pos <= |all|
    ensures Unpack(RestBytes(all, ahead.pos)) == f.Segs()[s + 1] + Padding(|f.Segs()[s + 1]|)
    ensures AfterSegment(f, all, s + 1, RestEnd(all, ahead.pos))
  {
    hide Segments.Groups, DcFile.Coded, DcFile.Segs, RestBytes, Unpack, RestEnd, ScanFrom, AtSegment, Padding;
    AtSegmentPos(all, ahead.pos, f.Segs(), s + 1, f.following);
    var next := ReadSegment(all, ahead.pos, f.Segs(), s + 1, f.following);
  }

  // ---------------------------------------------------------------- one MCU

  /** Decoding the MCU at the entry over the values `ds` gives `vs`, which is what is due. */
  ghost predicate Due(dec: ProgDcScanDecoder, f: DcFile, s: nat, n: nat, e: DcEntry, ds: seq<int>, vs: seq<int>)
  {
    f.Sent(s, n + 1) && dec.EntryOk(e) && dec.Outcome1(e, ds, []) == Got((vs, f.LastAt(s, n + 1)), f.Rest(s, n + 1))
  }

  lemma FirstDue(dec: ProgDcScanDecoder, f: DcFile, all: seq<Byte>, s: nat, n: nat, e: DcEntry, ds: seq<int>)
    requires EntryFor(f, all, s, n, e) && For(dec, f) && |ds| == |f.mem|
    ensures s < |f.Groups()| && n < |f.Groups()[s]| && |f.Groups()[s][n]| == |ds|
    ensures Due(dec, f, s, n, e, ds, New(f, ds, f.Groups()[s][n]))
  {
    hide Segments.Groups, DcFile.Sent, DcFile.Ok, AfterSegment, DcFile.Rest, DcFile.LastAt, New, DcOutcome, DcOk;
    WithinParts(f, s, n);
    McuComes(f, s, n, ds);
    assert e.bits + [] == e.bits;
  }

  /** The values that come out are those that are due. */
  lemma McuArrived(dec: ProgDcScanDecoder, f: DcFile, all: seq<Byte>, s: nat, n: nat, e: DcEntry, ds: seq<int>,
        vs: seq<int>, zeros: nat, ds': seq<int>)
    requires dec.Valid() && dec.Clean() && dec.dc.br.pos <= |all| && EntryFor(f, all, s, n, e) && For(dec, f)
    requires Due(dec, f, s, n, e, ds, vs) && dec.Decoded(e, ds, zeros, ds', dec.Left(all))
    requires dec.Advanced(e, Ahead(all, dec.dc.br.pos, dec.dc.br.unreadMarker))
    ensures ds' == vs && Stands(dec, f, all, s, n + 1) && !dec.dc.br.insufficient
  {
    hide Segments.Groups, DcFile.Sent, AfterSegment, DcFile.Ok, DcFile.Coded, DcFile.Rest, DcFile.LastAt,
        ProgDcScanDecoder.Valid, ToRead, Ahead, ProgDcScanDecoder.Outcome1, ProgDcScanDecoder.EntryOk;
    if zeros == 0 {
      DcDecoder.NoZeroBits();
    }
    WithinParts(f, s, n + 1);
    GroupSizes(f.mcus, f.interval, s);
    if n + 1 == |f.Groups()[s]| {
      EndOfSegment(f, s);
    }
  }

  /** Only padding is left at the end of a segment. */
  lemma EndOfSegment(f: DcFile, s: nat)
    requires f.Coded() && s < |f.Groups()|
    ensures f.Sent(s, |f.Groups()[s]|) && |f.Rest(s, |f.Groups()[s]|)| < 8
  {
    hide Segments.Groups, DcFile.Coded, DcEncoder.Sendable, LastAfter, ItemsOk;
    var g := f.Groups()[s];
    SentParts(f, s, |g|);
    assert g[|g|..] == [];
  }

  // ---------------------------------------------------------------- the whole scan

  /** The decoder stands before MCU `n` of segment `s`, which may be the start of the segment after the one it is
      in. */
  ghost predicate Before1(dec: ProgDcScanDecoder, f: DcFile, all: seq<Byte>, s: nat, n: nat)
    reads dec, dec.dc, dec.dc.br, dec.mr
  {
    && dec.dc.br.pos <= |all| && (dec.RestartDue() ==> |dec.Left(all)| < 8)
       && EntryFor(f, all, s, n, dec.EntryIn(all))
    && dec.Valid() && For(dec, f) && dec.Clean()
  }

  lemma BeforeMcu(dec: ProgDcScanDecoder, f: DcFile, all: seq<Byte>, i: nat, s: nat, n: nat) returns (s': nat, n': nat)
    requires Stands(dec, f, all, s, n) && Reached(f.mcus, f.interval, i, s, n) && i < |f.mcus|
    ensures Before1(dec, f, all, s', n') && Reached(f.mcus, f.interval, i, s', n')
        && Reached(f.mcus, f.interval, i + 1, s', n' + 1)
    ensures s' < |f.Groups()| && n' < |f.Groups()[s']| && f.Groups()[s'][n'] == f.mcus[i]
  {
    hide Segments.Groups, DcFile.Sent, AfterSegment, DcFile.Ok, DcFile.Coded, DcFile.Rest, DcFile.LastAt,
        ProgDcScanDecoder.Valid, ToRead, Ahead, ProgDcScanDecoder.EntryIn, EntryFor, Reached;
    WithinParts(f, s, n);
    ReachedNext(f.mcus, f.interval, i, s, n);
    if n < |f.Groups()[s]| {
      EntryWithin(dec, f, all, s, n);
      s', n' := s, n;
    } else {
      EntryNext(dec, f, all, s);
      s', n' := s + 1, 0;
    }
  }

  /** ... and `blocks` will hold `vs`, whatever an interrupted attempt has stored there. */
  ghost predicate Trying(dec: ProgDcScanDecoder, f: DcFile, all: seq<Byte>, s: nat, n: nat, blocks: seq<array<int>>,
        vs: seq<int>)
    reads dec, dec.dc, dec.dc.br, dec.mr, blocks
  {
    && Before1(dec, f, all, s, n) && Blocks(blocks) && |blocks| == |f.mem|
    && Due(dec, f, s, n, dec.EntryIn(all), DcOf(blocks), vs)
  }

  /** One call of the decoder. */
  method Attempt(dec: ProgDcScanDecoder, blocks: seq<array<int>>, ghost f: DcFile, ghost more: seq<Byte>, ghost s: nat,
        ghost n: nat, ghost vs: seq<int>) returns (ok: bool)
    requires Trying(dec, f, dec.dc.br.data + more, s, n, blocks, vs)
    modifies dec, dec.dc, dec.dc.br, dec.mr, blocks
    ensures dec.dc.br.data == old(dec.dc.br.data) && Blocks(blocks) && OnlyDc(blocks)
    ensures ok ==> Stands(dec, f, dec.dc.br.data + more, s, n + 1) && !dec.dc.br.insufficient && DcOf(blocks) == vs
    ensures !ok ==> Trying(dec, f, dec.dc.br.data + more, s, n, blocks, vs) && more != []
  {
    hide Segments.Groups, DcFile.Sent, AfterSegment, DcFile.Ok, DcFile.Coded, DcFile.Rest, DcFile.LastAt, ToRead,
        Ahead, ProgDcScanDecoder.EntryIn, Due, DcOf, Blocks, Usable1, ProgDcScanDecoder.Decoded,
        ProgDcScanDecoder.Advanced, ProgDcScanDecoder.Undecoded, ProgDcScanDecoder.Outcome1,
        ProgDcScanDecoder.EntryOk;
    ghost var all := dec.dc.br.data + more;
    ghost var e, ds := dec.EntryIn(all), DcOf(blocks);
    var r;
    ghost var zeros;
    DueOk(dec, f, s, n, e, ds, vs);
    r, zeros := dec.DecodeMcu(blocks, more);
    ok := r == Done;
    if ok {
      McuArrived(dec, f, all, s, n, e, ds, vs, zeros, DcOf(blocks));
    } else {
      DueAgain(dec, f, s, n, e, ds, DcOf(blocks), vs);
      StillComing(dec, f, all, s, n);
      assert dec.dc.br.data + [] == dec.dc.br.data;
    }
  }

  lemma DueOk(dec: ProgDcScanDecoder, f: DcFile, s: nat, n: nat, e: DcEntry, ds: seq<int>, vs: seq<int>)
    requires Due(dec, f, s, n, e, ds, vs)
    ensures dec.EntryOk(e)
  {
  }

  lemma DueAgain(dec: ProgDcScanDecoder, f: DcFile, s: nat, n: nat, e: DcEntry, ds: seq<int>, ds': seq<int>,
        vs: seq<int>)
    requires Due(dec, f, s, n, e, ds, vs) && dec.Undecoded(e, ds, ds')
    ensures Due(dec, f, s, n, e, ds', vs)
  {
    hide DcFile.Sent, DcFile.Rest, DcFile.LastAt, ProgDcScanDecoder.Outcome1, ProgDcScanDecoder.EntryOk;
  }

  /** While the marker after the segment has not been seen there are data to come. */
  lemma StillComing(dec: ProgDcScanDecoder, f: DcFile, all: seq<Byte>, s: nat, n: nat)
    requires dec.dc.br.pos <= |all| && EntryFor(f, all, s, n, dec.EntryIn(all))
    ensures Ahead(all, dec.dc.br.pos, dec.dc.br.unreadMarker).Marker?
  {
    hide Segments.Groups, DcFile.Ok, DcFile.Coded, DcFile.Sent, DcFile.Rest, DcFile.LastAt, ToRead, RestEnd,
        RestBytes, Unpack;
  }

  /** The source delivers another chunk. */
  method Arrive(dec: ProgDcScanDecoder, chunk: seq<Byte>, ghost f: DcFile, ghost all: seq<Byte>, ghost s: nat,
        ghost n: nat, ghost blocks: seq<array<int>>, ghost vs: seq<int>)
    requires Trying(dec, f, all, s, n, blocks, vs)
    modifies dec.dc.br`data
    ensures Trying(dec, f, all, s, n, blocks, vs) && dec.dc.br.data == old(dec.dc.br.data) + chunk
  {
    hide Segments.Groups, ToRead, Ahead, EntryFor, Due, Usable1;
    dec.dc.br.data := dec.dc.br.data + chunk;
  }

  /** The MCU at which the decoder stands, waiting for data as long as it has to. */
  method NextMcu(dec: ProgDcScanDecoder, blocks: seq<array<int>>, chunks: seq<seq<Byte>>, used0: nat, ghost f: DcFile,
        ghost all: seq<Byte>, ghost s: nat, ghost n: nat)
    returns (used: nat)
    requires used0 <= |chunks| && dec.dc.br.data + Joined(chunks[used0..]) == all && Before1(dec, f, all, s, n)
    requires Blocks(blocks) && |blocks| == |f.mem| && s < |f.Groups()| && n < |f.Groups()[s]|
        && |f.Groups()[s][n]| == |blocks|
    modifies dec, dec.dc, dec.dc.br, dec.mr, blocks
    ensures used0 <= used <= |chunks| && dec.dc.br.data + Joined(chunks[used..]) == all
    ensures Stands(dec, f, all, s, n + 1) && !dec.dc.br.insufficient && OnlyDc(blocks)
    ensures DcOf(blocks) == New(f, old(DcOf(blocks)), f.Groups()[s][n])
  {
    hide Segments.Groups, DcFile.Ok, DcFile.Coded, DcFile.Sent, ProgDcScanDecoder.Valid, ToRead, Ahead, DcFile.Rest,
        DcFile.LastAt, New, Joined, Stands, Due, ProgDcScanDecoder.EntryIn, EntryFor, DcOf, Blocks;
    used := used0;
    ghost var vs := New(f, DcOf(blocks), f.Groups()[s][n]);
    FirstDue(dec, f, all, s, n, dec.EntryIn(all), DcOf(blocks));
    var ok := Attempt(dec, blocks, f, Joined(chunks[used..]), s, n, vs);
    while !ok
      invariant used0 <= used <= |chunks| && dec.dc.br.data + Joined(chunks[used..]) == all && OnlyDc(blocks)
      invariant ok ==> Stands(dec, f, all, s, n + 1) && !dec.dc.br.insufficient && DcOf(blocks) == vs
      invariant !ok ==> Trying(dec, f, all, s, n, blocks, vs) && Joined(chunks[used..]) != []
      decreases |chunks| - used
    {
      ChunksLeft(chunks, used);
      ghost var data := dec.dc.br.data;
      Arrive(dec, chunks[used], f, all, s, n, blocks, vs);
      assert data + (chunks[used] + Joined(chunks[used + 1..])) == (data + chunks[used]) + Joined(chunks[used + 1..]);
      used := used + 1;
      ok := Attempt(dec, blocks, f, Joined(chunks[used..]), s, n, vs);
    }
  }

  // ---------------------------------------------------------------- all MCUs

  /** The decoder stands before the scan, set up for it. */
  ghost predicate Starts1(dec: ProgDcScanDecoder, f: DcFile, all: seq<Byte>)
    reads dec, dec.dc, dec.dc.br, dec.mr
  {
    var br := dec.dc.br;
    && br.pos <= |all| && f.Ok() && all[br.pos..] == ScanBytes(f.Segs()) + f.following
    && dec.Valid() && For(dec, f) && dec.dc.lastDcVal == NoPrediction(|f.ts|) && dec.restartsToGo == f.interval
       && dec.mr.nextRestartNum == 0 && dec.Clean()
    && br.bitsLeft == 0 && br.unreadMarker == 0 && !br.insufficient
  }

  /** It stands at the marker after the scan; no data were made up, and none were skipped. */
  ghost predicate Ends1(dec: ProgDcScanDecoder, f: DcFile, all: seq<Byte>)
    reads dec, dec.dc, dec.dc.br, dec.mr
  {
    && dec.Valid() && dec.Clean() && !dec.dc.br.insufficient && dec.dc.br.pos <= |all|
    && var ahead := Ahead(all, dec.dc.br.pos, dec.dc.br.unreadMarker);
      ahead.Marker? && |f.following| >= 2 && ahead.m == f.following[1]
  }

  lemma StartsOk(dec: ProgDcScanDecoder, f: DcFile, all: seq<Byte>)
    requires Starts1(dec, f, all)
    ensures f.Ok()
  {
    hide DcFile.Ok, ToRead;
  }

  lemma AtStart1(dec: ProgDcScanDecoder, f: DcFile, all: seq<Byte>)
    requires Starts1(dec, f, all)
    ensures Stands(dec, f, all, 0, 0) && !dec.dc.br.insufficient
  {
    hide Segments.Groups, DcFile.Ok, DcFile.Coded, DcFile.Sent, DcFile.Segs, Usable1, ToRead, RestEnd, RestBytes,
        Unpack, DcFile.Rest, DcFile.LastAt, ScanFrom, ScanBytes, Padding;
    FileCoded(f);
    var segs := f.Segs();
    ScanSplits(segs, 0);
    NoneMarked(segs);
    var next := ReadSegment(all, dec.dc.br.pos, segs, 0, f.following);
    FreshRead(all, dec.dc.br.pos, dec.dc.br.getBuffer);
    SentParts(f, 0, 0);
    if |f.Groups()[0]| == 0 {
      EndOfSegment(f, 0);
    }
  }

  lemma AtEnd1(dec: ProgDcScanDecoder, f: DcFile, all: seq<Byte>, s: nat, n: nat)
    requires Stands(dec, f, all, s, n) && Reached(f.mcus, f.interval, |f.mcus|, s, n) && !dec.dc.br.insufficient
    ensures Ends1(dec, f, all)
  {
    hide Segments.Groups, Usable1, ToRead, Ahead, DcFile.Ok, DcFile.Coded, DcFile.Sent, DcFile.Rest, DcFile.LastAt,
        DcFile.Segs;
    var g := f.Groups();
    JoinedGroups(f.mcus, f.interval);
    JoinedAround(g, s);
    assert |g[s][..n]| == n;
    if s + 1 < |g| {
      GroupSizes(f.mcus, f.interval, s + 1);
      JoinedAround(g, s + 1);
      JoinedPrefix(g, s);
    }
  }

  /** Where the blocks of MCU `i` are among all of them, when every MCU has `w`. */
  lemma Slot(i: nat, n: nat, w: nat)
    requires i < n
    ensures (i + 1) * w == i * w + w && i * w + w <= n * w
  {
    if w > 0 {
      MulAtLeast(n - i, w);
    }
    assert (n - i) * w == n * w - i * w;
  }

  /** The DC values of the first `i` MCUs are as the scan leaves them, those of the others as they were. */
  ghost predicate BroughtUpTo(f: DcFile, ds: seq<int>, cur: seq<int>, i: nat)
  {
    && |cur| == |ds| == |f.mcus| * |f.mem| && i <= |f.mcus| && i * |f.mem| <= |cur|
    && cur[i * |f.mem|..] == ds[i * |f.mem|..] && forall j: nat | j < i :: McuBrought(f, ds, cur, j)
  }

  ghost predicate McuBrought(f: DcFile, ds: seq<int>, cur: seq<int>, j: nat)
  {
    var lo := j * |f.mem|; var hi := lo + |f.mem|;
    j < |f.mcus| && |f.mcus[j]| == |f.mem| && hi <= |cur| == |ds| && cur[lo..hi] == New(f, ds[lo..hi], f.mcus[j])
  }

  /** The DC values of all blocks are as the scan leaves them. */
  ghost predicate AllBrought(f: DcFile, ds: seq<int>, cur: seq<int>)
  {
    |cur| == |ds| == |f.mcus| * |f.mem| && forall j: nat | j < |f.mcus| :: McuBrought(f, ds, cur, j)
  }

  lemma OneMoreBrought(f: DcFile, ds: seq<int>, cur: seq<int>, i: nat, cur': seq<int>)
    requires BroughtUpTo(f, ds, cur, i) && i < |f.mcus| && |f.mcus[i]| == |f.mem| && |cur'| == |cur|
    requires i * |f.mem| + |f.mem| <= |cur|
    requires var lo := i * |f.mem|; var hi := lo + |f.mem|;
      cur' == cur[..lo] + New(f, cur[lo..hi], f.mcus[i]) + cur[hi..]
    ensures BroughtUpTo(f, ds, cur', i + 1)
  {
    hide New;
    var w := |f.mem|;
    var lo := i * w;
    var hi := lo + w;
    Slot(i, |f.mcus|, w);
    assert cur[lo..][..w] == cur[lo..hi] && ds[lo..][..w] == ds[lo..hi];
    assert cur[lo..][w..] == cur[hi..] && ds[lo..][w..] == ds[hi..];
    forall j: nat | j < i + 1
      ensures McuBrought(f, ds, cur', j)
    {
      if j < i {
        Slot(j, i, w);
        assert McuBrought(f, ds, cur, j);
        assert cur'[j * w..j * w + w] == cur[j * w..j * w + w];
      } else {
        assert cur'[lo..hi] == New(f, ds[lo..hi], f.mcus[i]);
      }
    }
  }

  lemma NoneBrought(f: DcFile, ds: seq<int>)
    requires |ds| == |f.mcus| * |f.mem|
    ensures BroughtUpTo(f, ds, ds, 0)
  {
    assert 0 * |f.mem| == 0;
  }

  lemma NowAllBrought(f: DcFile, ds: seq<int>, cur: seq<int>)
    requires BroughtUpTo(f, ds, cur, |f.mcus|)
    ensures AllBrought(f, ds, cur)
  {
    hide McuBrought;
  }

  lemma SliceBlocks(blocks: seq<array<int>>, lo: nat, hi: nat)
    requires Blocks(blocks) && lo <= hi <= |blocks|
    ensures Blocks(blocks[lo..hi]) && DcOf(blocks[lo..hi]) == DcOf(blocks)[lo..hi]
    ensures forall j | 0 <= j < |blocks| && !(lo <= j < hi) :: blocks[j] !in blocks[lo..hi]
  {
    forall j | 0 <= j < |blocks| && !(lo <= j < hi)
      ensures blocks[j] !in blocks[lo..hi]
    {
      forall k | 0 <= k < hi - lo
        ensures blocks[lo..hi][k] != blocks[j]
      {
        assert blocks[lo..hi][k] == blocks[lo + k];
      }
    }
  }

  /** MCU `i` of the scan, in its place among all blocks. */
  method DecodeArea1(dec: ProgDcScanDecoder, blocks: seq<array<int>>, lo: nat, hi: nat, chunks: seq<seq<Byte>>,
        used0: nat, ghost f: DcFile, ghost all: seq<Byte>, ghost s: nat, ghost n: nat)
    returns (used: nat)
    requires used0 <= |chunks| && dec.dc.br.data + Joined(chunks[used0..]) == all && Before1(dec, f, all, s, n)
    requires Blocks(blocks) && lo <= hi <= |blocks| && hi - lo == |f.mem|
    requires s < |f.Groups()| && n < |f.Groups()[s]| && |f.Groups()[s][n]| == |f.mem|
    modifies dec, dec.dc, dec.dc.br, dec.mr, blocks[lo..hi]
    ensures used0 <= used <= |chunks| && dec.dc.br.data + Joined(chunks[used..]) == all
    ensures Stands(dec, f, all, s, n + 1) && !dec.dc.br.insufficient && Blocks(blocks) && OnlyDc(blocks)
    ensures DcOf(blocks) == old(DcOf(blocks))[..lo] + New(f, old(DcOf(blocks))[lo..hi], f.Groups()[s][n])
        + old(DcOf(blocks))[hi..]
  {
    hide Segments.Groups, ToRead, Ahead, Joined, Before1, Stands, New;
    SliceBlocks(blocks, lo, hi);
    ghost var ds, vs := DcOf(blocks), New(f, DcOf(blocks)[lo..hi], f.Groups()[s][n]);
    used := NextMcu(dec, blocks[lo..hi], chunks, used0, f, all, s, n);
    SliceBlocks(blocks, lo, hi);
    ghost var now, want := DcOf(blocks), ds[..lo] + vs + ds[hi..];
    forall j | 0 <= j < |blocks|
      ensures now[j] == want[j] && blocks[j][1..] == old(blocks[j][1..])
    {
      if lo <= j < hi {
        assert now[lo..hi][j - lo] == vs[j - lo] && blocks[lo..hi][j - lo] == blocks[j];
      }
    }
    assert now == want;
  }

  /** Decode MCU after MCU of a scan, in place, waiting for the next chunk of data whenever the source runs dry.
      However the data are cut into chunks, and wherever the restart markers are, the DC value of every block is
      brought to the precision of the scan, and nothing else changes. */
  method DecodeDcScan(dec: ProgDcScanDecoder, blocks: seq<array<int>>, total: nat, chunks: seq<seq<Byte>>,
        ghost f: DcFile)
    requires Blocks(blocks) && total == |f.mcus| && |blocks| == total * |f.mem|
    requires Starts1(dec, f, dec.dc.br.data + Joined(chunks))
    modifies dec, dec.dc, dec.dc.br, dec.mr, blocks
    ensures Blocks(blocks) && OnlyDc(blocks) && AllBrought(f, old(DcOf(blocks)), DcOf(blocks))
    ensures Ends1(dec, f, old(dec.dc.br.data) + Joined(chunks))
  {
    hide Segments.Groups, ToRead, Ahead, Joined, Reached, Before1, Stands, Starts1, New, DcOf, AllBrought, BroughtUpTo,
        DcFile.Ok, DcFile.Sent, DcFile.Coded, EntryFor, ProgDcScanDecoder.Valid, Ends1, DcFile.IsMcu, Blocks;
    ghost var all, ds := dec.dc.br.data + Joined(chunks), DcOf(blocks);
    ghost var s, n := 0, 0;
    var used := 0;
    AtStart1(dec, f, all);
    StartsOk(dec, f, all);
    NoneBrought(f, ds);
    ReachedStart(f.mcus, f.interval);
    assert chunks[0..] == chunks;
    for i := 0 to total
      invariant used <= |chunks| && dec.dc.br.data + Joined(chunks[used..]) == all
      invariant Stands(dec, f, all, s, n) && Reached(f.mcus, f.interval, i, s, n) && !dec.dc.br.insufficient
      invariant Blocks(blocks) && OnlyDc(blocks) && BroughtUpTo(f, ds, DcOf(blocks), i)
    {
      ghost var s', n' := BeforeMcu(dec, f, all, i, s, n);
      McuWidth(dec, f, all, s', n', i);
      var w := |dec.mem|;
      Slot(i, total, w);
      ghost var cur := DcOf(blocks);
      used := DecodeArea1(dec, blocks, i * w, i * w + w, chunks, used, f, all, s', n');
      OneMoreBrought(f, ds, cur, i, DcOf(blocks));
      s, n := s', n' + 1;
    }
    NowAllBrought(f, ds, DcOf(blocks));
    AtEnd1(dec, f, all, s, n);
  }

  lemma McuWidth(dec: ProgDcScanDecoder, f: DcFile, all: seq<Byte>, s: nat, n: nat, i: nat)
    requires f.Ok() && Before1(dec, f, all, s, n) && i < |f.mcus|
    ensures dec.mem == f.mem && |f.mcus[i]| == |f.mem|
  {
    hide DcFile.Coded, EntryFor, ToRead, ProgDcScanDecoder.Valid;
    assert f.IsMcu(f.mcus[i]);
  }
}
