/** The master controller of the compressor: which passes are made over the image, and what each of them writes. */
module PassMachine {
  import opened Script

  /** What a compressor does that can be seen from outside: statistics and output passes over the data of a scan,
      and the parts of the file. */
  datatype Event = FileHeader | FrameHeader | ScanHeader(scan: nat) | Gather(scan: nat) | Output(scan: nat) | Trailer

  datatype PassType = MainPass | HuffOptPass | OutputPass

  /** What scan `s` has to add.  `main` says that the first pass also reads the image; then even a DC refinement
      would be counted first. */
  function ScanEvents(scans: seq<ScanInfo>, optimize: bool, main: bool, s: nat): seq<Event>
    requires s < |scans|
  {
    (if optimize && (!scans[s].DcRefine() || (main && s == 0)) then [Gather(s)] else [])
    + (if s == 0 then [FrameHeader] else []) + [ScanHeader(s), Output(s)]
  }

  function EventsBefore(scans: seq<ScanInfo>, optimize: bool, main: bool, s: nat): seq<Event>
    requires s <= |scans|
  {
    if s == 0 then [FileHeader]
    else EventsBefore(scans, optimize, main, s - 1) + ScanEvents(scans, optimize, main, s - 1)
  }

  lemma ScanAdds(scans: seq<ScanInfo>, optimize: bool, main: bool, s: nat)
    requires s < |scans|
    ensures EventsBefore(scans, optimize, main, s + 1) == EventsBefore(scans, optimize, main, s)
      + (if optimize && (!scans[s].DcRefine() || (main && s == 0)) then [Gather(s)] else [])
      + ((if s == 0 then [FrameHeader] else []) + [ScanHeader(s)] + [Output(s)])
  {
    var g := if optimize && (!scans[s].DcRefine() || (main && s == 0)) then [Gather(s)] else [];
    var f := if s == 0 then [FrameHeader] else [];
    assert (EventsBefore(scans, optimize, main, s) + g) + (f + [ScanHeader(s)] + [Output(s)])
      == EventsBefore(scans, optimize, main, s) + (g + f + [ScanHeader(s), Output(s)]);
  }

  lemma DcRefineIs(s: ScanInfo)
    ensures s.DcRefine() <==> s.ss == 0 && s.ah != 0
  {
  }

  /** A whole file. */
  function AllEvents(scans: seq<ScanInfo>, optimize: bool, main: bool): seq<Event>
  {
    EventsBefore(scans, optimize, main, |scans|) + [Trailer]
  }

  class CompMaster {
    const scans: seq<ScanInfo>
    const optimize: bool
    const totalPasses: nat
    ghost const main: bool
    var passType: PassType
    var passNumber: nat
    var scanNumber: nat
    var isLastPass: bool
    var callPassStartup: bool
    /** The scan whose parameters have been selected, and what the entropy coder has been started for. */
    var curScan: nat
    var gathering: bool
    ghost var log: seq<Event>

    /** jinit_c_master_control, and the file header, which the routines that call it write before anything else. */
    constructor (scans: seq<ScanInfo>, optimize: bool, transcodeOnly: bool)
      requires scans != []
      ensures Ready(0) && !isLastPass && log == [FileHeader] && this.scans == scans && this.optimize == optimize
          && main == !transcodeOnly
    {
      this.scans, this.optimize, main := scans, optimize, !transcodeOnly;
      if transcodeOnly {
        passType := if optimize then HuffOptPass else OutputPass;
      } else {
        passType := MainPass;
      }
      scanNumber, passNumber := 0, 0;
      totalPasses := if optimize then |scans| * 2 else |scans|;
      isLastPass, callPassStartup, curScan, gathering, log := false, false, 0, false, [FileHeader];
    }

    ghost predicate Sized() { scans != [] && totalPasses == if optimize then |scans| * 2 else |scans| }

    /** All passes for the scans before `s` are done. */
    ghost predicate Ready(s: nat)
      reads this
    {
      && Sized() && s <= |scans| && scanNumber == s && !callPassStartup
      && log == EventsBefore(scans, optimize, main, s)
      && passNumber == (if optimize then 2 * s else s)
      && passType == (if s == 0 && main then MainPass else if optimize then HuffOptPass else OutputPass)
    }

    /** The statistics for scan `s` have been gathered. */
    ghost predicate Gathered(s: nat)
      reads this
    {
      && Sized() && s < |scans| && scanNumber == s && curScan == s && !callPassStartup && optimize
      && log == EventsBefore(scans, optimize, main, s) + [Gather(s)]
      && (!scans[s].DcRefine() || (main && s == 0))
      && passNumber == 2 * s + 1 && passType == OutputPass
    }

    /** What there is to do for a pass that has been prepared: gather the statistics of scan `s` ... */
    ghost predicate ToGather(s: nat)
      reads this
    {
      && Sized() && s < |scans| && scanNumber == s && curScan == s && gathering && !callPassStartup && optimize
      && log == EventsBefore(scans, optimize, main, s) && (!scans[s].DcRefine() || (main && s == 0))
      && passNumber == 2 * s && passType == (if s == 0 && main then MainPass else HuffOptPass) && !isLastPass
    }

    /** ... or write it, once its headers have been written. */
    ghost predicate ToOutput(s: nat)
      reads this
    {
      && Sized() && s < |scans| && scanNumber == s && curScan == s && !gathering
      && (callPassStartup <==> !optimize && main && s == 0)
      && log + (if callPassStartup then [FrameHeader, ScanHeader(s)] else []) + [Output(s)]
         == EventsBefore(scans, optimize, main, s + 1)
      && passNumber == (if optimize then 2 * s + 1 else s)
      && passType == (if callPassStartup then MainPass else OutputPass)
      && isLastPass == (s + 1 == |scans|)
    }

    /** prepare_for_pass. */
    method PrepareForPass(ghost s: nat)
      requires s < |scans| && (Ready(s) || Gathered(s))
      modifies this
      ensures if old(Ready(s)) && optimize && (!scans[s].DcRefine() || (main && s == 0)) then ToGather(s)
          else ToOutput(s)
    {
      hide EventsBefore, ScanInfo.DcRefine;
      ScanAdds(scans, optimize, main, s);
      match passType {
        case MainPass =>
          curScan := scanNumber;
          gathering := optimize;
          callPassStartup := !optimize;
        case HuffOptPass =>
          curScan := scanNumber;
          DcRefineIs(scans[curScan]);
          if scans[curScan].ss != 0 || scans[curScan].ah == 0 {
            gathering := true;
            callPassStartup := false;
          } else {
            passType := OutputPass;
            passNumber := passNumber + 1;
            StartOutput();
          }
        case OutputPass =>
          if !optimize {
            curScan := scanNumber;
          }
          StartOutput();
      }
      isLastPass := passNumber == totalPasses - 1;
    }

    /** The part of prepare_for_pass for a data-output pass. */
    method StartOutput()
      modifies this`gathering, this`callPassStartup, this`log
      ensures !gathering && !callPassStartup
      ensures log == old(log) + (if scanNumber == 0 then [FrameHeader] else []) + [ScanHeader(curScan)]
    {
      gathering := false;
      if scanNumber == 0 {
        log := log + [FrameHeader];
      }
      log := log + [ScanHeader(curScan)];
      callPassStartup := false;
    }

    /** pass_startup, when the first scanlines are written. */
    method PassStartup()
      modifies this`callPassStartup, this`log
      ensures !callPassStartup && log == old(log) + [FrameHeader, ScanHeader(curScan)]
    {
      callPassStartup := false;
      log := log + [FrameHeader];
      log := log + [ScanHeader(curScan)];
    }

    /** The data of a pass go through the entropy coder. */
    method RunPass()
      modifies this`log
      ensures log == old(log) + [if gathering then Gather(curScan) else Output(curScan)]
    {
      log := log + [if gathering then Gather(curScan) else Output(curScan)];
    }

    /** finish_pass_master. */
    method FinishPass()
      modifies this`passType, this`passNumber, this`scanNumber
      ensures passNumber == old(passNumber) + 1
      ensures passType == if old(passType) == OutputPass && optimize then HuffOptPass else OutputPass
      ensures scanNumber == if old(passType) == OutputPass || (old(passType) == MainPass && !optimize)
          then old(scanNumber) + 1 else old(scanNumber)
    {
      match passType {
        case MainPass =>
          passType := OutputPass;
          if !optimize {
            scanNumber := scanNumber + 1;
          }
        case HuffOptPass =>
          passType := OutputPass;
        case OutputPass =>
          if optimize {
            passType := HuffOptPass;
          }
          scanNumber := scanNumber + 1;
      }
      passNumber := passNumber + 1;
    }

    /** A whole pass. */
    method OnePass(ghost s: nat) returns (ghost s': nat)
      requires s < |scans| && (Ready(s) || Gathered(s))
      modifies this
      ensures isLastPass <==> s' == |scans|
      ensures if old(Ready(s)) && optimize && (!scans[s].DcRefine() || (main && s == 0)) then s' == s && Gathered(s)
          else s' == s + 1 && Ready(s')
    {
      PrepareForPass(s);
      s' := if gathering then s else s + 1;
      if callPassStartup {
        PassStartup();
      }
      RunPass();
      FinishPass();
    }
  }

  /** From jpeg_start_compress, or jpeg_write_coefficients, to the end of jpeg_finish_compress: one frame header,
      every scan once, in order, each after the statistics for it, and as many passes as were announced. */
  method Compress(scans: seq<ScanInfo>, optimize: bool, transcodeOnly: bool) returns (m: CompMaster)
    requires scans != []
    ensures m.log == AllEvents(scans, optimize, !transcodeOnly)
    ensures WellPlaced(scans, optimize, !transcodeOnly, m.log) && |m.log| >= 4
    ensures m.log[0] == FileHeader && m.log[|m.log| - 1] == Trailer
    ensures Headers(m.log) == Outputs(m.log) == seq(|scans|, i => i) && FrameHeaders(m.log) == 1
    ensures m.passNumber == m.totalPasses == (if optimize then |scans| * 2 else |scans|)
  {
    m := new CompMaster(scans, optimize, transcodeOnly);
    ghost var s := 0;
    if !transcodeOnly {
      s := m.OnePass(0);
    }
    while !m.isLastPass
      invariant fresh(m) && m.scans == scans && m.optimize == optimize && m.main == !transcodeOnly && s <= |scans|
      invariant m.Ready(s) || (s < |scans| && m.Gathered(s))
      invariant m.isLastPass <==> s == |scans|
      decreases |scans| - s, if s < |scans| && m.Gathered(s) then 0 else 1
    {
      s := m.OnePass(s);
    }
    m.log := m.log + [Trailer];
    FileShape(scans, optimize, !transcodeOnly);
    FileInOrder(scans, optimize, !transcodeOnly);
  }

  // ---------------------------------------------------------------- what that means

  /** The scans whose headers, or data, are in the file, in order. */
  function Headers(events: seq<Event>): seq<nat>
  {
    if events == [] then []
    else Headers(events[..|events| - 1]) + if events[|events| - 1].ScanHeader? then [events[|events| - 1].scan] else []
  }

  function Outputs(events: seq<Event>): seq<nat>
  {
    if events == [] then []
    else Outputs(events[..|events| - 1]) + if events[|events| - 1].Output? then [events[|events| - 1].scan] else []
  }

  function FrameHeaders(events: seq<Event>): nat
  {
    if events == [] then 0
    else FrameHeaders(events[..|events| - 1]) + if events[|events| - 1].FrameHeader? then 1 else 0
  }

  lemma OneMore(events: seq<Event>, e: Event)
    ensures Headers(events + [e]) == Headers(events) + if e.ScanHeader? then [e.scan] else []
    ensures Outputs(events + [e]) == Outputs(events) + if e.Output? then [e.scan] else []
    ensures FrameHeaders(events + [e]) == FrameHeaders(events) + if e.FrameHeader? then 1 else 0
  {
    assert (events + [e])[..|events|] == events;
  }

  lemma {:induction false} InOrder(scans: seq<ScanInfo>, optimize: bool, main: bool, s: nat)
    requires s <= |scans|
    ensures var ev := EventsBefore(scans, optimize, main, s);
      && Headers(ev) == Outputs(ev) == seq(s, i => i) && FrameHeaders(ev) == if s == 0 then 0 else 1
  {
    hide Headers, Outputs, FrameHeaders, ScanInfo.DcRefine;
    if s == 0 {
      NoEvents();
    } else {
      InOrder(scans, optimize, main, s - 1);
      ScanAdds(scans, optimize, main, s - 1);
      var a := EventsBefore(scans, optimize, main, s - 1);
      var gather := optimize && (!scans[s - 1].DcRefine() || (main && s - 1 == 0));
      var b := if gather then a + [Gather(s - 1)] else a;
      var c := if s - 1 == 0 then b + [FrameHeader] else b;
      if gather {
        OneMore(a, Gather(s - 1));
      }
      if s - 1 == 0 {
        OneMore(b, FrameHeader);
      }
      OneMore(c, ScanHeader(s - 1));
      OneMore(c + [ScanHeader(s - 1)], Output(s - 1));
      assert c + [ScanHeader(s - 1)] + [Output(s - 1)] == EventsBefore(scans, optimize, main, s);
      assert seq(s - 1, i => i) + [s - 1] == seq(s, i => i);
    }
  }

  lemma NoEvents()
    ensures Headers([FileHeader]) == Outputs([FileHeader]) == seq(0, i => i) && FrameHeaders([FileHeader]) == 0
  {
    assert [] + [FileHeader] == [FileHeader];
    OneMore([], FileHeader);
  }

  /** A file has one frame header, and every scan once, in script order. */
  lemma FileInOrder(scans: seq<ScanInfo>, optimize: bool, main: bool)
    requires scans != []
    ensures var ev := AllEvents(scans, optimize, main);
      Headers(ev) == Outputs(ev) == seq(|scans|, i => i) && FrameHeaders(ev) == 1
  {
    hide Headers, Outputs, FrameHeaders;
    InOrder(scans, optimize, main, |scans|);
    OneMore(EventsBefore(scans, optimize, main, |scans|), Trailer);
  }

  /** The statistics for a scan come before its data, unless it has no Huffman symbols. */
  lemma {:induction false} GatheredBefore(scans: seq<ScanInfo>, optimize: bool, main: bool, s: nat, i: nat)
    returns (j: nat)
    requires s <= |scans| && optimize && i < |EventsBefore(scans, optimize, main, s)|
    requires var e := EventsBefore(scans, optimize, main, s)[i];
    e.Output? && e.scan < |scans| && !scans[e.scan].DcRefine()
    ensures j < i && EventsBefore(scans, optimize, main, s)[j] == Gather(EventsBefore(scans, optimize, main, s)[i].scan)
  {
    hide ScanInfo.DcRefine, ScanEvents;
    assert s > 0;
    ScanAdds(scans, optimize, main, s - 1);
    var a := EventsBefore(scans, optimize, main, s - 1);
    if i < |a| {
      j := GatheredBefore(scans, optimize, main, s - 1, i);
    } else {
      j := |a|;
    }
  }

  /** The statistics of a scan are gathered when tables are optimized, except for a DC refinement, which sends no
      symbols, unless its pass is the one that reads the image. */
  predicate Gathers(scans: seq<ScanInfo>, optimize: bool, main: bool, s: nat)
  {
    optimize && s < |scans| && (scans[s].ss != 0 || scans[s].ah == 0 || (main && s == 0))
  }

  /** What may stand before and after event `i`. */
  predicate InPlace(scans: seq<ScanInfo>, optimize: bool, main: bool, ev: seq<Event>, i: nat)
    requires i < |ev|
  {
    var frame := if Gathers(scans, optimize, main, 0) then 2 else 1;
    match ev[i]
    case FileHeader => i == 0
    case FrameHeader => i == frame && i + 1 < |ev| && ev[i + 1] == ScanHeader(0)
    case Gather(s) =>
      Gathers(scans, optimize, main, s) && i + 1 < |ev| && ev[i + 1] == if s == 0 then FrameHeader else ScanHeader(s)
    case ScanHeader(s) =>
      && frame < i < |ev| - 1 && ev[i + 1] == Output(s)
      && (if s == 0 then ev[i - 1] == FrameHeader
          else Gathers(scans, optimize, main, s) ==> ev[i - 1] == Gather(s))
    case Output(s) => i > 0 && ev[i - 1] == ScanHeader(s)
    case Trailer => i == |ev| - 1
  }

  predicate WellPlaced(scans: seq<ScanInfo>, optimize: bool, main: bool, ev: seq<Event>)
  {
    forall i | 0 <= i < |ev| :: InPlace(scans, optimize, main, ev, i)
  }

  lemma PlacedMore(scans: seq<ScanInfo>, optimize: bool, main: bool, ev: seq<Event>, s: nat)
    requires WellPlaced(scans, optimize, main, ev) && s < |scans| && Trailer !in ev
    requires if s == 0 then ev == [FileHeader] else |ev| >= if Gathers(scans, optimize, main, 0) then 3 else 2
    ensures WellPlaced(scans, optimize, main, ev + ScanEvents(scans, optimize, main, s))
    ensures Trailer !in ScanEvents(scans, optimize, main, s)
  {
    var more := ScanEvents(scans, optimize, main, s);
    var all := ev + more;
    forall i | 0 <= i < |all|
      ensures InPlace(scans, optimize, main, all, i)
    {
      if i < |ev| {
        assert InPlace(scans, optimize, main, ev, i);
        assert ev[i] in ev;
        PlaceKept(scans, optimize, main, ev, more, i);
      } else {
        PlaceAdded(scans, optimize, main, ev, s, i);
      }
    }
  }

  lemma PlaceKept(scans: seq<ScanInfo>, optimize: bool, main: bool, ev: seq<Event>, more: seq<Event>, i: nat)
    requires i < |ev| && InPlace(scans, optimize, main, ev, i) && ev[i] != Trailer
    ensures InPlace(scans, optimize, main, ev + more, i)
  {
    hide Gathers;
  }

  lemma PlaceAdded(scans: seq<ScanInfo>, optimize: bool, main: bool, ev: seq<Event>, s: nat, i: nat)
    requires s < |scans| && |ev| <= i < |ev + ScanEvents(scans, optimize, main, s)|
    requires if s == 0 then ev == [FileHeader] else |ev| >= if Gathers(scans, optimize, main, 0) then 3 else 2
    ensures InPlace(scans, optimize, main, ev + ScanEvents(scans, optimize, main, s), i)
  {
    var g := Gathers(scans, optimize, main, s);
    DcRefineIs(scans[s]);
    assert ScanEvents(scans, optimize, main, s)
        == (if g then [Gather(s)] else []) + (if s == 0 then [FrameHeader] else []) + [ScanHeader(s), Output(s)];
  }

  lemma {:induction false} AllPlaced(scans: seq<ScanInfo>, optimize: bool, main: bool, s: nat)
    requires s <= |scans|
    ensures var ev := EventsBefore(scans, optimize, main, s);
      && WellPlaced(scans, optimize, main, ev) && Trailer !in ev && ev[0] == FileHeader
      && (s > 0 ==> |ev| >= if Gathers(scans, optimize, main, 0) then 4 else 3)
  {
    hide ScanInfo.DcRefine, Gathers, ScanEvents, InPlace;
    if s == 0 {
      FirstPlaced(scans, optimize, main);
    } else {
      AllPlaced(scans, optimize, main, s - 1);
      PlacedMore(scans, optimize, main, EventsBefore(scans, optimize, main, s - 1), s - 1);
      LongEnough(scans, optimize, main, s - 1);
    }
  }

  lemma FirstPlaced(scans: seq<ScanInfo>, optimize: bool, main: bool)
    ensures InPlace(scans, optimize, main, [FileHeader], 0) && EventsBefore(scans, optimize, main, 0) == [FileHeader]
  {
  }

  lemma LongEnough(scans: seq<ScanInfo>, optimize: bool, main: bool, s: nat)
    requires s < |scans|
    ensures |ScanEvents(scans, optimize, main, s)| >= 2
    ensures s == 0 ==> |ScanEvents(scans, optimize, main, s)| >= if Gathers(scans, optimize, main, 0) then 4 else 3
  {
    DcRefineIs(scans[s]);
  }

  /** The shape of a file: it starts with the file header and ends with the trailer, and neither stands elsewhere;
      the frame header comes right before the header of scan 0, and that before all other scan headers; the data of a
      scan follow its header; and right before come its statistics, if they are gathered at all. */
  lemma FileShape(scans: seq<ScanInfo>, optimize: bool, main: bool)
    requires scans != []
    ensures var ev := AllEvents(scans, optimize, main);
      && |ev| >= 4 && ev[0] == FileHeader && ev[|ev| - 1] == Trailer && WellPlaced(scans, optimize, main, ev)
  {
    hide ScanInfo.DcRefine, Gathers, ScanEvents, InPlace;
    AllPlaced(scans, optimize, main, |scans|);
    var ev := EventsBefore(scans, optimize, main, |scans|);
    forall i | 0 <= i < |ev + [Trailer]|
      ensures InPlace(scans, optimize, main, ev + [Trailer], i)
    {
      if i < |ev| {
        assert InPlace(scans, optimize, main, ev, i);
        assert ev[i] in ev;
        PlaceKept(scans, optimize, main, ev, [Trailer], i);
      } else {
        TrailerPlaced(scans, optimize, main, ev);
      }
    }
  }

  lemma TrailerPlaced(scans: seq<ScanInfo>, optimize: bool, main: bool, ev: seq<Event>)
    ensures InPlace(scans, optimize, main, ev + [Trailer], |ev|)
  {
  }
}
