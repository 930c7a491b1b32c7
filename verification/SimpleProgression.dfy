/** jpeg_simple_progression: the recommended progressive script.  It is accepted, fills just the space set aside for
    it, and sends every coefficient to its last bit. */
module SimpleProgression {
  import opened Script

  /** How far the scans have brought the coefficients of a component: DC, AC 1 to 5, AC 6 to 63. */
  datatype Level = Level(dc: int, lo: int, hi: int)

  function Row(l: Level): (r: seq<int>)
    ensures |r| == DCTSIZE2
  {
    seq(DCTSIZE2, k => if k == 0 then l.dc else if k <= 5 then l.lo else l.hi)
  }

  function Rows(ls: seq<Level>): (p: Progress)
    ensures Shaped(p, |ls|)
  {
    seq(|ls|, c requires 0 <= c < |ls| => Row(ls[c]))
  }

  /** The bands that the script uses. */
  predicate Band(ss: int, se: int) { (ss == 0 && se == 0) || (ss == 1 && se in {5, 63}) || (ss == 6 && se == 63) }

  predicate Fits(l: Level, s: ScanInfo)
  {
    && Band(s.ss, s.se) && 0 <= s.ah <= 2 && 0 <= s.al <= 2
    && (if s.ss == 0 then StepOk(s, l.dc) else l.dc >= 0)
    && (s.ss == 1 ==> StepOk(s, l.lo)) && (s.se == 63 ==> StepOk(s, l.hi))
  }

  function Raised(l: Level, s: ScanInfo): Level
  {
    Level(if s.ss == 0 then s.al else l.dc, if s.ss == 1 then s.al else l.lo, if s.se == 63 then s.al else l.hi)
  }

  /** The scans so far are legal steps, and have brought the components to these levels. */
  ghost predicate Scripted(scans: seq<ScanInfo>, ls: seq<Level>)
  {
    AllOk(scans, Start(|ls|)) && AfterAll(scans, Start(|ls|)) == Rows(ls)
  }

  lemma NothingSent(n: nat)
    ensures Scripted([], seq(n, _ => Level(-1, -1, -1)))
  {
    var p, q := Start(n), Rows(seq(n, _ => Level(-1, -1, -1)));
    forall c | 0 <= c < n
      ensures p[c] == q[c]
    {
      forall k | 0 <= k < DCTSIZE2
        ensures p[c][k] == q[c][k]
      {
      }
    }
  }

  lemma FitsBand(l: Level, s: ScanInfo)
    requires Fits(l, s)
    ensures BandOk(s, Row(l))
  {
  }

  /** One scan more. */
  lemma OneScan(scans: seq<ScanInfo>, ls: seq<Level>, s: ScanInfo, ls': seq<Level>)
    requires Scripted(scans, ls) && CompsOk(s, |ls|) && (s.ss != 0 ==> |s.comps| == 1) && |ls'| == |ls|
    requires forall c | c in s.comps :: Fits(ls[c], s)
    requires forall c | 0 <= c < |ls| :: ls'[c] == if c in s.comps then Raised(ls[c], s) else ls[c]
    ensures Scripted(scans + [s], ls')
  {
    hide AllOk, AfterAll, BandOk, Start, StepOk;
    AllOkSnoc(scans, s, Start(|ls|));
    forall i | 0 <= i < |s.comps|
      ensures BandOk(s, Rows(ls)[s.comps[i]])
    {
      FitsBand(ls[s.comps[i]], s);
    }
    assert Fits(ls[s.comps[0]], s);
    SameRows(s, ls, ls');
    RowsShaped(ls);
  }

  lemma RowsShaped(ls: seq<Level>)
    ensures Shaped(Rows(ls), |ls|)
  {
  }

  lemma SameRows(s: ScanInfo, ls: seq<Level>, ls': seq<Level>)
    requires |ls'| == |ls| && Band(s.ss, s.se)
    requires forall c | 0 <= c < |ls| :: ls'[c] == if c in s.comps then Raised(ls[c], s) else ls[c]
    ensures Shaped(Rows(ls), |ls|) && After(s, Rows(ls)) == Rows(ls')
  {
    var p, q := After(s, Rows(ls)), Rows(ls');
    forall c | 0 <= c < |ls|
      ensures p[c] == q[c]
    {
      forall k | 0 <= k < DCTSIZE2
        ensures p[c][k] == q[c][k]
      {
      }
    }
  }

  /** fill_a_scan: one scan for the given component. */
  method FillAScan(scans: seq<ScanInfo>, ci: nat, ss: int, se: int, ah: int, al: int, ghost ls: seq<Level>)
    returns (r: seq<ScanInfo>, ghost ls': seq<Level>)
    requires Scripted(scans, ls) && ci < |ls| && Fits(ls[ci], ScanInfo([ci], ss, se, ah, al))
    ensures r == scans + [ScanInfo([ci], ss, se, ah, al)]
    ensures ls' == ls[ci := Raised(ls[ci], ScanInfo([ci], ss, se, ah, al))] && Scripted(r, ls')
  {
    hide Scripted, Fits;
    var s := ScanInfo([ci], ss, se, ah, al);
    r := scans + [s];
    ls' := ls[ci := Raised(ls[ci], s)];
    OneScan(scans, ls, s, ls');
  }

  /** fill_scans: one scan for each component. */
  method FillScans(scans: seq<ScanInfo>, ncomps: nat, ss: int, se: int, ah: int, al: int, ghost l: Level)
    returns (r: seq<ScanInfo>)
    requires Scripted(scans, seq(ncomps, _ => l)) && Fits(l, ScanInfo([], ss, se, ah, al))
    ensures r == scans + seq(ncomps, ci => ScanInfo([ci], ss, se, ah, al))
    ensures Scripted(r, seq(ncomps, _ => Raised(l, ScanInfo([], ss, se, ah, al))))
  {
    hide Scripted, Fits;
    r := scans;
    ghost var l' := Raised(l, ScanInfo([], ss, se, ah, al));
    ghost var ls := seq(ncomps, _ => l);
    for ci := 0 to ncomps
      invariant r == scans + seq(ci, c => ScanInfo([c], ss, se, ah, al))
      invariant ls == seq(ci, _ => l') + seq(ncomps - ci, _ => l) && Scripted(r, ls)
    {
      FitsAny(l, [], [ci], ss, se, ah, al);
      r, ls := FillAScan(r, ci, ss, se, ah, al, ls);
    }
    assert ls == seq(ncomps, _ => l');
  }

  lemma FitsAny(l: Level, a: seq<int>, b: seq<int>, ss: int, se: int, ah: int, al: int)
    requires Fits(l, ScanInfo(a, ss, se, ah, al))
    ensures Fits(l, ScanInfo(b, ss, se, ah, al))
  {
  }

  /** fill_dc_scans: one interleaved scan, or one for each component if there are more than four. */
  method FillDcScans(scans: seq<ScanInfo>, ncomps: nat, ah: int, al: int, ghost l: Level)
    returns (r: seq<ScanInfo>)
    requires ncomps > 0 && Scripted(scans, seq(ncomps, _ => l)) && Fits(l, ScanInfo([], 0, 0, ah, al))
    ensures r == scans + if ncomps <= 4 then [ScanInfo(seq(ncomps, ci => ci), 0, 0, ah, al)]
                         else seq(ncomps, ci => ScanInfo([ci], 0, 0, ah, al))
    ensures Scripted(r, seq(ncomps, _ => Raised(l, ScanInfo([], 0, 0, ah, al))))
  {
    hide Scripted, Fits;
    if ncomps <= MAX_COMPS_IN_SCAN {
      var comps: seq<int> := [];
      for ci := 0 to ncomps
        invariant comps == seq(ci, c => c)
      {
        comps := comps + [ci];
      }
      var s := ScanInfo(comps, 0, 0, ah, al);
      r := scans + [s];
      FitsAny(l, [], comps, 0, 0, ah, al);
      ghost var ls := seq(ncomps, _ => l);
      ghost var ls' := seq(ncomps, _ => Raised(l, s));
      forall c | 0 <= c < ncomps
        ensures c in comps
      {
        assert comps[c] == c;
      }
      OneScan(scans, ls, s, ls');
    } else {
      r := FillScans(scans, ncomps, 0, 0, ah, al, l);
    }
  }

  /** jpeg_simple_progression, for a YCbCr image or one of another colour space. */
  method SimpleProgression(ncomps: nat, ycc: bool) returns (scans: seq<ScanInfo>)
    requires ncomps > 0
    ensures ScriptOk(scans, ncomps) && IsProgressive(scans)
    ensures |scans| == if ncomps == 3 && ycc then 10 else if ncomps > 4 then 6 * ncomps else 2 + 4 * ncomps
    ensures forall c, k | 0 <= c < ncomps && 0 <= k < 64 :: AfterAll(scans, Start(ncomps))[c][k] == 0
  {
    hide Scripted, AllOk, AfterAll;
    NothingSent(ncomps);
    scans := FillDcScans([], ncomps, 0, 1, Level(-1, -1, -1));
    var first := scans[0];
    if ncomps == 3 && ycc {
      ghost var ls := seq(3, _ => Level(1, -1, -1));
      scans, ls := FillAScan(scans, 0, 1, 5, 0, 2, ls);
      scans, ls := FillAScan(scans, 2, 1, 63, 0, 1, ls);
      scans, ls := FillAScan(scans, 1, 1, 63, 0, 1, ls);
      scans, ls := FillAScan(scans, 0, 6, 63, 0, 2, ls);
      scans, ls := FillAScan(scans, 0, 1, 63, 2, 1, ls);
      assert ls == seq(3, _ => Level(1, 1, 1));
      scans := FillDcScans(scans, ncomps, 1, 0, Level(1, 1, 1));
      ls := seq(3, _ => Level(0, 1, 1));
      scans, ls := FillAScan(scans, 2, 1, 63, 1, 0, ls);
      scans, ls := FillAScan(scans, 1, 1, 63, 1, 0, ls);
      scans, ls := FillAScan(scans, 0, 1, 63, 1, 0, ls);
      assert ls == seq(3, _ => Level(0, 0, 0));
    } else {
      scans := FillScans(scans, ncomps, 1, 5, 0, 2, Level(1, -1, -1));
      scans := FillScans(scans, ncomps, 6, 63, 0, 2, Level(1, 2, -1));
      scans := FillScans(scans, ncomps, 1, 63, 2, 1, Level(1, 2, 2));
      scans := FillDcScans(scans, ncomps, 1, 0, Level(1, 1, 1));
      scans := FillScans(scans, ncomps, 1, 63, 1, 0, Level(0, 1, 1));
    }
    AllSent(scans, ncomps);
  }

  lemma AllSent(scans: seq<ScanInfo>, ncomps: nat)
    requires Scripted(scans, seq(ncomps, _ => Level(0, 0, 0)))
    ensures AllOk(scans, Start(ncomps))
    ensures forall c, k | 0 <= c < ncomps && 0 <= k < 64 :: AfterAll(scans, Start(ncomps))[c][k] == 0
  {
    hide AllOk, AfterAll;
  }
}
