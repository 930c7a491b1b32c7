/** Which scripts are accepted, said of the scans themselves instead of the progress that validation keeps track of. */
module ScriptLaws {
  import opened Script

  /** The bit positions of the scans that send coefficient `k` of component `c`, in order. */
  function History(scans: seq<ScanInfo>, c: int, k: int): (h: seq<ScanInfo>)
  {
    if scans == [] then []
    else
      var n := |scans| - 1;
      History(scans[..n], c, k) + if Includes(scans[n], c, k) then [scans[n]] else []
  }

  predicate Includes(s: ScanInfo, c: int, k: int) { c in s.comps && s.ss <= k <= s.se }

  /** First all bits down to some position, then one bit at a time. */
  predicate BitByBit(h: seq<ScanInfo>) { forall i | 0 <= i < |h| :: BitAt(h, i) }

  predicate BitAt(h: seq<ScanInfo>, i: nat)
    requires i < |h|
  {
    if i == 0 then h[i].ah == 0 else h[i].ah == h[i - 1].al && h[i].al == h[i].ah - 1
  }

  /** One to four components in increasing order; the DC coefficient alone, or a band of a single component; bit
      positions from 0 to 10. */
  predicate ShapeOk(s: ScanInfo, ncomps: nat)
  {
    && 1 <= |s.comps| <= 4 && (forall i | 0 <= i < |s.comps| :: 0 <= s.comps[i] < ncomps)
    && (forall i, j | 0 <= i < j < |s.comps| :: s.comps[i] < s.comps[j])
    && 0 <= s.ah <= 10 && 0 <= s.al <= 10
    && if s.ss == 0 then s.se == 0 else 1 <= s.ss <= s.se <= 63 && |s.comps| == 1
  }

  predicate SendsDc(s: ScanInfo, c: int) { s.ss == 0 && c in s.comps }

  /** The first `i` scans include a DC scan of component `c`. */
  predicate DcSent(scans: seq<ScanInfo>, i: nat, c: int)
    requires i <= |scans|
  {
    exists j | 0 <= j < i :: SendsDc(scans[j], c)
  }

  /** An AC scan comes after a DC scan of its component. */
  predicate DcFirst(scans: seq<ScanInfo>, i: nat, s: ScanInfo)
    requires i <= |scans|
  {
    s.ss != 0 ==> forall c | c in s.comps :: DcSent(scans, i, c)
  }

  predicate ShapesOk(scans: seq<ScanInfo>, ncomps: nat) { forall i | 0 <= i < |scans| :: ShapeOk(scans[i], ncomps) }

  predicate DcAllFirst(scans: seq<ScanInfo>) { forall i | 0 <= i < |scans| :: DcFirst(scans, i, scans[i]) }

  predicate AllBitByBit(scans: seq<ScanInfo>, ncomps: nat)
  {
    forall c, k | 0 <= c < ncomps && 0 <= k < 64 :: BitByBit(History(scans, c, k))
  }

  predicate Legal(scans: seq<ScanInfo>, ncomps: nat)
  {
    ShapesOk(scans, ncomps) && DcAllFirst(scans) && AllBitByBit(scans, ncomps)
  }

  /** What validation has recorded are the positions of the last scans. */
  lemma {:induction false} ProgressIsLast(scans: seq<ScanInfo>, ncomps: nat, c: nat, k: nat)
    requires c < ncomps && k < 64
    ensures Shaped(AfterAll(scans, Start(ncomps)), ncomps)
    ensures AfterAll(scans, Start(ncomps))[c][k]
        == var h := History(scans, c, k); if h == [] then -1 else h[|h| - 1].al
    decreases |scans|
  {
    hide After, Start, AfterAll, AllOk;
    if scans == [] {
      NoScans(ncomps);
    } else {
      var n := |scans| - 1;
      ProgressIsLast(scans[..n], ncomps, c, k);
      assert scans[..n] + [scans[n]] == scans;
      AllOkSnoc(scans[..n], scans[n], Start(ncomps));
    }
  }

  lemma NoScans(ncomps: nat)
    ensures AfterAll([], Start(ncomps)) == Start(ncomps) && AllOk([], Start(ncomps))
  {
  }

  lemma {:induction false} SameOrder(s: ScanInfo, ncomps: nat)
    ensures CompsOk(s, ncomps) ==> forall i, j | 0 <= i < j < |s.comps| :: s.comps[i] < s.comps[j]
  {
    if CompsOk(s, ncomps) {
      forall i, j | 0 <= i < j < |s.comps|
        ensures s.comps[i] < s.comps[j]
      {
        Increasing(s, ncomps, i, j);
      }
    }
  }

  lemma ShapeIs(s: ScanInfo, ncomps: nat)
    ensures ShapeOk(s, ncomps) <==> CompsOk(s, ncomps) && ParamsOk(s)
  {
    SameOrder(s, ncomps);
    if ShapeOk(s, ncomps) {
      forall i | 0 < i < |s.comps|
        ensures s.comps[i - 1] < s.comps[i]
      {
      }
    }
  }

  lemma HistorySnoc(scans: seq<ScanInfo>, s: ScanInfo, c: int, k: int)
    ensures History(scans + [s], c, k) == History(scans, c, k) + if Includes(s, c, k) then [s] else []
  {
    assert (scans + [s])[..|scans|] == scans;
  }

  predicate StepTaken(s: ScanInfo, h: seq<ScanInfo>)
  {
    if h == [] then s.ah == 0 else s.ah == h[|h| - 1].al && s.al == s.ah - 1
  }

  lemma BitSnoc(h: seq<ScanInfo>, s: ScanInfo)
    ensures BitByBit(h + [s]) <==> BitByBit(h) && StepTaken(s, h)
  {
    forall i | 0 <= i < |h|
      ensures BitAt(h, i) <==> BitAt(h + [s], i)
    {
    }
    if BitByBit(h + [s]) {
      forall i | 0 <= i < |h|
        ensures BitAt(h, i)
      {
        assert BitAt(h + [s], i);
      }
      assert BitAt(h + [s], |h|);
    }
  }

  lemma {:induction false} HistoryFrom(scans: seq<ScanInfo>, c: int, k: int)
    ensures forall i | 0 <= i < |History(scans, c, k)| :: History(scans, c, k)[i] in scans
    ensures History(scans, c, k) != [] <==> exists j | 0 <= j < |scans| :: Includes(scans[j], c, k)
    decreases |scans|
  {
    hide Includes;
    if scans != [] {
      var n := |scans| - 1;
      HistoryFrom(scans[..n], c, k);
      assert forall j | 0 <= j < n :: scans[..n][j] == scans[j];
    }
  }

  // ---------------------------------------------------------------- one scan more

  predicate StepsTaken(scans: seq<ScanInfo>, s: ScanInfo, c: int)
  {
    forall k | 0 <= k < 64 && Includes(s, c, k) :: StepTaken(s, History(scans, c, k))
  }

  /** What one scan more demands. */
  predicate NextLegal(scans: seq<ScanInfo>, s: ScanInfo, ncomps: nat)
  {
    ShapeOk(s, ncomps) && DcFirst(scans, |scans|, s) && forall c | 0 <= c < ncomps :: StepsTaken(scans, s, c)
  }

  lemma LegalSnoc(scans: seq<ScanInfo>, s: ScanInfo, ncomps: nat)
    ensures Legal(scans + [s], ncomps) <==> Legal(scans, ncomps) && NextLegal(scans, s, ncomps)
  {
    hide AllBitByBit, StepsTaken, ShapesOk, ShapeOk, DcFirst, DcAllFirst;
    ShapesSnoc(scans, s, ncomps);
    DcSnoc(scans, s);
    HistoriesSnoc(scans, s, ncomps);
  }

  lemma ShapesSnoc(scans: seq<ScanInfo>, s: ScanInfo, ncomps: nat)
    ensures ShapesOk(scans + [s], ncomps) <==> ShapesOk(scans, ncomps) && ShapeOk(s, ncomps)
  {
    hide ShapeOk;
    var all := scans + [s];
    if ShapesOk(all, ncomps) {
      assert all[|scans|] == s;
      forall i | 0 <= i < |scans|
        ensures ShapeOk(scans[i], ncomps)
      {
        assert all[i] == scans[i];
      }
    }
  }

  lemma DcSnoc(scans: seq<ScanInfo>, s: ScanInfo)
    ensures DcAllFirst(scans + [s]) <==> DcAllFirst(scans) && DcFirst(scans, |scans|, s)
  {
    hide DcFirst;
    var all := scans + [s];
    forall i | 0 <= i <= |scans|
      ensures DcFirst(all, i, all[i]) <==> DcFirst(scans, i, all[i])
    {
      SameDcFirst(scans, s, i, all[i]);
    }
    if DcAllFirst(all) {
      assert DcFirst(all, |scans|, all[|scans|]);
      forall i | 0 <= i < |scans|
        ensures DcFirst(scans, i, scans[i])
      {
        assert DcFirst(all, i, all[i]);
      }
    }
  }

  lemma SameDcFirst(scans: seq<ScanInfo>, s: ScanInfo, i: nat, x: ScanInfo)
    requires i <= |scans|
    ensures DcFirst(scans + [s], i, x) <==> DcFirst(scans, i, x)
  {
    hide SendsDc;
    forall c
      ensures DcSent(scans + [s], i, c) <==> DcSent(scans, i, c)
    {
      assert forall j | 0 <= j < i :: (scans + [s])[j] == scans[j];
    }
  }

  lemma HistoriesSnoc(scans: seq<ScanInfo>, s: ScanInfo, ncomps: nat)
    ensures AllBitByBit(scans + [s], ncomps)
        <==> AllBitByBit(scans, ncomps) && forall c | 0 <= c < ncomps :: StepsTaken(scans, s, c)
  {
    hide Includes, BitByBit, StepTaken, History;
    var all := scans + [s];
    forall c, k | 0 <= c < ncomps && 0 <= k < 64
      ensures BitByBit(History(all, c, k))
          <==> BitByBit(History(scans, c, k)) && (Includes(s, c, k) ==> StepTaken(s, History(scans, c, k)))
    {
      HistorySnoc(scans, s, c, k);
      BitSnoc(History(scans, c, k), s);
      assert History(scans, c, k) + [] == History(scans, c, k);
    }
    if AllBitByBit(all, ncomps) {
      forall c, k | 0 <= c < ncomps && 0 <= k < 64
        ensures BitByBit(History(scans, c, k)) && (Includes(s, c, k) ==> StepTaken(s, History(scans, c, k)))
      {
        assert BitByBit(History(all, c, k));
      }
    } else if AllBitByBit(scans, ncomps) {
      var c, k :| 0 <= c < ncomps && 0 <= k < 64 && !BitByBit(History(all, c, k));
      assert BitByBit(History(scans, c, k));
      assert !StepsTaken(scans, s, c);
    }
  }

  /** The positions recorded are negative just where nothing has been sent. */
  lemma RecordedSign(scans: seq<ScanInfo>, ncomps: nat, c: nat, k: nat)
    requires Legal(scans, ncomps) && c < ncomps && k < 64
    ensures Shaped(AfterAll(scans, Start(ncomps)), ncomps)
    ensures AfterAll(scans, Start(ncomps))[c][k] < 0 <==> History(scans, c, k) == []
  {
    hide AfterAll, Start, History, BitByBit, Includes, AllOk;
    ProgressIsLast(scans, ncomps, c, k);
    HistoryFrom(scans, c, k);
    var h := History(scans, c, k);
    if h != [] {
      var i :| 0 <= i < |scans| && scans[i] == h[|h| - 1];
      assert ShapeOk(scans[i], ncomps);
    }
  }

  lemma SameStep(scans: seq<ScanInfo>, s: ScanInfo, ncomps: nat, c: nat, k: nat)
    requires Legal(scans, ncomps) && c < ncomps && k < 64
    ensures Shaped(AfterAll(scans, Start(ncomps)), ncomps)
    ensures StepOk(s, AfterAll(scans, Start(ncomps))[c][k]) <==> StepTaken(s, History(scans, c, k))
  {
    hide AfterAll, Start, History, Legal;
    RecordedSign(scans, ncomps, c, k);
    ProgressIsLast(scans, ncomps, c, k);
  }

  lemma DcRecorded(scans: seq<ScanInfo>, ncomps: nat, c: nat)
    requires Legal(scans, ncomps) && c < ncomps
    ensures Shaped(AfterAll(scans, Start(ncomps)), ncomps)
    ensures AfterAll(scans, Start(ncomps))[c][0] >= 0 <==> DcSent(scans, |scans|, c)
  {
    hide AfterAll, Start, History, AllBitByBit, DcAllFirst;
    RecordedSign(scans, ncomps, c, 0);
    HistoryFrom(scans, c, 0);
    forall j | 0 <= j < |scans|
      ensures Includes(scans[j], c, 0) <==> SendsDc(scans[j], c)
    {
      assert ShapeOk(scans[j], ncomps);
    }
    if j :| 0 <= j < |scans| && SendsDc(scans[j], c) {
      assert Includes(scans[j], c, 0);
    }
  }

  lemma BandIs(scans: seq<ScanInfo>, s: ScanInfo, ncomps: nat, c: nat)
    requires Legal(scans, ncomps) && c < ncomps && ShapeOk(s, ncomps) && c in s.comps
    ensures Shaped(AfterAll(scans, Start(ncomps)), ncomps)
    ensures BandOk(s, AfterAll(scans, Start(ncomps))[c])
        <==> (s.ss != 0 ==> DcSent(scans, |scans|, c)) && StepsTaken(scans, s, c)
  {
    hide AfterAll, Start, History, Legal, StepOk, StepTaken, DcSent;
    DcRecorded(scans, ncomps, c);
    var row := AfterAll(scans, Start(ncomps))[c];
    forall k | 0 <= k < 64
      ensures StepOk(s, row[k]) <==> StepTaken(s, History(scans, c, k))
    {
      SameStep(scans, s, ncomps, c, k);
    }
    if BandOk(s, row) {
      forall k | 0 <= k < 64 && Includes(s, c, k)
        ensures StepTaken(s, History(scans, c, k))
      {
        assert StepOk(s, row[k]);
      }
    } else if s.ss != 0 ==> DcSent(scans, |scans|, c) {
      var k :| s.ss <= k <= s.se && !StepOk(s, row[k]);
      assert Includes(s, c, k);
    }
  }

  lemma NextIs(scans: seq<ScanInfo>, s: ScanInfo, ncomps: nat)
    requires Legal(scans, ncomps)
    ensures Shaped(AfterAll(scans, Start(ncomps)), ncomps)
    ensures ScanOk(s, AfterAll(scans, Start(ncomps))) <==> NextLegal(scans, s, ncomps)
  {
    hide AfterAll, Start, Legal, BandOk, CompsOk, ParamsOk, DcSent, StepsTaken;
    ShapeIs(s, ncomps);
    var p := AfterAll(scans, Start(ncomps));
    ProgressShaped(scans, ncomps);
    if ShapeOk(s, ncomps) {
      forall c | 0 <= c < ncomps
        ensures c in s.comps ==>
          (BandOk(s, p[c]) <==> (s.ss != 0 ==> DcSent(scans, |scans|, c)) && StepsTaken(scans, s, c))
        ensures c !in s.comps ==> StepsTaken(scans, s, c)
      {
        if c in s.comps {
          BandIs(scans, s, ncomps, c);
        } else {
          NotIncluded(scans, s, c);
        }
      }
      BandsIs(scans, s, p, ncomps);
    }
  }

  lemma NotIncluded(scans: seq<ScanInfo>, s: ScanInfo, c: int)
    requires c !in s.comps
    ensures StepsTaken(scans, s, c)
  {
    hide History, StepTaken;
  }

  lemma BandsIs(scans: seq<ScanInfo>, s: ScanInfo, p: Progress, ncomps: nat)
    requires Shaped(p, ncomps) && ShapeOk(s, ncomps)
    requires forall c | 0 <= c < ncomps :: if c in s.comps then
        BandOk(s, p[c]) <==> (s.ss != 0 ==> DcSent(scans, |scans|, c)) && StepsTaken(scans, s, c)
      else StepsTaken(scans, s, c)
    ensures (forall i | 0 <= i < |s.comps| :: BandOk(s, p[s.comps[i]]))
        <==> DcFirst(scans, |scans|, s) && forall c | 0 <= c < ncomps :: StepsTaken(scans, s, c)
  {
    hide BandOk, DcSent, StepsTaken;
    if forall i | 0 <= i < |s.comps| :: BandOk(s, p[s.comps[i]]) {
      forall c | c in s.comps
        ensures BandOk(s, p[c])
      {
        var i :| 0 <= i < |s.comps| && s.comps[i] == c;
      }
    }
  }

  lemma ProgressShaped(scans: seq<ScanInfo>, ncomps: nat)
    ensures Shaped(AfterAll(scans, Start(ncomps)), ncomps)
  {
  }

  // ---------------------------------------------------------------- the laws

  lemma {:induction false} StepsLegal(scans: seq<ScanInfo>, ncomps: nat)
    ensures AllOk(scans, Start(ncomps)) <==> Legal(scans, ncomps)
    decreases |scans|
  {
    hide AfterAll, Start, AllOk, Legal, ScanOk, NextLegal, After;
    if scans == [] {
      NoScans(ncomps);
      NoneLegal(ncomps);
    } else {
      var n := |scans| - 1;
      StepsLegal(scans[..n], ncomps);
      assert scans[..n] + [scans[n]] == scans;
      StartShaped(ncomps);
      AllOkSnoc(scans[..n], scans[n], Start(ncomps));
      LegalSnoc(scans[..n], scans[n], ncomps);
      if Legal(scans[..n], ncomps) {
        NextIs(scans[..n], scans[n], ncomps);
      }
    }
  }

  lemma StartShaped(ncomps: nat)
    ensures Shaped(Start(ncomps), |Start(ncomps)|)
  {
  }

  lemma NoneLegal(ncomps: nat)
    ensures Legal([], ncomps)
  {
  }

  /** A progressive script is accepted exactly if every scan has a legal shape and follows a DC scan of its component,
      the scans of every coefficient start anywhere and add one bit each, and every component has a DC scan. */
  lemma ProgressiveLaw(scans: seq<ScanInfo>, ncomps: nat)
    ensures ProgressiveOk(scans, ncomps)
        <==> Legal(scans, ncomps) && forall c | 0 <= c < ncomps :: DcSent(scans, |scans|, c)
  {
    hide AfterAll, Start, AllOk, Legal, DcSent;
    StepsLegal(scans, ncomps);
    ProgressShaped(scans, ncomps);
    if Legal(scans, ncomps) {
      forall c | 0 <= c < ncomps
        ensures AfterAll(scans, Start(ncomps))[c][0] >= 0 <==> DcSent(scans, |scans|, c)
      {
        DcRecorded(scans, ncomps, c);
      }
    }
  }

  /** A sequential scan sends whole blocks of one to four components in increasing order. */
  predicate WholeScan(s: ScanInfo, ncomps: nat)
  {
    && 1 <= |s.comps| <= 4 && (forall i | 0 <= i < |s.comps| :: 0 <= s.comps[i] < ncomps)
    && (forall i, j | 0 <= i < j < |s.comps| :: s.comps[i] < s.comps[j])
    && s.ss == 0 && s.se == 63 && s.ah == 0 && s.al == 0
  }

  /** Component `c` is in one scan and no other. */
  predicate SentOnce(scans: seq<ScanInfo>, c: int)
  {
    exists i | 0 <= i < |scans| :: c in scans[i].comps && forall j | 0 <= j < |scans| && j != i :: c !in scans[j].comps
  }

  predicate AllWhole(scans: seq<ScanInfo>, ncomps: nat) { forall i | 0 <= i < |scans| :: WholeScan(scans[i], ncomps) }

  lemma WholeIs(s: ScanInfo, ncomps: nat)
    ensures SequentialScanOk(s, ncomps) <==> WholeScan(s, ncomps)
  {
    SameOrder(s, ncomps);
    if WholeScan(s, ncomps) {
      forall i | 0 < i < |s.comps|
        ensures s.comps[i - 1] < s.comps[i]
      {
      }
    }
  }

  lemma AllWholeIs(scans: seq<ScanInfo>, ncomps: nat)
    ensures (forall i | 0 <= i < |scans| :: SequentialScanOk(scans[i], ncomps)) <==> AllWhole(scans, ncomps)
  {
    hide SequentialScanOk, WholeScan;
    forall i | 0 <= i < |scans|
      ensures SequentialScanOk(scans[i], ncomps) <==> WholeScan(scans[i], ncomps)
    {
      WholeIs(scans[i], ncomps);
    }
  }

  lemma InRange(scans: seq<ScanInfo>, ncomps: nat, i: nat, c: int)
    requires AllWhole(scans, ncomps) && i < |scans| && c in scans[i].comps
    ensures 0 <= c < ncomps
  {
    assert WholeScan(scans[i], ncomps);
  }

  lemma SequentialLaw(scans: seq<ScanInfo>, ncomps: nat)
    ensures SequentialOk(scans, ncomps)
        <==> AllWhole(scans, ncomps) && forall c | 0 <= c < ncomps :: SentOnce(scans, c)
  {
    hide SequentialScanOk, AllWhole;
    AllWholeIs(scans, ncomps);
    if SequentialOk(scans, ncomps) {
      forall c | 0 <= c < ncomps
        ensures SentOnce(scans, c)
      {
        assert Sent(scans, c);
        var i :| 0 <= i < |scans| && c in scans[i].comps;
        forall j | 0 <= j < |scans| && j != i
          ensures c !in scans[j].comps
        {
        }
      }
    }
    if AllWhole(scans, ncomps) && forall c | 0 <= c < ncomps :: SentOnce(scans, c) {
      forall i, j, c | 0 <= i < j < |scans| && c in scans[i].comps
        ensures c !in scans[j].comps
      {
        InRange(scans, ncomps, i, c);
        assert SentOnce(scans, c);
      }
      forall c | 0 <= c < ncomps
        ensures Sent(scans, c)
      {
        assert SentOnce(scans, c);
      }
    }
  }

  /** All scripts: not empty; if the first scan sends whole blocks all do, and each component is in just one of them. */
  lemma ScriptLaw(scans: seq<ScanInfo>, ncomps: nat)
    ensures scans == [] ==> !ScriptOk(scans, ncomps)
    ensures scans != [] && scans[0].ss == 0 && scans[0].se == 63 ==>
      (ScriptOk(scans, ncomps) <==> AllWhole(scans, ncomps) && forall c | 0 <= c < ncomps :: SentOnce(scans, c))
    ensures scans != [] && !(scans[0].ss == 0 && scans[0].se == 63) ==>
      (ScriptOk(scans, ncomps) <==> Legal(scans, ncomps) && forall c | 0 <= c < ncomps :: DcSent(scans, |scans|, c))
  {
    hide AfterAll, Start, AllOk, Legal, DcSent, ProgressiveOk, SentOnce, AllWhole, SequentialOk;
    ProgressiveLaw(scans, ncomps);
    SequentialLaw(scans, ncomps);
  }

  // ---------------------------------------------------------------- bit by bit from any position

  /** The scans that add the bits below position `a`, one at a time. */
  function Down(c: nat, ss: nat, se: nat, a: nat): seq<ScanInfo>
  {
    if a == 0 then [] else [ScanInfo([c], ss, se, a, a - 1)] + Down(c, ss, se, a - 1)
  }

  /** The DC coefficients of all components, then one band of component `c`, from position `al` on bit by bit. */
  function Stepwise(ncomps: nat, c: nat, ss: nat, se: nat, al: nat): seq<ScanInfo>
  {
    [ScanInfo(seq(ncomps, i => i), 0, 0, 0, 0), ScanInfo([c], ss, se, 0, al)] + Down(c, ss, se, al)
  }

  /** All DC coefficients have been sent, and the band has been brought to position `a`. */
  predicate SentTo(p: Progress, ncomps: nat, c: nat, ss: nat, se: nat, a: int)
  {
    && Shaped(p, ncomps) && c < ncomps && 1 <= ss <= se <= 63
    && (forall d | 0 <= d < ncomps :: p[d][0] == 0) && forall k | ss <= k <= se :: p[c][k] == a
  }

  lemma OneDown(p: Progress, ncomps: nat, c: nat, ss: nat, se: nat, a: nat)
    requires SentTo(p, ncomps, c, ss, se, a) && 0 < a <= 10
    ensures var s := ScanInfo([c], ss, se, a, a - 1);
      ScanOk(s, p) && SentTo(After(s, p), ncomps, c, ss, se, a - 1)
  {
    var s := ScanInfo([c], ss, se, a, a - 1);
    assert BandOk(s, p[c]);
  }

  lemma {:induction false} DownOk(p: Progress, ncomps: nat, c: nat, ss: nat, se: nat, a: nat)
    requires SentTo(p, ncomps, c, ss, se, a) && a <= 10
    ensures AllOk(Down(c, ss, se, a), p) && SentTo(AfterAll(Down(c, ss, se, a), p), ncomps, c, ss, se, 0)
    decreases a
  {
    hide ScanOk, After;
    if a > 0 {
      assert Down(c, ss, se, a)[1..] == Down(c, ss, se, a - 1);
      OneDown(p, ncomps, c, ss, se, a);
      DownOk(After(ScanInfo([c], ss, se, a, a - 1), p), ncomps, c, ss, se, a - 1);
    }
  }

  lemma TwoSteps(s1: ScanInfo, s2: ScanInfo, rest: seq<ScanInfo>, p: Progress)
    requires Shaped(p, |p|)
    ensures Shaped(After(s1, p), |After(s1, p)|)
    ensures AllOk([s1, s2] + rest, p)
        <==> ScanOk(s1, p) && ScanOk(s2, After(s1, p)) && AllOk(rest, After(s2, After(s1, p)))
    ensures AfterAll([s1, s2] + rest, p) == AfterAll(rest, After(s2, After(s1, p)))
  {
    hide ScanOk, After;
    var all := [s1, s2] + rest;
    assert all[1..] == [s2] + rest && ([s2] + rest)[1..] == rest;
  }

  lemma FirstTwo(ncomps: nat, c: nat, ss: nat, se: nat, al: int) returns (p: Progress)
    requires 1 <= ncomps <= 4 && c < ncomps && 1 <= ss <= se <= 63
    ensures Shaped(p, ncomps) && p == After(ScanInfo(seq(ncomps, i => i), 0, 0, 0, 0), Start(ncomps))
    ensures ScanOk(ScanInfo(seq(ncomps, i => i), 0, 0, 0, 0), Start(ncomps))
    ensures var s := ScanInfo([c], ss, se, 0, al);
      if 0 <= al <= 10 then ScanOk(s, p) && SentTo(After(s, p), ncomps, c, ss, se, al) else !ScanOk(s, p)
  {
    var dc := ScanInfo(seq(ncomps, i => i), 0, 0, 0, 0);
    p := After(dc, Start(ncomps));
    forall d | 0 <= d < ncomps
      ensures d in dc.comps && p[d][0] == 0
    {
      assert dc.comps[d] == d;
    }
    var s := ScanInfo([c], ss, se, 0, al);
    assert BandOk(s, p[c]);
  }

  /** Such a script is accepted from every position up to 10, and from no other. */
  lemma StepwiseLaw(ncomps: nat, c: nat, ss: nat, se: nat, al: nat)
    requires 1 <= ncomps <= 4 && c < ncomps && 1 <= ss <= se <= 63
    ensures ScriptOk(Stepwise(ncomps, c, ss, se, al), ncomps) <==> al <= 10
  {
    hide ScanOk, After, Start, Down, AllOk, AfterAll;
    var scans := Stepwise(ncomps, c, ss, se, al);
    var p := FirstTwo(ncomps, c, ss, se, al);
    StartShaped(ncomps);
    TwoSteps(scans[0], scans[1], Down(c, ss, se, al), Start(ncomps));
    if al <= 10 {
      DownOk(After(scans[1], p), ncomps, c, ss, se, al);
    }
  }
}
