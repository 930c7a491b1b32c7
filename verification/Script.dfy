/** Progressive scan scripts: which scripts the compressor accepts, and how far each scan has
    brought each coefficient of each component. */
module Script {

  const DCTSIZE2: nat := 64
  const MAX_COMPS_IN_SCAN: nat := 4
  const MAX_AH_AL: int := 10

  datatype ScanInfo = ScanInfo(comps: seq<int>, ss: int, se: int, ah: int, al: int) {
    /** A DC refinement scan sends no Huffman symbols. */
    predicate DcRefine() { ss == 0 && ah != 0 }
  }

  /** For every component and zigzag index, the Al of the last scan that sent it, -1 before any. */
  type Progress = seq<seq<int>>

  predicate Shaped(p: Progress, ncomps: nat)
  {
    |p| == ncomps && forall c | 0 <= c < ncomps :: |p[c]| == DCTSIZE2
  }

  function Start(ncomps: nat): (p: Progress)
    ensures Shaped(p, ncomps)
    ensures forall c, k | 0 <= c < ncomps && 0 <= k < DCTSIZE2 :: p[c][k] == -1
  {
    seq(ncomps, _ => seq(DCTSIZE2, _ => -1))
  }

  predicate CompsOk(s: ScanInfo, ncomps: nat)
  {
    && 1 <= |s.comps| <= MAX_COMPS_IN_SCAN
    && (forall i | 0 <= i < |s.comps| :: 0 <= s.comps[i] < ncomps)
    && (forall i | 0 < i < |s.comps| :: s.comps[i - 1] < s.comps[i])
  }

  predicate ParamsOk(s: ScanInfo)
  {
    && 0 <= s.ss <= s.se < DCTSIZE2 && 0 <= s.ah <= MAX_AH_AL && 0 <= s.al <= MAX_AH_AL
    && (if s.ss == 0 then s.se == 0 else |s.comps| == 1)
  }

  /** The first scan of a coefficient, or one that adds the next bit. */
  predicate StepOk(s: ScanInfo, last: int)
  {
    if last < 0 then s.ah == 0 else s.ah == last && s.al == s.ah - 1
  }

  predicate BandOk(s: ScanInfo, row: seq<int>)
    requires |row| == DCTSIZE2 && 0 <= s.ss <= s.se < DCTSIZE2
  {
    (s.ss != 0 ==> row[0] >= 0) && forall k | s.ss <= k <= s.se :: StepOk(s, row[k])
  }

  predicate ScanOk(s: ScanInfo, p: Progress)
  {
    && CompsOk(s, |p|) && ParamsOk(s) && Shaped(p, |p|)
    && forall i | 0 <= i < |s.comps| :: BandOk(s, p[s.comps[i]])
  }

  function After(s: ScanInfo, p: Progress): (q: Progress)
    requires Shaped(p, |p|)
    ensures Shaped(q, |p|)
    ensures forall c, k | 0 <= c < |p| && 0 <= k < DCTSIZE2 ::
      q[c][k] == if c in s.comps && s.ss <= k <= s.se then s.al else p[c][k]
  {
    seq(|p|, c requires 0 <= c < |p| =>
      seq(DCTSIZE2, k requires 0 <= k < DCTSIZE2 => if c in s.comps && s.ss <= k <= s.se then s.al else p[c][k]))
  }

  function AfterAll(scans: seq<ScanInfo>, p: Progress): (q: Progress)
    requires Shaped(p, |p|)
    ensures Shaped(q, |p|)
  {
    if scans == [] then p else AfterAll(scans[1..], After(scans[0], p))
  }

  predicate AllOk(scans: seq<ScanInfo>, p: Progress)
    requires Shaped(p, |p|)
  {
    scans == [] || (ScanOk(scans[0], p) && AllOk(scans[1..], After(scans[0], p)))
  }

  predicate IsProgressive(scans: seq<ScanInfo>)
    requires scans != []
  {
    scans[0].ss != 0 || scans[0].se != DCTSIZE2 - 1
  }

  /** What the compressor demands of a progressive script: at least some DC data for every
      component, and every scan a legal step. */
  predicate ProgressiveOk(scans: seq<ScanInfo>, ncomps: nat)
  {
    && AllOk(scans, Start(ncomps))
    && forall c | 0 <= c < ncomps :: AfterAll(scans, Start(ncomps))[c][0] >= 0
  }

  predicate SequentialScanOk(s: ScanInfo, ncomps: nat)
  {
    CompsOk(s, ncomps) && s.ss == 0 && s.se == DCTSIZE2 - 1 && s.ah == 0 && s.al == 0
  }

  /** What it demands of a sequential one: whole blocks, every component exactly once. */
  predicate SequentialOk(scans: seq<ScanInfo>, ncomps: nat)
  {
    && (forall i | 0 <= i < |scans| :: SequentialScanOk(scans[i], ncomps))
    && (forall i, j, c | 0 <= i < j < |scans| && c in scans[i].comps :: c !in scans[j].comps)
    && (forall c | 0 <= c < ncomps :: Sent(scans, c))
  }

  predicate Sent(scans: seq<ScanInfo>, c: int)
  {
    exists i | 0 <= i < |scans| :: c in scans[i].comps
  }

  predicate ScriptOk(scans: seq<ScanInfo>, ncomps: nat)
  {
    scans != [] && if IsProgressive(scans) then ProgressiveOk(scans, ncomps) else SequentialOk(scans, ncomps)
  }

  lemma {:induction false} AllOkSnoc(scans: seq<ScanInfo>, s: ScanInfo, p: Progress)
    requires Shaped(p, |p|)
    ensures AllOk(scans + [s], p) <==> AllOk(scans, p) && ScanOk(s, AfterAll(scans, p))
    ensures AfterAll(scans + [s], p) == After(s, AfterAll(scans, p))
    decreases |scans|
  {
    hide ScanOk, After;
    if scans == [] {
      assert scans + [s] == [s] && [s][1..] == [];
    } else {
      assert (scans + [s])[1..] == scans[1..] + [s];
      AllOkSnoc(scans[1..], s, After(scans[0], p));
    }
  }

  lemma {:induction false} AllOkPrefix(scans: seq<ScanInfo>, n: nat, p: Progress)
    requires Shaped(p, |p|) && n <= |scans| && AllOk(scans, p)
    ensures AllOk(scans[..n], p)
    decreases |scans| - n
  {
    if n < |scans| {
      AllOkPrefix(scans, n + 1, p);
      assert scans[..n + 1] == scans[..n] + [scans[n]];
      AllOkSnoc(scans[..n], scans[n], p);
    } else {
      assert scans[..n] == scans;
    }
  }

  // ---------------------------------------------------------------- the decoder's view

  /** The checks of the progressive decoder before a scan that are fatal ... */
  predicate DecoderRejects(s: ScanInfo)
  {
    || (if s.ss == 0 then s.se != 0 else s.ss > s.se || s.se >= DCTSIZE2 || |s.comps| != 1)
    || (s.ah != 0 && s.al != s.ah - 1)
    || s.al > 13
  }

  /** ... and those it only warns about, given the progress so far. */
  predicate DecoderWarns(s: ScanInfo, p: Progress)
    requires Shaped(p, |p|) && CompsOk(s, |p|) && 0 <= s.ss <= s.se < DCTSIZE2
  {
    exists i | 0 <= i < |s.comps| ::
      var row := p[s.comps[i]];
      (s.ss != 0 && row[0] < 0) || exists k | s.ss <= k <= s.se :: s.ah != (if row[k] < 0 then 0 else row[k])
  }

  /** A scan the compressor accepts never makes the decoder warn. */
  lemma NeverWarns(s: ScanInfo, p: Progress)
    requires ScanOk(s, p)
    ensures !DecoderRejects(s) && !DecoderWarns(s, p)
  {
    assert BandOk(s, p[s.comps[0]]);
    assert StepOk(s, p[s.comps[0]][s.ss]);
  }

  /** Every scan of an accepted script meets the state its predecessors left: no warnings at all. */
  lemma {:induction false} ScriptNeverWarns(scans: seq<ScanInfo>, p: Progress, n: nat)
    requires Shaped(p, |p|) && AllOk(scans, p) && n < |scans|
    ensures ScanOk(scans[n], AfterAll(scans[..n], p))
    ensures !DecoderRejects(scans[n]) && !DecoderWarns(scans[n], AfterAll(scans[..n], p))
  {
    AllOkPrefix(scans, n + 1, p);
    assert scans[..n + 1] == scans[..n] + [scans[n]];
    AllOkSnoc(scans[..n], scans[n], p);
    NeverWarns(scans[n], AfterAll(scans[..n], p));
  }

  // ---------------------------------------------------------------- validate_script

  ghost predicate Records(last: array2<int>, p: Progress)
    reads last
  {
    && Shaped(p, |p|) && last.Length0 == |p| && last.Length1 == DCTSIZE2
    && forall c, k | 0 <= c < |p| && 0 <= k < DCTSIZE2 :: last[c, k] == p[c][k]
  }

  lemma {:induction false} Increasing(s: ScanInfo, ncomps: nat, i: nat, j: nat)
    requires CompsOk(s, ncomps) && i < j < |s.comps|
    ensures s.comps[i] < s.comps[j]
    decreases j
  {
    assert s.comps[j - 1] < s.comps[j];
    if i < j - 1 {
      Increasing(s, ncomps, i, j - 1);
    }
  }

  lemma NotBefore(s: ScanInfo, ncomps: nat, j: nat)
    requires CompsOk(s, ncomps) && j < |s.comps|
    ensures s.comps[j] !in s.comps[..j]
  {
    forall i | 0 <= i < j
      ensures s.comps[i] != s.comps[j]
    {
      Increasing(s, ncomps, i, j);
    }
  }

  /** Component indexes in range and in frame order. */
  method CheckComps(s: ScanInfo, ncomps: nat) returns (ok: bool)
    ensures ok <==> CompsOk(s, ncomps)
  {
    var n := |s.comps|;
    if n <= 0 || n > MAX_COMPS_IN_SCAN {
      return false;
    }
    for ci := 0 to n
      invariant forall i | 0 <= i < ci :: 0 <= s.comps[i] < ncomps
      invariant forall i | 0 < i < ci :: s.comps[i - 1] < s.comps[i]
    {
      var thisi := s.comps[ci];
      if thisi < 0 || thisi >= ncomps {
        return false;
      }
      if ci > 0 && thisi <= s.comps[ci - 1] {
        return false;
      }
    }
    return true;
  }

  /** One component of a progressive scan: check its band and record the new bit position. */
  method CheckBand(s: ScanInfo, c: int, last: array2<int>, ghost row: seq<int>) returns (ok: bool)
    requires 0 <= c < last.Length0 && last.Length1 == |row| == DCTSIZE2 && 0 <= s.ss <= s.se < DCTSIZE2
    requires forall k | 0 <= k < DCTSIZE2 :: last[c, k] == row[k]
    modifies last
    ensures ok <==> BandOk(s, row)
    ensures forall c', k | 0 <= c' < last.Length0 && 0 <= k < DCTSIZE2 && c' != c :: last[c', k] == old(last[c', k])
    ensures ok ==> forall k | 0 <= k < DCTSIZE2 :: last[c, k] == if s.ss <= k <= s.se then s.al else row[k]
  {
    if s.ss != 0 && last[c, 0] < 0 {
      return false;
    }
    var coefi := s.ss;
    while coefi <= s.se
      invariant s.ss <= coefi <= s.se + 1
      invariant s.ss != 0 ==> row[0] >= 0
      invariant forall k | s.ss <= k < coefi :: StepOk(s, row[k])
      invariant forall k | 0 <= k < DCTSIZE2 :: last[c, k] == if s.ss <= k < coefi then s.al else row[k]
      invariant forall c', k | 0 <= c' < last.Length0 && 0 <= k < DCTSIZE2 && c' != c :: last[c', k] == old(last[c', k])
    {
      if last[c, coefi] < 0 {
        if s.ah != 0 {
          assert !StepOk(s, row[coefi]);
          return false;
        }
      } else if s.ah != last[c, coefi] || s.al != s.ah - 1 {
        assert !StepOk(s, row[coefi]);
        return false;
      }
      last[c, coefi] := s.al;
      coefi := coefi + 1;
    }
    return true;
  }

  method CheckProgressiveScan(s: ScanInfo, last: array2<int>, ghost p: Progress) returns (ok: bool)
    requires Records(last, p)
    modifies last
    ensures ok <==> ScanOk(s, p)
    ensures ok ==> Records(last, After(s, p))
  {
    ok := CheckComps(s, last.Length0);
    if !ok {
      return;
    }
    if s.ss < 0 || s.ss >= DCTSIZE2 || s.se < s.ss || s.se >= DCTSIZE2 ||
       s.ah < 0 || s.ah > MAX_AH_AL || s.al < 0 || s.al > MAX_AH_AL {
      return false;
    }
    if s.ss == 0 {
      if s.se != 0 {
        return false;
      }
    } else if |s.comps| != 1 {
      return false;
    }
    for ci := 0 to |s.comps|
      invariant forall i | 0 <= i < ci :: BandOk(s, p[s.comps[i]])
      invariant forall c, k | 0 <= c < |p| && 0 <= k < DCTSIZE2 ::
        last[c, k] == if c in s.comps[..ci] && s.ss <= k <= s.se then s.al else p[c][k]
    {
      NotBefore(s, |p|, ci);
      ok := CheckBand(s, s.comps[ci], last, p[s.comps[ci]]);
      if !ok {
        return;
      }
      assert s.comps[..ci + 1] == s.comps[..ci] + [s.comps[ci]];
    }
    assert s.comps[..|s.comps|] == s.comps;
    return true;
  }

  method ValidateProgressive(scans: seq<ScanInfo>, ncomps: nat) returns (ok: bool)
    ensures ok <==> ProgressiveOk(scans, ncomps)
  {
    hide ScanOk, After, Start;
    var last := new int[ncomps, DCTSIZE2]((c, k) => -1);
    ghost var p := Start(ncomps);
    assert scans[..0] == [];
    for scanno := 0 to |scans|
      invariant |p| == ncomps && Records(last, p)
      invariant AllOk(scans[..scanno], Start(ncomps)) && p == AfterAll(scans[..scanno], Start(ncomps))
    {
      assert scans[..scanno + 1] == scans[..scanno] + [scans[scanno]];
      AllOkSnoc(scans[..scanno], scans[scanno], Start(ncomps));
      ok := CheckProgressiveScan(scans[scanno], last, p);
      if !ok {
        if AllOk(scans, Start(ncomps)) {
          AllOkPrefix(scans, scanno + 1, Start(ncomps));
        }
        return;
      }
      p := After(scans[scanno], p);
    }
    assert scans[..|scans|] == scans;
    for ci := 0 to ncomps
      invariant forall c | 0 <= c < ci :: p[c][0] >= 0
    {
      if last[ci, 0] < 0 {
        return false;
      }
    }
    return true;
  }

  method ValidateSequential(scans: seq<ScanInfo>, ncomps: nat) returns (ok: bool)
    ensures ok <==> SequentialOk(scans, ncomps)
  {
    var sent := new bool[ncomps](_ => false);
    for scanno := 0 to |scans|
      invariant forall i | 0 <= i < scanno :: SequentialScanOk(scans[i], ncomps)
      invariant forall i, j, c | 0 <= i < j < scanno && c in scans[i].comps :: c !in scans[j].comps
      invariant forall c | 0 <= c < ncomps :: sent[c] == Sent(scans[..scanno], c)
    {
      var s := scans[scanno];
      ok := CheckComps(s, ncomps);
      if !ok {
        assert !SequentialScanOk(s, ncomps);
        return;
      }
      if s.ss != 0 || s.se != DCTSIZE2 - 1 || s.ah != 0 || s.al != 0 {
        assert !SequentialScanOk(s, ncomps);
        return false;
      }
      for ci := 0 to |s.comps|
        invariant forall i | 0 <= i < ci :: !Sent(scans[..scanno], s.comps[i])
        invariant forall c | 0 <= c < ncomps :: sent[c] == (Sent(scans[..scanno], c) || c in s.comps[..ci])
      {
        NotBefore(s, ncomps, ci);
        if sent[s.comps[ci]] {
          SentTwice(scans, scanno, s.comps[ci]);
          return false;
        }
        sent[s.comps[ci]] := true;
        assert s.comps[..ci + 1] == s.comps[..ci] + [s.comps[ci]];
      }
      assert s.comps[..|s.comps|] == s.comps;
      SentSnoc(scans, scanno, ncomps);
    }
    assert scans[..|scans|] == scans;
    for ci := 0 to ncomps
      invariant forall c | 0 <= c < ci :: Sent(scans, c)
    {
      if !sent[ci] {
        return false;
      }
    }
    return true;
  }

  lemma SentTwice(scans: seq<ScanInfo>, n: nat, c: int)
    requires n < |scans| && Sent(scans[..n], c) && c in scans[n].comps
    ensures exists i | 0 <= i < n :: c in scans[i].comps && c in scans[n].comps
  {
    var i :| 0 <= i < n && c in scans[..n][i].comps;
    assert c in scans[i].comps;
  }

  lemma SentSnoc(scans: seq<ScanInfo>, n: nat, ncomps: nat)
    requires n < |scans|
    ensures forall c :: Sent(scans[..n + 1], c) <==> Sent(scans[..n], c) || c in scans[n].comps
    ensures (forall c :: c in scans[n].comps ==> !Sent(scans[..n], c)) ==>
      forall i, c | 0 <= i < n && c in scans[i].comps :: c !in scans[n].comps
  {
    forall c
      ensures Sent(scans[..n + 1], c) <==> Sent(scans[..n], c) || c in scans[n].comps
    {
      if Sent(scans[..n], c) {
        var i :| 0 <= i < n && c in scans[..n][i].comps;
        assert c in scans[..n + 1][i].comps;
      }
      if c in scans[n].comps {
        assert c in scans[..n + 1][n].comps;
      }
    }
    forall i, c | 0 <= i < n && c in scans[i].comps
      ensures Sent(scans[..n], c)
    {
      assert c in scans[..n][i].comps;
    }
  }

  /** Accepts exactly the legal scripts, and tells progressive from sequential ones. */
  method ValidateScript(scans: seq<ScanInfo>, ncomps: nat) returns (ok: bool, progressive: bool)
    ensures ok <==> ScriptOk(scans, ncomps)
    ensures ok ==> progressive == IsProgressive(scans)
  {
    if |scans| <= 0 {
      return false, false;
    }
    if scans[0].ss != 0 || scans[0].se != DCTSIZE2 - 1 {
      progressive := true;
      ok := ValidateProgressive(scans, ncomps);
    } else {
      progressive := false;
      ok := ValidateSequential(scans, ncomps);
    }
  }
}
