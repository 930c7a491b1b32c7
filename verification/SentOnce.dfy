/** Tables are not repeated: a header defines a table just if some component needs it and it has not been sent since
    it was stored, and a restart interval just if it is not the one last sent. */
module SentOnce {
  import opened Huffman
  import opened MarkerSyntax
  import opened MarkerWriter

  /** How many of the segments define a Huffman table. */
  function Dhts(gs: seq<Segment>, isAc: bool, index: nat): (n: nat)
  {
    if gs == [] then 0
    else
      var g := gs[|gs| - 1];
      Dhts(gs[..|gs| - 1], isAc, index) + if g.Dht? && g.isAc == isAc && g.index == index then 1 else 0
  }

  /** ... a quantization table ... */
  function Dqts(gs: seq<Segment>, index: nat): (n: nat)
  {
    if gs == [] then 0
    else
      var g := gs[|gs| - 1];
      Dqts(gs[..|gs| - 1], index) + if g.Dqt? && g.index == index then 1 else 0
  }

  /** ... a restart interval. */
  function Dris(gs: seq<Segment>): (n: nat)
  {
    if gs == [] then 0 else Dris(gs[..|gs| - 1]) + if gs[|gs| - 1].Dri? then 1 else 0
  }

  lemma {:induction false} CountsAdd(a: seq<Segment>, b: seq<Segment>, isAc: bool, index: nat)
    ensures Dhts(a + b, isAc, index) == Dhts(a, isAc, index) + Dhts(b, isAc, index)
    ensures Dqts(a + b, index) == Dqts(a, index) + Dqts(b, index)
    ensures Dris(a + b) == Dris(a) + Dris(b)
    decreases |b|
  {
    if b == [] {
      assert a + b == a;
    } else {
      assert (a + b)[..|a + b| - 1] == a + b[..|b| - 1];
      CountsAdd(a, b[..|b| - 1], isAc, index);
    }
  }

  lemma CountOne(g: Segment, isAc: bool, index: nat)
    ensures Dhts([g], isAc, index) == if g.Dht? && g.isAc == isAc && g.index == index then 1 else 0
    ensures Dqts([g], index) == if g.Dqt? && g.index == index then 1 else 0
    ensures Dris([g]) == if g.Dri? then 1 else 0
  {
    CountNone(isAc, index);
    assert [g][..0] == [];
  }

  lemma CountNone(isAc: bool, index: nat)
    ensures Dhts([], isAc, index) == Dqts([], index) == Dris([]) == 0
  {
  }

  // ---------------------------------------------------------------- Huffman tables

  /** Component `ci` needs the table in this scan. */
  predicate NeededBy(f: Frame, sc: ScanParams, ci: nat, isAc: bool, index: nat)
    requires ci < |f.comps|
  {
    if isAc then UsesAc(f, sc) && f.comps[ci].acTbl == index else UsesDc(f, sc) && f.comps[ci].dcTbl == index
  }

  /** Some of the first `n` components of the scan needs it. */
  predicate Needed(f: Frame, sc: ScanParams, n: nat, isAc: bool, index: nat)
    requires sc.Ok(f) && n <= |sc.current|
  {
    exists i | 0 <= i < n :: NeededBy(f, sc, sc.current[i], isAc, index)
  }

  lemma SendHuffOnce(t: Tables, sends: bool, index: nat, isAc: bool, at: nat)
    requires t.Ok() && index < 4 && t.Huff(sends)[index].Some? && at < 4
    ensures var r := SendHuff(t, sends, index);
      && Dhts(r.0, isAc, at) == (if sends == isAc && index == at && !t.HuffSent(isAc)[at] then 1 else 0)
      && Dris(r.0) == 0 && |r.1.HuffSent(isAc)| == 4
      && r.1.HuffSent(isAc)[at] == (t.HuffSent(isAc)[at] || (sends == isAc && index == at))
  {
    hide SoundHuff, SoundQuant;
    CountOne(HuffSegment(sends, index, t.Huff(sends)[index].value), isAc, at);
  }

  lemma PairOnce(t: Tables, f: Frame, sc: ScanParams, ci: nat, isAc: bool, at: nat)
    requires t.Ok() && f.Ok() && ci < |f.comps| && PairThere(t, f, sc, ci) && at < 4
    ensures var r := SendPair(t, f, sc, ci);
      && Dhts(r.0, isAc, at) == (if NeededBy(f, sc, ci, isAc, at) && !t.HuffSent(isAc)[at] then 1 else 0)
      && Dris(r.0) == 0 && |r.1.HuffSent(isAc)| == 4
      && r.1.HuffSent(isAc)[at] == (t.HuffSent(isAc)[at] || NeededBy(f, sc, ci, isAc, at))
  {
    hide SoundHuff, SoundQuant, SendHuff, Dhts, Dris, Dqts;
    CountNone(isAc, at);
    var d := if UsesDc(f, sc) then SendHuff(t, false, f.comps[ci].dcTbl) else ([], t);
    if UsesDc(f, sc) {
      SendHuffOnce(t, false, f.comps[ci].dcTbl, isAc, at);
    }
    var a := if UsesAc(f, sc) then SendHuff(d.1, true, f.comps[ci].acTbl) else ([], d.1);
    if UsesAc(f, sc) {
      SendHuffOnce(d.1, true, f.comps[ci].acTbl, isAc, at);
    }
    CountsAdd(d.0, a.0, isAc, at);
  }

  lemma {:induction false} ScanTablesOnce(t: Tables, f: Frame, sc: ScanParams, n: nat, isAc: bool, at: nat)
    requires t.Ok() && f.Ok() && sc.Ok(f) && n <= |sc.current| && HuffThere(t, f, sc, n) && at < 4
    ensures var r := ScanTables(t, f, sc, n);
      && Dhts(r.0, isAc, at) == (if Needed(f, sc, n, isAc, at) && !t.HuffSent(isAc)[at] then 1 else 0)
      && Dris(r.0) == 0 && |r.1.HuffSent(isAc)| == 4
      && r.1.HuffSent(isAc)[at] == (t.HuffSent(isAc)[at] || Needed(f, sc, n, isAc, at))
    decreases n
  {
    hide SoundHuff, SoundQuant, SendPair, Dhts, Dris, Dqts, NeededBy;
    if n == 0 {
      CountNone(isAc, at);
    } else {
      ScanTablesOnce(t, f, sc, n - 1, isAc, at);
      var r := ScanTables(t, f, sc, n - 1);
      PairOnce(r.1, f, sc, sc.current[n - 1], isAc, at);
      CountsAdd(r.0, SendPair(r.1, f, sc, sc.current[n - 1]).0, isAc, at);
      assert Needed(f, sc, n, isAc, at)
          <==> Needed(f, sc, n - 1, isAc, at) || NeededBy(f, sc, sc.current[n - 1], isAc, at);
    }
  }

  /** The header of a scan defines just the tables it needs that have not been sent, each once, and the restart
      interval just if it has changed. */
  lemma ScanHeaderOnce(t: Tables, f: Frame, sc: ScanParams, isAc: bool, at: nat)
    requires t.Ok() && f.Ok() && sc.Ok(f) && HuffThere(t, f, sc, |sc.current|) && at < 4
    ensures var r := ScanHeader(t, f, sc);
      && Dhts(r.0, isAc, at) == (if Needed(f, sc, |sc.current|, isAc, at) && !t.HuffSent(isAc)[at] then 1 else 0)
      && Dris(r.0) == (if sc.interval != t.lastInterval then 1 else 0) && r.1.lastInterval == sc.interval
      && (sc.interval != t.lastInterval ==> Dri(sc.interval) in r.0)
      && |r.1.HuffSent(isAc)| == 4
      && r.1.HuffSent(isAc)[at] == (t.HuffSent(isAc)[at] || Needed(f, sc, |sc.current|, isAc, at))
  {
    hide SoundHuff, SoundQuant, ScanTables, Dhts, Dris, Dqts, Needed, HuffThere, ScanCompsOf;
    ScanTablesOnce(t, f, sc, |sc.current|, isAc, at);
    var r := ScanTables(t, f, sc, |sc.current|);
    var dri := if sc.interval != t.lastInterval then [Dri(sc.interval)] else [];
    CountNone(isAc, at);
    CountOne(Dri(sc.interval), isAc, at);
    CountOne(SosSegment(f, sc), isAc, at);
    CountsAdd(r.0, dri, isAc, at);
    CountsAdd(r.0 + dri, [SosSegment(f, sc)], isAc, at);
    if sc.interval != t.lastInterval {
      assert (r.0 + dri + [SosSegment(f, sc)])[|r.0|] == Dri(sc.interval);
    }
  }

  // ---------------------------------------------------------------- several scans

  ghost predicate AllThere(t: Tables, f: Frame, scs: seq<ScanParams>)
    requires t.Ok() && f.Ok()
  {
    forall i | 0 <= i < |scs| :: scs[i].Ok(f) && HuffThere(t, f, scs[i], |scs[i].current|)
  }

  /** The headers of consecutive scans, while no table is stored. */
  ghost function ScanHeaders(t: Tables, f: Frame, scs: seq<ScanParams>): (r: (seq<Segment>, Tables))
    requires t.Ok() && f.Ok() && AllThere(t, f, scs)
    ensures r.1.Ok() && r.1.dc == t.dc && r.1.ac == t.ac
    decreases |scs|
  {
    if scs == [] then ([], t)
    else
      var n := |scs| - 1;
      var r := ScanHeaders(t, f, scs[..n]);
      StillThere(t, r.1, f, scs[n]);
      var s := ScanHeader(r.1, f, scs[n]);
      (r.0 + s.0, s.1)
  }

  lemma StillThere(t: Tables, u: Tables, f: Frame, sc: ScanParams)
    requires t.Ok() && u.Ok() && f.Ok() && sc.Ok(f) && HuffThere(t, f, sc, |sc.current|)
    requires u.dc == t.dc && u.ac == t.ac
    ensures HuffThere(u, f, sc, |sc.current|)
    ensures ScanHeader(u, f, sc).1.dc == t.dc && ScanHeader(u, f, sc).1.ac == t.ac
  {
    hide SoundHuff, SoundQuant;
    forall i | 0 <= i < |sc.current|
      ensures PairThere(u, f, sc, sc.current[i])
    {
      assert PairThere(t, f, sc, sc.current[i]);
    }
  }

  ghost predicate NeededInAny(f: Frame, scs: seq<ScanParams>, isAc: bool, at: nat)
    requires forall i | 0 <= i < |scs| :: scs[i].Ok(f)
  {
    exists i | 0 <= i < |scs| :: Needed(f, scs[i], |scs[i].current|, isAc, at)
  }

  /** Until a table is stored again it is defined at most once, and that just if a scan needs it. */
  lemma {:induction false} OnceUntilStored(t: Tables, f: Frame, scs: seq<ScanParams>, isAc: bool, at: nat)
    requires t.Ok() && f.Ok() && AllThere(t, f, scs) && at < 4
    ensures var r := ScanHeaders(t, f, scs);
      && Dhts(r.0, isAc, at) == (if NeededInAny(f, scs, isAc, at) && !t.HuffSent(isAc)[at] then 1 else 0)
      && |r.1.HuffSent(isAc)| == 4
      && r.1.HuffSent(isAc)[at] == (t.HuffSent(isAc)[at] || NeededInAny(f, scs, isAc, at))
    decreases |scs|
  {
    hide SoundHuff, SoundQuant, Dhts, Dris, Dqts, Needed, HuffThere, ScanHeader;
    if scs == [] {
      CountNone(isAc, at);
    } else {
      var n := |scs| - 1;
      OnceUntilStored(t, f, scs[..n], isAc, at);
      var r := ScanHeaders(t, f, scs[..n]);
      StillThere(t, r.1, f, scs[n]);
      ScanHeaderOnce(r.1, f, scs[n], isAc, at);
      CountsAdd(r.0, ScanHeader(r.1, f, scs[n]).0, isAc, at);
      AnyMore(f, scs, isAc, at);
    }
  }

  lemma AnyMore(f: Frame, scs: seq<ScanParams>, isAc: bool, at: nat)
    requires scs != [] && forall i | 0 <= i < |scs| :: scs[i].Ok(f)
    ensures var n := |scs| - 1;
      NeededInAny(f, scs, isAc, at)
      <==> NeededInAny(f, scs[..n], isAc, at) || Needed(f, scs[n], |scs[n].current|, isAc, at)
  {
    hide Needed;
    var n := |scs| - 1;
    if i :| 0 <= i < n && Needed(f, scs[..n][i], |scs[..n][i].current|, isAc, at) {
      assert Needed(f, scs[i], |scs[i].current|, isAc, at);
    }
    if i :| 0 <= i < |scs| && Needed(f, scs[i], |scs[i].current|, isAc, at) {
      if i < n {
        assert Needed(f, scs[..n][i], |scs[..n][i].current|, isAc, at);
      }
    }
  }

  /** Scans with the same restart interval define it at most once. */
  lemma {:induction false} SameInterval(t: Tables, f: Frame, scs: seq<ScanParams>, interval: nat)
    requires t.Ok() && f.Ok() && AllThere(t, f, scs) && forall i | 0 <= i < |scs| :: scs[i].interval == interval
    ensures var r := ScanHeaders(t, f, scs);
      && Dris(r.0) == (if scs != [] && interval != t.lastInterval then 1 else 0)
      && r.1.lastInterval == if scs == [] then t.lastInterval else interval
    decreases |scs|
  {
    hide SoundHuff, SoundQuant, Dhts, Dris, Dqts, Needed, HuffThere, ScanHeader;
    if scs == [] {
      CountNone(false, 0);
    } else {
      var n := |scs| - 1;
      SameInterval(t, f, scs[..n], interval);
      var r := ScanHeaders(t, f, scs[..n]);
      StillThere(t, r.1, f, scs[n]);
      ScanHeaderOnce(r.1, f, scs[n], false, 0);
      CountsAdd(r.0, ScanHeader(r.1, f, scs[n]).0, false, 0);
    }
  }

  // ---------------------------------------------------------------- quantization tables

  predicate Quantizes(f: Frame, n: nat, at: nat)
    requires n <= |f.comps|
  {
    exists i | 0 <= i < n :: f.comps[i].frame.tq == at
  }

  lemma SendQuantOnce(t: Tables, index: nat, at: nat)
    requires t.Ok() && index < 4 && t.quant[index].Some? && at < 4
    ensures var r := SendQuant(t, index);
      && Dqts(r.0, at) == (if index == at && !t.quantSent[at] then 1 else 0)
      && r.1.quantSent[at] == (t.quantSent[at] || index == at)
  {
    hide SoundHuff, SoundQuant;
    CountNone(false, at);
    CountOne(QuantSegment(index, t.quant[index].value), false, at);
  }

  lemma {:induction false} FrameTablesOnce(t: Tables, f: Frame, n: nat, at: nat)
    requires t.Ok() && f.Ok() && n <= |f.comps| && QuantThere(t, f, n) && at < 4
    ensures var r := FrameTables(t, f, n);
      && Dqts(r.0, at) == (if Quantizes(f, n, at) && !t.quantSent[at] then 1 else 0)
      && r.1.quantSent[at] == (t.quantSent[at] || Quantizes(f, n, at))
    decreases n
  {
    hide SoundHuff, SoundQuant, SendQuant, Dqts;
    if n == 0 {
      CountNone(false, at);
    } else {
      FrameTablesOnce(t, f, n - 1, at);
      var r := FrameTables(t, f, n - 1);
      var q := f.comps[n - 1].frame.tq;
      SendQuantOnce(r.1, q, at);
      CountsAdd(r.0, SendQuant(r.1, q).0, false, at);
      assert Quantizes(f, n, at) <==> Quantizes(f, n - 1, at) || q == at;
    }
  }

  /** The frame header defines each quantization table of a component once, unless it has been sent. */
  lemma FrameHeaderOnce(t: Tables, f: Frame, at: nat)
    requires t.Ok() && f.Ok() && QuantThere(t, f, |f.comps|) && f.height < 0x1_0000 && f.width < 0x1_0000 && at < 4
    ensures var r := FrameHeader(t, f);
      && Dqts(r.0, at) == (if Quantizes(f, |f.comps|, at) && !t.quantSent[at] then 1 else 0)
      && r.1.quantSent[at] == (t.quantSent[at] || Quantizes(f, |f.comps|, at))
  {
    hide SoundHuff, SoundQuant, FrameTables, Dqts, Quantizes, QuantThere, SofCode;
    FrameTablesOnce(t, f, |f.comps|, at);
    CountOne(SofSegment(t, f), false, at);
    CountsAdd(FrameTables(t, f, |f.comps|).0, [SofSegment(t, f)], false, at);
  }
}
