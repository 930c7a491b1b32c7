/** Reading the headers that the compressor has written: the decoder ends up with the same tables and parameters,
    through all the scans of a file, though each table is sent only once. */
module HeaderRoundTrip {
  import opened Bits
  import opened Reading
  import opened BitOutput
  import opened BitInput
  import opened Huffman
  import opened Zigzag
  import opened MarkerSyntax
  import opened MarkerParsing
  import opened MarkerReading
  import opened MarkerWriter

  // ---------------------------------------------------------------- tables that code alike

  /** Equal as far as they are sent. */
  predicate SameTable(a: HuffTable, b: HuffTable)
    requires a.Shaped() && b.Shaped()
  {
    a.bits[1..] == b.bits[1..] && a.Count(16) == b.Count(16) <= 256
        && a.huffval[..a.Count(16)] == b.huffval[..b.Count(16)]
  }

  lemma {:induction false} SameCounts(a: HuffTable, b: HuffTable, l: nat)
    requires a.Shaped() && b.Shaped() && a.bits[1..] == b.bits[1..] && l <= 16
    ensures a.Count(l) == b.Count(l) && (l > 0 ==> a.First(l) == b.First(l) && a.bits[l] == b.bits[l])
    decreases l
  {
    if l > 0 {
      SameCounts(a, b, l - 1);
      assert a.bits[1..][l - 1] == b.bits[1..][l - 1];
    }
  }

  lemma {:induction false} SameStop(a: HuffTable, b: HuffTable, bs: BitSeq, l: nat)
    requires a.Shaped() && b.Shaped() && a.bits[1..] == b.bits[1..] && 1 <= l <= 17
    ensures a.Stop(bs, l) == b.Stop(bs, l)
    decreases 17 - l
  {
    if l <= 16 {
      SameCounts(a, b, l);
      if a.Miss(bs, l) {
        SameStop(a, b, bs, l + 1);
      }
    }
  }

  /** Such tables decode alike. */
  lemma SameDecoding(a: HuffTable, b: HuffTable, bs: BitSeq)
    requires a.Shaped() && b.Shaped() && SameTable(a, b) && b.ValidCounts()
    ensures a.ValidCounts() && a.DecodeSym(bs) == b.DecodeSym(bs)
  {
    hide HuffTable.Count, HuffTable.First, HuffTable.Stop, Value;
    forall l | 1 <= l <= 16
      ensures a.First(l) + a.bits[l] < Pow2(l)
    {
      SameCounts(a, b, l);
    }
    SameStop(a, b, bs, 1);
    var l := a.Stop(bs, 1);
    if l <= 16 && l <= |bs| {
      SameCounts(a, b, l);
      SameCounts(a, b, l - 1);
      a.MissAtLeastFirst(bs, l);
      var p := a.Count(l - 1) + (Value(bs[..l]) - a.First(l));
      CountStep(a, l);
      a.CountMono(l, 16);
      assert a.huffval[..a.Count(16)][p] == b.huffval[..b.Count(16)][p];
    }
  }

  lemma CountStep(a: HuffTable, l: nat)
    requires a.Shaped() && 1 <= l <= 16
    ensures a.Count(l) == a.Count(l - 1) + a.bits[l]
  {
  }

  // ---------------------------------------------------------------- what the decoder has been told

  predicate Known1(sent: bool, mine: Option<HuffTable>, theirs: Option<HuffTable>)
  {
    sent ==> mine.Some? && theirs.Some? && mine.value.Shaped() && theirs.value.Shaped()
             && SameTable(mine.value, theirs.value)
  }

  /** The decoder knows every table that counts as sent, and the restart interval. */
  ghost predicate InStep(t: Tables, info: Info)
  {
    && t.Ok() && info.Ok() && info.interval == t.lastInterval
    && (forall i | 0 <= i < 4 && t.quantSent[i] :: info.quant[i] == t.quant[i])
    && (forall i | 0 <= i < 4 :: Known1(t.dcSent[i], info.dc[i], t.dc[i]))
    && (forall i | 0 <= i < 4 :: Known1(t.acSent[i], info.ac[i], t.ac[i]))
  }

  predicate FitAll(info: Info, gs: seq<Segment>)
    requires info.Ok()
    decreases |gs|
  {
    gs == [] || (Fits(info, gs[0]) && FitAll(Apply(info, gs[0]), gs[1..]))
  }

  function ApplyAll(info: Info, gs: seq<Segment>): (r: Info)
    requires info.Ok() && FitAll(info, gs)
    ensures r.Ok()
    decreases |gs|
  {
    if gs == [] then info else ApplyAll(Apply(info, gs[0]), gs[1..])
  }

  lemma {:induction false} ApplyConcat(info: Info, a: seq<Segment>, b: seq<Segment>)
    requires info.Ok() && FitAll(info, a) && FitAll(ApplyAll(info, a), b)
    ensures FitAll(info, a + b) && ApplyAll(info, a + b) == ApplyAll(ApplyAll(info, a), b)
    decreases |a|
  {
    hide Apply, Legal, Info.Ok;
    if a == [] {
      assert a + b == b;
    } else {
      assert (a + b)[1..] == a[1..] + b;
      ApplyConcat(Apply(info, a[0]), a[1..], b);
    }
  }

  lemma ApplyOne(info: Info, g: Segment)
    requires info.Ok() && Fits(info, g)
    ensures FitAll(info, [g]) && ApplyAll(info, [g]) == Apply(info, g)
  {
    hide Fits, Apply, Info.Ok;
    assert [g][1..] == [];
  }

  lemma ApplyNone(info: Info)
    requires info.Ok()
    ensures FitAll(info, []) && ApplyAll(info, []) == info
  {
  }

  // ---------------------------------------------------------------- one table

  predicate QuantOnly(info: Info, info': Info) { info' == info.(quant := info'.quant) }

  predicate HuffOnly(info: Info, info': Info) { info' == info.(dc := info'.dc, ac := info'.ac) }

  lemma OnlyTrans(a: Info, b: Info, c: Info)
    ensures QuantOnly(a, b) && QuantOnly(b, c) ==> QuantOnly(a, c)
    ensures HuffOnly(a, b) && HuffOnly(b, c) ==> HuffOnly(a, c)
    ensures QuantOnly(a, a) && HuffOnly(a, a)
  {
  }

  lemma SendQuantKept(t: Tables, info: Info, index: nat)
    requires InStep(t, info) && index < 4 && t.quant[index].Some?
    ensures var s := SendQuant(t, index);
      && FitAll(info, s.0) && InStep(s.1, ApplyAll(info, s.0))
      && QuantOnly(info, ApplyAll(info, s.0))
  {
    hide Unzigzag, ZigzagList, Known1;
    if !t.quantSent[index] {
      var g := QuantSegment(index, t.quant[index].value);
      QuantFits(info, index, t.quant[index].value);
      ApplyOne(info, g);
    }
  }

  lemma QuantFits(info: Info, index: nat, q: seq<nat>)
    requires info.Ok() && SoundQuant(q) && index < 4
    ensures var g := QuantSegment(index, q);
    Fits(info, g) && Apply(info, g) == info.(quant := info.quant[index := Some(q)])
  {
    hide Unzigzag, ZigzagList, Wide;
    QuantRestored(q);
  }

  lemma TableRestored(t: HuffTable)
    requires SoundHuff(t)
    ensures |t.bits| == 17 && |t.huffval| == 256 && (forall i | 0 <= i < 17 :: t.bits[i] < 256)
        && (forall i | 0 <= i < 256 :: t.huffval[i] < 256)
    ensures var r := TableOf(t.bits[1..], t.huffval[..t.Count(16)], Blank()); r.Shaped() && SameTable(r, t)
  {
    hide HuffTable.Count;
    var n := t.Count(16);
    var r := TableOf(t.bits[1..], t.huffval[..n], Blank());
    BlankIs();
    assert r.bits[1..] == t.bits[1..];
    SameCounts(r, t, 16);
    assert r.huffval[..n] == t.huffval[..n];
  }

  lemma BlankIs()
    ensures forall i | 0 <= i < 256 :: Blank()[i] == 0
  {
  }

  lemma SendHuffKept(t: Tables, info: Info, isAc: bool, index: nat)
    requires InStep(t, info) && index < 4 && t.Huff(isAc)[index].Some?
    ensures var s := SendHuff(t, isAc, index);
      && FitAll(info, s.0) && InStep(s.1, ApplyAll(info, s.0))
      && HuffOnly(info, ApplyAll(info, s.0))
  {
    hide SoundQuant, HuffTable.Count, SameTable, Total;
    if !t.HuffSent(isAc)[index] {
      var h := t.Huff(isAc)[index].value;
      var g := HuffSegment(isAc, index, h);
      TableRestored(h);
      ApplyOne(info, g);
    }
  }

  // ---------------------------------------------------------------- frame header

  /** The decoder knows the frame. */
  ghost predicate FrameKnown(info: Info, f: Frame)
  {
    && info.sawSof && info.progressive == f.progressive && !info.arith && info.precision == f.precision
    && info.height == f.height && info.width == f.width && |info.comps| == |f.comps|
    && forall i | 0 <= i < |f.comps| :: info.comps[i].frame == f.comps[i].frame
  }

  predicate QuantsSent(t: Tables, f: Frame, n: nat)
    requires t.Ok() && f.Ok() && n <= |f.comps|
  {
    forall i | 0 <= i < n :: t.quantSent[f.comps[i].frame.tq]
  }

  lemma NoneSent(t: Tables, f: Frame)
    requires t.Ok() && f.Ok()
    ensures |t.quant| == |t.quantSent| == 4 && QuantsSent(t, f, 0)
  {
  }

  lemma OneMoreSent(t: Tables, f: Frame, n: nat)
    requires t.Ok() && f.Ok() && n < |f.comps| && QuantsSent(t, f, n) && t.quant[f.comps[n].frame.tq].Some?
    ensures QuantsSent(SendQuant(t, f.comps[n].frame.tq).1, f, n + 1)
  {
  }

  lemma {:induction false} FrameTablesKept(t: Tables, info: Info, f: Frame, n: nat)
    requires InStep(t, info) && f.Ok() && n <= |f.comps| && QuantThere(t, f, n)
    ensures var r := FrameTables(t, f, n);
      && FitAll(info, r.0) && InStep(r.1, ApplyAll(info, r.0)) && QuantOnly(info, ApplyAll(info, r.0))
      && QuantsSent(r.1, f, n)
    decreases n
  {
    hide InStep, QuantOnly, QuantsSent, Tables.Ok, SendQuant, FitAll, ApplyAll;
    InStepOk(t, info);
    ApplyNone(info);
    NoneSent(t, f);
    OnlyTrans(info, info, info);
    if n > 0 {
      FrameTablesKept(t, info, f, n - 1);
      var r := FrameTables(t, f, n - 1);
      var info1 := ApplyAll(info, r.0);
      SendQuantKept(r.1, info1, f.comps[n - 1].frame.tq);
      var s := SendQuant(r.1, f.comps[n - 1].frame.tq);
      OneMoreSent(r.1, f, n - 1);
      ApplyConcat(info, r.0, s.0);
      OnlyTrans(info, info1, ApplyAll(info1, s.0));
    }
  }

  lemma InStepOk(t: Tables, info: Info)
    requires InStep(t, info)
    ensures t.Ok() && info.Ok()
  {
  }

  /** A frame header that has been written is accepted, and the decoder then knows the frame and the quantization
      table of each component. */
  lemma FrameRestored(t: Tables, info: Info, f: Frame)
    requires InStep(t, info) && !info.sawSof && f.Ok() && QuantThere(t, f, |f.comps|) && f.height < 0x1_0000
        && f.width < 0x1_0000
    ensures var r := FrameHeader(t, f);
      && FitAll(info, r.0)
      && var info' := ApplyAll(info, r.0);
      && InStep(r.1, info') && info'.sawSoi == info.sawSoi && FrameKnown(info', f)
      && forall i | 0 <= i < |f.comps| :: info'.quant[f.comps[i].frame.tq] == t.quant[f.comps[i].frame.tq]
  {
    hide FrameTables, Known1, Legal, SoundQuant, SoundHuff;
    var n := |f.comps|;
    FrameTablesKept(t, info, f, n);
    var r := FrameTables(t, f, n);
    var info1 := ApplyAll(info, r.0);
    var g := SofSegment(t, f);
    ApplyOne(info1, g);
    ApplyConcat(info, r.0, [g]);
    TablesOk(t);
    InStepOk(r.1, info1);
  }

  // ---------------------------------------------------------------- scan header

  /** No earlier component has the same identifier. */
  ghost predicate Findable(f: Frame, ci: nat)
    requires ci < |f.comps|
  {
    forall j | 0 <= j < ci :: f.comps[j].frame.id != f.comps[ci].frame.id
  }

  ghost predicate AllFindable(f: Frame, current: seq<nat>)
    requires forall i | 0 <= i < |current| :: current[i] < |f.comps|
  {
    forall i | 0 <= i < |current| :: Findable(f, current[i])
  }

  ghost predicate Distinct(s: seq<nat>) { forall i, j | 0 <= i < j < |s| :: s[i] != s[j] }

  lemma PairKept(t: Tables, info: Info, f: Frame, sc: ScanParams, ci: nat)
    requires InStep(t, info) && f.Ok() && ci < |f.comps| && PairThere(t, f, sc, ci)
    ensures var s := SendPair(t, f, sc, ci);
      && FitAll(info, s.0) && InStep(s.1, ApplyAll(info, s.0))
      && HuffOnly(info, ApplyAll(info, s.0))
      && Sent(s.1, f, sc, ci) && MoreSent(t, s.1)
  {
    hide SendHuff, InStep, Legal, SoundHuff, SoundQuant, FitAll, ApplyAll;
    InStepOk(t, info);
    ApplyNone(info);
    var d := if UsesDc(f, sc) then SendHuff(t, false, f.comps[ci].dcTbl) else ([], t);
    if UsesDc(f, sc) {
      SendHuffKept(t, info, false, f.comps[ci].dcTbl);
    }
    var info1 := ApplyAll(info, d.0);
    ApplyNone(info1);
    var a := if UsesAc(f, sc) then SendHuff(d.1, true, f.comps[ci].acTbl) else ([], d.1);
    if UsesAc(f, sc) {
      SendHuffKept(d.1, info1, true, f.comps[ci].acTbl);
    }
    ApplyConcat(info, d.0, a.0);
  }

  predicate MoreSent(t: Tables, t': Tables)
    requires t.Ok() && t'.Ok()
  {
    forall i | 0 <= i < 4 :: (t.dcSent[i] ==> t'.dcSent[i]) && (t.acSent[i] ==> t'.acSent[i])
  }

  lemma StillSent(t: Tables, t': Tables, f: Frame, sc: ScanParams, ci: nat)
    requires t.Ok() && t'.Ok() && f.Ok() && ci < |f.comps| && Sent(t, f, sc, ci) && MoreSent(t, t')
    ensures Sent(t', f, sc, ci)
  {
  }

  lemma SameThere(t: Tables, t': Tables, f: Frame, sc: ScanParams, ci: nat)
    requires t.Ok() && t'.Ok() && f.Ok() && ci < |f.comps| && t' == t.(dcSent := t'.dcSent, acSent := t'.acSent)
    ensures PairThere(t, f, sc, ci) == PairThere(t', f, sc, ci)
  {
  }

  lemma {:induction false} ScanTablesKept(t: Tables, info: Info, f: Frame, sc: ScanParams, n: nat)
    requires InStep(t, info) && f.Ok() && sc.Ok(f) && n <= |sc.current| && HuffThere(t, f, sc, n)
    ensures var r := ScanTables(t, f, sc, n);
      && FitAll(info, r.0) && InStep(r.1, ApplyAll(info, r.0))
      && HuffOnly(info, ApplyAll(info, r.0))
      && forall i | 0 <= i < n :: Sent(r.1, f, sc, sc.current[i])
    decreases n
  {
    hide SendPair, InStep, Tables.Ok, HuffOnly, PairThere, UsesDc, UsesAc, FitAll, ApplyAll;
    InStepOk(t, info);
    ApplyNone(info);
    OnlyTrans(info, info, info);
    if n > 0 {
      ScanTablesKept(t, info, f, sc, n - 1);
      var r := ScanTables(t, f, sc, n - 1);
      var info1 := ApplyAll(info, r.0);
      var ci := sc.current[n - 1];
      InStepOk(r.1, info1);
      SameThere(t, r.1, f, sc, ci);
      PairKept(r.1, info1, f, sc, ci);
      var s := SendPair(r.1, f, sc, ci);
      ApplyConcat(info, r.0, s.0);
      OnlyTrans(info, info1, ApplyAll(info1, s.0));
      forall i | 0 <= i < n
        ensures Sent(s.1, f, sc, sc.current[i])
      {
        if i < n - 1 {
          StillSent(r.1, s.1, f, sc, sc.current[i]);
        }
      }
    }
  }

  predicate Sent(t: Tables, f: Frame, sc: ScanParams, ci: nat)
    requires t.Ok() && f.Ok() && ci < |f.comps|
  {
    (UsesDc(f, sc) ==> t.dcSent[f.comps[ci].dcTbl]) && (UsesAc(f, sc) ==> t.acSent[f.comps[ci].acTbl])
  }

  lemma FindIs(comps: seq<Component>, f: Frame, ci: nat, i: nat)
    requires |comps| == |f.comps| && (forall k | 0 <= k < |comps| :: comps[k].frame == f.comps[k].frame)
        && i <= ci < |comps| && Findable(f, ci)
    ensures FindComp(comps, f.comps[ci].frame.id, i) == ci
    decreases ci - i
  {
    if i < ci {
      assert f.comps[i].frame.id != f.comps[ci].frame.id;
      FindIs(comps, f, ci, i + 1);
    }
  }

  /** Looking up the components of a scan finds them, and notes their tables. */
  lemma {:induction false} ScanNoted(comps: seq<Component>, f: Frame, sc: ScanParams, current: seq<nat>)
    requires |comps| == |f.comps| && (forall k | 0 <= k < |comps| :: comps[k].frame == f.comps[k].frame)
    requires Distinct(current) && (forall i | 0 <= i < |current| :: current[i] < |f.comps|) && AllFindable(f, current)
    ensures var r := Noted(comps, CompsOf(f, sc, current));
      && r.1 == current
      && (forall k | 0 <= k < |comps| :: r.0[k].frame == f.comps[k].frame)
      && (forall k | 0 <= k < |comps| && k !in current :: r.0[k] == comps[k])
      && (forall i | 0 <= i < |current| ::
         r.0[current[i]].dcTbl == ScanCompOf(f, sc, current[i]).td
             && r.0[current[i]].acTbl == ScanCompOf(f, sc, current[i]).ta)
    decreases |current|
  {
    hide FindComp, UsesDc, UsesAc;
    if current != [] {
      var ci, c := current[0], ScanCompOf(f, sc, current[0]);
      assert Findable(f, current[0]);
      FindIs(comps, f, ci, 0);
      var later := current[1..];
      assert CompsOf(f, sc, current)[1..] == CompsOf(f, sc, later);
      ScanNoted(Note(comps, ci, c), f, sc, later);
      assert ci !in later;
      assert [ci] + later == current;
    }
  }

  /** What the decoder takes the components of a scan for: the first ones with their identifiers. */
  lemma {:induction false} ScanFound(comps: seq<Component>, f: Frame, sc: ScanParams, current: seq<nat>)
    requires |comps| == |f.comps| && (forall k | 0 <= k < |comps| :: comps[k].frame == f.comps[k].frame)
    requires forall i | 0 <= i < |current| :: current[i] < |f.comps|
    ensures var r := Noted(comps, CompsOf(f, sc, current));
      |r.1| == |current| && forall i | 0 <= i < |current| ::
          r.1[i] <= current[i] && Findable(f, r.1[i]) && f.comps[r.1[i]].frame.id == f.comps[current[i]].frame.id
    decreases |current|
  {
    hide UsesDc, UsesAc, FindComp, Note, Findable;
    if current != [] {
      var ci, c := FindComp(comps, f.comps[current[0]].frame.id, 0), ScanCompOf(f, sc, current[0]);
      FirstFound(comps, f, current[0]);
      NoteFrames(comps, f, ci, c);
      var later := current[1..];
      assert CompsOf(f, sc, current)[1..] == CompsOf(f, sc, later);
      ScanFound(Note(comps, ci, c), f, sc, later);
    }
  }

  lemma FirstFound(comps: seq<Component>, f: Frame, ci: nat)
    requires |comps| == |f.comps| && (forall k | 0 <= k < |comps| :: comps[k].frame == f.comps[k].frame) && ci < |comps|
    ensures var i := FindComp(comps, f.comps[ci].frame.id, 0);
    i <= ci && Findable(f, i) && f.comps[i].frame.id == f.comps[ci].frame.id
  {
    assert comps[ci].frame.id == f.comps[ci].frame.id;
  }

  lemma NoteFrames(comps: seq<Component>, f: Frame, ci: nat, c: ScanComp)
    requires |comps| == |f.comps| && (forall k | 0 <= k < |comps| :: comps[k].frame == f.comps[k].frame) && ci < |comps|
    ensures forall k | 0 <= k < |comps| :: Note(comps, ci, c)[k].frame == f.comps[k].frame
  {
  }

  /** The components of a scan are restored exactly when no earlier component of the frame has the identifier of one of
      them. */
  lemma CurrentRestored(info: Info, f: Frame, sc: ScanParams)
    requires info.Ok() && f.Ok() && sc.Ok(f) && FrameKnown(info, f)
    ensures Fits(info, SosSegment(f, sc))
    ensures Apply(info, SosSegment(f, sc)).current == sc.current <==> AllFindable(f, sc.current)
  {
    hide Findable, Noted, CompsOf, Fits;
    ScanKnown(f, sc, info);
    ScanFound(info.comps, f, sc, sc.current);
    var r := Noted(info.comps, CompsOf(f, sc, sc.current)).1;
    assert Apply(info, SosSegment(f, sc)).current == r;
    if AllFindable(f, sc.current) {
      forall i | 0 <= i < |sc.current|
        ensures r[i] == sc.current[i]
      {
        FirstIs(f, r[i], sc.current[i]);
      }
    }
  }

  /** A frame of two components that share an identifier. */
  function Twins(): Frame
  {
    var c := Component(FrameComp(1, 1, 1, 0), 0, 0);
    Frame(false, 8, 16, 16, [c, c])
  }

  /** A decoder that has read its header. */
  function TwinsRead(): Info
  {
    var none: seq<Option<HuffTable>> := [None, None, None, None];
    var quant: seq<Option<seq<nat>>> := [None, None, None, None];
    Info(quant, none, none, 0, true, true, false, false, 8, 16, 16, Twins().comps, [], 0, 0, 0, 0)
  }

  /** A scan of the second twin is taken for one of the first. */
  lemma TwinsConfused()
    ensures var f, sc := Twins(), ScanParams([1], 0, 63, 0, 0, 0);
      && f.Ok() && sc.Ok(f) && FrameKnown(TwinsRead(), f) && TwinsRead().Ok()
      && Apply(TwinsRead(), SosSegment(f, sc)).current == [0] != sc.current
  {
    var f, sc := Twins(), ScanParams([1], 0, 63, 0, 0, 0);
    assert FindComp(TwinsRead().comps, 1, 0) == 0;
    assert SosSegment(f, sc).scan == [ScanComp(1, 0, 0)];
    assert [ScanComp(1, 0, 0)][1..] == [];
  }

  lemma FirstIs(f: Frame, i: nat, ci: nat)
    requires i <= ci < |f.comps| && Findable(f, ci) && f.comps[i].frame.id == f.comps[ci].frame.id
    ensures i == ci
  {
  }

  lemma ScanKnown(f: Frame, sc: ScanParams, info: Info)
    requires f.Ok() && sc.Ok(f) && FrameKnown(info, f)
    ensures Fits(info, SosSegment(f, sc))
  {
    forall i | 0 <= i < |sc.current|
      ensures Known(info.comps, ScanCompsOf(f, sc)[i].id)
    {
      assert info.comps[sc.current[i]].frame.id == ScanCompsOf(f, sc)[i].id;
    }
  }

  /** The decoder knows what the scan consists of, where to find its tables, and these tables. */
  ghost predicate ScanRead(t: Tables, info: Info, f: Frame, sc: ScanParams)
    requires t.Ok() && f.Ok() && sc.Ok(f)
  {
    && info.Ok() && info.current == sc.current && info.ss == sc.ss && info.se == sc.se && info.ah == sc.ah
       && info.al == sc.al && info.interval == sc.interval
    && |info.comps| == |f.comps|
    && forall i | 0 <= i < |sc.current| :: ComponentRead(t, info, f, sc, sc.current[i])
  }

  ghost predicate ComponentRead(t: Tables, info: Info, f: Frame, sc: ScanParams, ci: nat)
    requires t.Ok() && info.Ok() && f.Ok() && ci < |f.comps| == |info.comps|
  {
    && (UsesDc(f, sc) ==>
       info.comps[ci].dcTbl == f.comps[ci].dcTbl && Known1(true, info.dc[f.comps[ci].dcTbl], t.dc[f.comps[ci].dcTbl]))
    && (UsesAc(f, sc) ==>
       info.comps[ci].acTbl == f.comps[ci].acTbl && Known1(true, info.ac[f.comps[ci].acTbl], t.ac[f.comps[ci].acTbl]))
  }

  lemma DriKept(t: Tables, info: Info, sc: ScanParams)
    requires InStep(t, info) && sc.interval < 0x1_0000
    ensures var dri := if sc.interval != t.lastInterval then [Dri(sc.interval)] else [];
      && FitAll(info, dri) && ApplyAll(info, dri) == info.(interval := sc.interval)
      && InStep(t.(lastInterval := sc.interval), info.(interval := sc.interval))
  {
    hide Known1, SoundHuff, SoundQuant;
    if sc.interval != t.lastInterval {
      ApplyOne(info, Dri(sc.interval));
    }
  }

  lemma SosKept(t: Tables, info: Info, f: Frame, sc: ScanParams)
    requires InStep(t, info) && f.Ok() && sc.Ok(f) && FrameKnown(info, f) && AllFindable(f, sc.current)
        && Distinct(sc.current)
    requires info.interval == sc.interval && forall i | 0 <= i < |sc.current| :: Sent(t, f, sc, sc.current[i])
    ensures Fits(info, SosSegment(f, sc))
    ensures var info' := Apply(info, SosSegment(f, sc));
    InStep(t, info') && FrameKnown(info', f) && ScanRead(t, info', f, sc)
  {
    hide Known1, Noted, SoundHuff, SoundQuant, Distinct, AllFindable, CompsOf, UsesDc, UsesAc, Fits;
    ScanKnown(f, sc, info);
    ScanNoted(info.comps, f, sc, sc.current);
    var info' := Apply(info, SosSegment(f, sc));
    var r := Noted(info.comps, CompsOf(f, sc, sc.current));
    assert info' == info.(comps := r.0, current := r.1, ss := sc.ss, se := sc.se, ah := sc.ah, al := sc.al);
    forall i | 0 <= i < |sc.current|
      ensures ComponentRead(t, info', f, sc, sc.current[i])
    {
      assert Sent(t, f, sc, sc.current[i]);
      SentKnown(t, info', f.comps[sc.current[i]].dcTbl, f.comps[sc.current[i]].acTbl);
    }
  }

  lemma SentKnown(t: Tables, info: Info, d: nat, a: nat)
    requires InStep(t, info) && d < 4 && a < 4
    ensures t.dcSent[d] ==> Known1(true, info.dc[d], t.dc[d])
    ensures t.acSent[a] ==> Known1(true, info.ac[a], t.ac[a])
  {
    hide SameTable;
    assert Known1(t.dcSent[d], info.dc[d], t.dc[d]) && Known1(t.acSent[a], info.ac[a], t.ac[a]);
  }

  /** A scan header that has been written is accepted, and tells the decoder all about the scan. */
  lemma ScanRestored(t: Tables, info: Info, f: Frame, sc: ScanParams)
    requires InStep(t, info) && f.Ok() && sc.Ok(f) && HuffThere(t, f, sc, |sc.current|)
    requires FrameKnown(info, f) && AllFindable(f, sc.current) && Distinct(sc.current)
    ensures var r := ScanHeader(t, f, sc);
      && FitAll(info, r.0)
      && var info' := ApplyAll(info, r.0);
      && InStep(r.1, info') && FrameKnown(info', f) && ScanRead(r.1, info', f, sc)
  {
    hide ScanTables, InStep, Known1, Tables.Ok, ScanRead, Sent, SosSegment, FitAll, ApplyAll, Apply, HuffThere;
    var n := |sc.current|;
    InStepOk(t, info);
    ScanTablesKept(t, info, f, sc, n);
    var r := ScanTables(t, f, sc, n);
    var info1 := ApplyAll(info, r.0);
    DriKept(r.1, info1, sc);
    var dri := if sc.interval != t.lastInterval then [Dri(sc.interval)] else [];
    var t2, info2 := r.1.(lastInterval := sc.interval), info1.(interval := sc.interval);
    ApplyConcat(info, r.0, dri);
    InStepOk(t2, info2);
    forall i | 0 <= i < n
      ensures Sent(t2, f, sc, sc.current[i])
    {
      SentSame(r.1, f, sc, sc.current[i]);
    }
    SosKept(t2, info2, f, sc);
    ApplyOne(info2, SosSegment(f, sc));
    ApplyConcat(info, r.0 + dri, [SosSegment(f, sc)]);
  }

  lemma SentSame(t: Tables, f: Frame, sc: ScanParams, ci: nat)
    requires t.Ok() && f.Ok() && ci < |f.comps| && sc.interval < 0x1_0000 && Sent(t, f, sc, ci)
    ensures t.(lastInterval := sc.interval).Ok() && Sent(t.(lastInterval := sc.interval), f, sc, ci)
  {
  }

  // ---------------------------------------------------------------- bytes

  lemma {:induction false} LegalIfFit(info: Info, gs: seq<Segment>)
    requires info.Ok() && FitAll(info, gs)
    ensures LegalAll(gs)
    decreases |gs|
  {
    hide Legal, Apply, Info.Ok;
    if gs != [] {
      LegalIfFit(Apply(info, gs[0]), gs[1..]);
      forall i | 0 <= i < |gs|
        ensures Legal(gs[i])
      {
        if i > 0 {
          assert gs[i] == gs[1..][i - 1];
        }
      }
    }
  }

  lemma MarkerAt(g: Segment, pre: seq<Byte>, later: seq<Byte>)
    requires Legal(g)
    ensures var data := pre + SegmentOf(g) + later;
      && RestEnd(data, |pre|) == Next.Marker(Code(g), |pre| + 2)
      && data[|pre| + 2..] == Body(g) + later && Code(g) !in {0, EOI} && (Code(g) == SOS <==> g.Sos?)
  {
    hide Body;
    var data := pre + SegmentOf(g) + later;
    assert data == pre + ([0xFF, Code(g)] + (Body(g) + later));
    assert data[|pre|] == 0xFF && data[|pre| + 1] == Code(g);
    assert SkipFF(data, |pre| + 1) == |pre| + 1;
  }

  /** One segment read. */
  lemma SegmentRead(info: Info, g: Segment, pre: seq<Byte>, later: seq<Byte>)
    requires info.Ok() && info.sawSoi && Fits(info, g)
    ensures var data := pre + SegmentOf(g) + later;
      ReadOn(info, data, |pre|, 0) ==
      if g.Sos? then AtSos(Apply(info, g), |pre + SegmentOf(g)|)
      else ReadOn(Apply(info, g), data, |pre + SegmentOf(g)|, 0)
  {
    hide Apply, Fits, Body, ParseBody, RestEnd, Info.Ok, Legal;
    FitsLegal(info, g);
    var data := pre + SegmentOf(g) + later;
    MarkerAt(g, pre, later);
    BodyBack(info, g, later);
  }

  lemma FitsLegal(info: Info, g: Segment)
    requires Fits(info, g)
    ensures Legal(g)
  {
  }

  lemma KeepsSoi(info: Info, g: Segment)
    requires info.Ok() && Legal(g)
    ensures Apply(info, g).sawSoi == info.sawSoi
  {
  }

  lemma {:induction false} BytesFront(g: Segment, gs: seq<Segment>)
    requires Legal(g) && LegalAll(gs)
    ensures LegalAll([g] + gs) && BytesOf([g] + gs) == SegmentOf(g) + BytesOf(gs)
  {
    hide Legal, SegmentOf;
    OneSegment(g);
    BytesOfConcat([g], gs);
  }

  /** Headers written one after the other, the last one that of a scan, are read up to its end. */
  lemma {:induction false} HeadersRead(info: Info, gs: seq<Segment>, pre: seq<Byte>, later: seq<Byte>)
    requires info.Ok() && info.sawSoi && FitAll(info, gs) && LegalAll(gs)
    requires gs != [] && gs[|gs| - 1].Sos? && forall i | 0 <= i < |gs| - 1 :: !gs[i].Sos?
    ensures ReadOn(info, pre + BytesOf(gs) + later, |pre|, 0) == AtSos(ApplyAll(info, gs), |pre + BytesOf(gs)|)
    decreases |gs|
  {
    hide Apply, Legal, SegmentOf, ReadOn, Info.Ok, BytesOf;
    var g, rest := gs[0], gs[1..];
    assert gs == [g] + rest;
    assert LegalAll(rest) by {
      forall i | 0 <= i < |rest|
        ensures Legal(rest[i])
      {
        assert rest[i] == gs[i + 1];
      }
    }
    BytesFront(g, rest);
    SegmentRead(info, g, pre, BytesOf(rest) + later);
    var data := pre + BytesOf(gs) + later;
    assert data == pre + SegmentOf(g) + (BytesOf(rest) + later);
    if rest == [] {
      NoSegment();
      assert BytesOf(gs) == SegmentOf(g);
    } else {
      KeepsSoi(info, g);
      HeadersRead(Apply(info, g), rest, pre + SegmentOf(g), later);
      assert data == pre + SegmentOf(g) + BytesOf(rest) + later;
      assert |pre + SegmentOf(g) + BytesOf(rest)| == |pre + BytesOf(gs)|;
    }
  }

  predicate AllDht(gs: seq<Segment>) { forall i | 0 <= i < |gs| :: gs[i].Dht? }

  lemma {:induction false} OnlyHuffTables(t: Tables, f: Frame, sc: ScanParams, n: nat)
    requires t.Ok() && f.Ok() && sc.Ok(f) && n <= |sc.current| && HuffThere(t, f, sc, n)
    ensures AllDht(ScanTables(t, f, sc, n).0)
    decreases n
  {
    hide Tables.Ok, UsesDc, UsesAc, PairThere, SendPair;
    if n > 0 {
      OnlyHuffTables(t, f, sc, n - 1);
      var r := ScanTables(t, f, sc, n - 1);
      var ci := sc.current[n - 1];
      assert PairThere(t, f, sc, ci);
      SameThere(t, r.1, f, sc, ci);
      PairIsDht(r.1, f, sc, ci);
    }
  }

  lemma HuffIsDht(t: Tables, isAc: bool, index: nat)
    requires t.Ok() && index < 4 && t.Huff(isAc)[index].Some?
    ensures AllDht(SendHuff(t, isAc, index).0)
  {
    hide SoundHuff, SoundQuant, Legal, HuffTable.Count, HuffTable.Shaped, Total;
  }

  lemma PairIsDht(t: Tables, f: Frame, sc: ScanParams, ci: nat)
    requires t.Ok() && f.Ok() && ci < |f.comps| && PairThere(t, f, sc, ci)
    ensures AllDht(SendPair(t, f, sc, ci).0)
  {
    hide SendHuff, SoundHuff, SoundQuant;
    if UsesDc(f, sc) {
      HuffIsDht(t, false, f.comps[ci].dcTbl);
    }
    if UsesAc(f, sc) {
      var t1 := if UsesDc(f, sc) then SendHuff(t, false, f.comps[ci].dcTbl).1 else t;
      HuffIsDht(t1, true, f.comps[ci].acTbl);
    }
  }

  predicate AllDqt(gs: seq<Segment>) { forall i | 0 <= i < |gs| :: gs[i].Dqt? }

  lemma {:induction false} OnlyQuantTables(t: Tables, f: Frame, n: nat)
    requires t.Ok() && f.Ok() && n <= |f.comps| && QuantThere(t, f, n)
    ensures AllDqt(FrameTables(t, f, n).0)
    decreases n
  {
    hide Tables.Ok, QuantSegment;
    TablesOk(t);
    if n > 0 {
      OnlyQuantTables(t, f, n - 1);
      var r := FrameTables(t, f, n - 1);
      var index := f.comps[n - 1].frame.tq;
      assert t.quant[index].Some?;
      IsDqt(r.1, index);
      assert AllDqt(SendQuant(r.1, index).0);
    }
  }

  lemma IsDqt(t: Tables, index: nat)
    requires t.Ok() && index < 4 && t.quant[index].Some?
    ensures QuantSegment(index, t.quant[index].value).Dqt?
  {
  }

  /** The header of a scan, read where the data before it end. */
  lemma ScanHeaderRead(t: Tables, info: Info, f: Frame, sc: ScanParams, pre: seq<Byte>, later: seq<Byte>)
    requires InStep(t, info) && f.Ok() && sc.Ok(f) && HuffThere(t, f, sc, |sc.current|)
    requires info.sawSoi && FrameKnown(info, f) && AllFindable(f, sc.current) && Distinct(sc.current)
    ensures var r := ScanHeader(t, f, sc);
      && FitAll(info, r.0)
      && var info' := ApplyAll(info, r.0);
      && InStep(r.1, info') && FrameKnown(info', f) && ScanRead(r.1, info', f, sc) && info'.sawSoi
      && ReadOn(info, pre + BytesOf(r.0) + later, |pre|, 0) == AtSos(info', |pre + BytesOf(r.0)|)
  {
    hide ScanTables, InStep, Known1, Tables.Ok, ScanRead, SosSegment, FitAll, ApplyAll, BytesOf, ReadOn,
        FrameKnown, Legal;
    InStepOk(t, info);
    ScanRestored(t, info, f, sc);
    OnlyHuffTables(t, f, sc, |sc.current|);
    var gs := ScanHeader(t, f, sc).0;
    SosIs(f, sc);
    HeadersRead(info, gs, pre, later);
    SoiKept(info, gs);
  }

  lemma SosIs(f: Frame, sc: ScanParams)
    requires f.Ok() && sc.Ok(f)
    ensures SosSegment(f, sc).Sos?
  {
  }

  lemma {:induction false} SoiKept(info: Info, gs: seq<Segment>)
    requires info.Ok() && FitAll(info, gs)
    ensures ApplyAll(info, gs).sawSoi == info.sawSoi
    decreases |gs|
  {
    hide Apply, Legal, Info.Ok;
    if gs != [] {
      KeepsSoi(info, gs[0]);
      SoiKept(Apply(info, gs[0]), gs[1..]);
    }
  }

  /** A decoder at the beginning of a file, and a compressor that has sent nothing. */
  ghost predicate AtStart(t: Tables, info: Info)
  {
    && t.Ok() && info.Ok() && !info.sawSoi && !info.sawSof && t.lastInterval == 0
    && forall i | 0 <= i < 4 :: !t.quantSent[i] && !t.dcSent[i] && !t.acSent[i]
  }

  /** The beginning of a file: everything up to the first scan is read, and the decoder knows the frame, its
      quantization tables and the first scan. */
  lemma FileHeaderRead(t: Tables, info: Info, f: Frame, sc: ScanParams, later: seq<Byte>)
    requires AtStart(t, info) && f.Ok() && QuantThere(t, f, |f.comps|) && f.height < 0x1_0000 && f.width < 0x1_0000
    requires sc.Ok(f) && AllFindable(f, sc.current) && Distinct(sc.current)
        && HuffThere(FrameHeader(t, f).1, f, sc, |sc.current|)
    ensures var r := FrameHeader(t, f);
      var s := ScanHeader(r.1, f, sc);
      var gs := r.0 + s.0;
      var info1 := info.(sawSoi := true, interval := 0);
      && LegalAll(gs) && FitAll(info1, gs)
      && var info' := ApplyAll(info1, gs);
      && InStep(s.1, info') && FrameKnown(info', f) && ScanRead(s.1, info', f, sc) && info'.sawSoi
      && (forall i | 0 <= i < |f.comps| :: info'.quant[f.comps[i].frame.tq] == t.quant[f.comps[i].frame.tq])
      && ReadOn(info, [0xFF, SOI] + BytesOf(gs) + later, 0, 0) == AtSos(info', 2 + |BytesOf(gs)|)
  {
    hide FrameHeader, ScanHeader, Known1, ScanRead, FitAll, ApplyAll, BytesOf, FrameKnown, Legal, InStep,
        SoundQuant, SoundHuff, Distinct, AllFindable, HuffThere, ReadOn;
    var info1 := info.(sawSoi := true, interval := 0);
    NothingSent(t, info, info1);
    BothRestored(t, info1, f, sc);
    EndsWithSos(t, f, sc);
    var gs := FrameHeader(t, f).0 + ScanHeader(FrameHeader(t, f).1, f, sc).0;
    HeadersRead(info1, gs, [0xFF, SOI], later);
    StartRead(info, BytesOf(gs) + later);
    assert [0xFF, SOI] + BytesOf(gs) + later == [0xFF, SOI] + (BytesOf(gs) + later);
  }

  /** Both headers together. */
  lemma BothRestored(t: Tables, info: Info, f: Frame, sc: ScanParams)
    requires InStep(t, info) && !info.sawSof && f.Ok() && QuantThere(t, f, |f.comps|) && f.height < 0x1_0000
        && f.width < 0x1_0000
    requires sc.Ok(f) && AllFindable(f, sc.current) && Distinct(sc.current)
        && HuffThere(FrameHeader(t, f).1, f, sc, |sc.current|)
    ensures var r := FrameHeader(t, f);
      var s := ScanHeader(r.1, f, sc);
      var gs := r.0 + s.0;
      && FitAll(info, gs)
      && var info' := ApplyAll(info, gs);
      && InStep(s.1, info') && FrameKnown(info', f) && ScanRead(s.1, info', f, sc) && info'.sawSoi == info.sawSoi
      && (forall i | 0 <= i < |f.comps| :: info'.quant[f.comps[i].frame.tq] == t.quant[f.comps[i].frame.tq])
  {
    hide FrameHeader, ScanHeader, Known1, ScanRead, FitAll, ApplyAll, FrameKnown, Legal, InStep, SoundQuant,
        SoundHuff, Distinct, AllFindable, HuffThere;
    InStepOk(t, info);
    var r := FrameHeader(t, f);
    FrameRestored(t, info, f);
    var info1 := ApplyAll(info, r.0);
    ScanRestored(r.1, info1, f, sc);
    ScanLeaves(r.1, info1, f, sc);
    var s := ScanHeader(r.1, f, sc);
    ApplyConcat(info, r.0, s.0);
    SoiKept(info, r.0 + s.0);
  }

  lemma NothingSent(t: Tables, info: Info, info1: Info)
    requires AtStart(t, info) && info1 == info.(sawSoi := true, interval := 0)
    ensures InStep(t, info1) && info1.Ok()
  {
    hide SoundQuant, SoundHuff, SameTable;
  }

  lemma StartRead(info: Info, rest: seq<Byte>)
    requires info.Ok() && !info.sawSoi
    ensures ReadOn(info, [0xFF, SOI] + rest, 0, 0)
        == ReadOn(info.(sawSoi := true, interval := 0), [0xFF, SOI] + rest, 2, 0)
  {
    hide RestEnd;
    var data := [0xFF, SOI] + rest;
    assert ReadOn(info, data, 0, 0) == ReadOn(info, data, 2, SOI);
    assert ParseBody(info, SOI, data[2..]) == Parse.Got(info.(sawSoi := true, interval := 0), data[2..]);
  }

  lemma EndsWithSos(t: Tables, f: Frame, sc: ScanParams)
    requires t.Ok() && f.Ok() && QuantThere(t, f, |f.comps|) && f.height < 0x1_0000 && f.width < 0x1_0000 && sc.Ok(f)
    requires HuffThere(FrameHeader(t, f).1, f, sc, |sc.current|)
    ensures var gs := FrameHeader(t, f).0 + ScanHeader(FrameHeader(t, f).1, f, sc).0;
      LegalAll(gs) && gs != [] && gs[|gs| - 1].Sos? && forall i | 0 <= i < |gs| - 1 :: !gs[i].Sos?
  {
    hide FrameTables, ScanTables, Tables.Ok, Legal, SosSegment, HuffThere;
    var t1 := FrameHeader(t, f).1;
    OnlyQuantTables(t, f, |f.comps|);
    OnlyHuffTables(t1, f, sc, |sc.current|);
    SosIs(f, sc);
  }

  /** A scan header changes no quantization table. */
  lemma ScanLeaves(t: Tables, info: Info, f: Frame, sc: ScanParams)
    requires InStep(t, info) && f.Ok() && sc.Ok(f) && HuffThere(t, f, sc, |sc.current|)
        && FitAll(info, ScanHeader(t, f, sc).0)
    ensures ApplyAll(info, ScanHeader(t, f, sc).0).quant == info.quant
  {
    hide FitAll, ApplyAll, Legal, SosSegment, ScanHeader, Tables.Ok;
    NoDqt(t, f, sc);
    QuantKept(info, ScanHeader(t, f, sc).0);
  }

  predicate NoDqts(gs: seq<Segment>) { forall i | 0 <= i < |gs| :: !gs[i].Dqt? }

  lemma NoDqt(t: Tables, f: Frame, sc: ScanParams)
    requires t.Ok() && f.Ok() && sc.Ok(f) && HuffThere(t, f, sc, |sc.current|)
    ensures NoDqts(ScanHeader(t, f, sc).0)
  {
    hide Tables.Ok, ScanTables, HuffThere;
    OnlyHuffTables(t, f, sc, |sc.current|);
  }

  lemma {:induction false} QuantKept(info: Info, gs: seq<Segment>)
    requires info.Ok() && FitAll(info, gs) && NoDqts(gs)
    ensures ApplyAll(info, gs).quant == info.quant
    decreases |gs|
  {
    hide Legal, Info.Ok, Noted, TableOf;
    if gs != [] {
      var rest := gs[1..];
      forall i | 0 <= i < |rest|
        ensures !rest[i].Dqt?
      {
        assert rest[i] == gs[i + 1];
      }
      QuantKept(Apply(info, gs[0]), rest);
    }
  }

  // ---------------------------------------------------------------- a whole file

  datatype NewTable = NewTable(isAc: bool, index: nat, t: HuffTable) {
    predicate Ok() { index < 4 && SoundHuff(t) }
  }

  /** A scan, and the tables that the compressor puts in place for it first. */
  datatype Job = Job(news: seq<NewTable>, sc: ScanParams)

  function Stored(t: Tables, news: seq<NewTable>): (r: Tables)
    requires t.Ok() && forall i | 0 <= i < |news| :: news[i].Ok()
    ensures r.Ok()
    decreases |news|
  {
    if news == [] then t
    else
      var n := news[|news| - 1];
      assert n.Ok();
      NewHuff(Stored(t, news[..|news| - 1]), n.isAc, n.index, n.t)
  }

  lemma {:induction false} StoredInStep(t: Tables, info: Info, news: seq<NewTable>)
    requires InStep(t, info) && forall i | 0 <= i < |news| :: news[i].Ok()
    ensures InStep(Stored(t, news), info)
    decreases |news|
  {
    hide SoundHuff, SoundQuant, SameTable;
    if news != [] {
      StoredInStep(t, info, news[..|news| - 1]);
    }
  }

  /** The scans of a file can be written: tables are well formed, and those a scan uses are there by then. */
  ghost predicate Writable(t: Tables, f: Frame, jobs: seq<Job>)
    requires t.Ok() && f.Ok()
    decreases |jobs|
  {
    jobs == [] ||
    (&& (forall i | 0 <= i < |jobs[0].news| :: jobs[0].news[i].Ok())
     && var t1 := Stored(t, jobs[0].news);
     && jobs[0].sc.Ok(f) && AllFindable(f, jobs[0].sc.current) && Distinct(jobs[0].sc.current)
        && HuffThere(t1, f, jobs[0].sc, |jobs[0].sc.current|)
     && Writable(ScanHeader(t1, f, jobs[0].sc).1, f, jobs[1..]))
  }

  /** A decoder that reads each scan header where it stands, whatever stands between and behind them. */
  ghost predicate AllRead(t: Tables, info: Info, f: Frame, jobs: seq<Job>)
    requires t.Ok() && f.Ok() && info.Ok() && Writable(t, f, jobs)
    decreases |jobs|
  {
    jobs == [] ||
    var t1 := Stored(t, jobs[0].news);
    var r := ScanHeader(t1, f, jobs[0].sc);
    && FitAll(info, r.0)
    && var info' := ApplyAll(info, r.0);
    && ScanRead(r.1, info', f, jobs[0].sc)
    && (forall pre: seq<Byte>, later: seq<Byte> ::
       ReadOn(info, pre + BytesOf(r.0) + later, |pre|, 0) == AtSos(info', |pre + BytesOf(r.0)|))
    && AllRead(r.1, info', f, jobs[1..])
  }

  /** Through all the scans of a file, whatever tables are replaced in between, each scan header is read back with
      the parameters of its scan and the tables that this scan is coded with. */
  lemma {:induction false} FileRestored(t: Tables, info: Info, f: Frame, jobs: seq<Job>)
    requires InStep(t, info) && f.Ok() && info.sawSoi && FrameKnown(info, f) && Writable(t, f, jobs)
    ensures AllRead(t, info, f, jobs)
    decreases |jobs|
  {
    hide ScanHeader, InStep, Known1, Tables.Ok, ScanRead, FitAll, ApplyAll, BytesOf, ReadOn, FrameKnown,
        Stored, AllFindable, Distinct, HuffThere;
    InStepOk(t, info);
    if jobs != [] {
      var sc := jobs[0].sc;
      StoredInStep(t, info, jobs[0].news);
      var t1 := Stored(t, jobs[0].news);
      var r := ScanHeader(t1, f, sc);
      ScanHeaderRead(t1, info, f, sc, [], []);
      var info' := ApplyAll(info, r.0);
      forall pre: seq<Byte>, later: seq<Byte>
        ensures ReadOn(info, pre + BytesOf(r.0) + later, |pre|, 0) == AtSos(info', |pre + BytesOf(r.0)|)
      {
        ScanHeaderRead(t1, info, f, sc, pre, later);
      }
      FileRestored(r.1, info', f, jobs[1..]);
    }
  }
}
