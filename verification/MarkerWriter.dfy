/** The routines of the compressor that write headers (jcmarker.c), and what they write as a function of the tables. */
module MarkerWriter {
  import opened BitOutput
  import opened Huffman
  import opened Zigzag
  import opened MarkerSyntax
  import opened MarkerParsing

  // ---------------------------------------------------------------- tables, and what has been sent of them

  datatype Tables = Tables(quant: seq<Option<seq<nat>>>, quantSent: seq<bool>, dc: seq<Option<HuffTable>>,
        dcSent: seq<bool>, ac: seq<Option<HuffTable>>, acSent: seq<bool>, lastInterval: nat) {
    predicate Ok() {
      && |quant| == |quantSent| == |dc| == |dcSent| == |ac| == |acSent| == 4 && lastInterval < 0x1_0000
      && (forall i | 0 <= i < 4 :: if quant[i].Some? then SoundQuant(quant[i].value) else !quantSent[i])
      && (forall i | 0 <= i < 4 :: if dc[i].Some? then SoundHuff(dc[i].value) else !dcSent[i])
      && (forall i | 0 <= i < 4 :: if ac[i].Some? then SoundHuff(ac[i].value) else !acSent[i])
    }

    function Huff(isAc: bool): seq<Option<HuffTable>> { if isAc then ac else dc }

    function HuffSent(isAc: bool): seq<bool> { if isAc then acSent else dcSent }
  }

  predicate SoundQuant(q: seq<nat>) { |q| == 64 && forall i | 0 <= i < 64 :: q[i] < 0x1_0000 }

  predicate SoundHuff(t: HuffTable) { t.Shaped() && t.Count(16) <= 256 }

  predicate Wide(q: seq<nat>) { exists i | 0 <= i < |q| :: q[i] > 255 }

  function QuantSegment(index: nat, q: seq<nat>): (g: Segment)
    requires SoundQuant(q) && index < 4
    ensures Legal(g)
  {
    ZigzagListBelow(q, if Wide(q) then 0x1_0000 else 256);
    Dqt(index, Wide(q), ZigzagList(q))
  }

  lemma ZigzagListBelow(q: seq<nat>, bound: nat)
    requires |q| == 64 && forall i | 0 <= i < 64 :: q[i] < bound
    ensures forall k | 0 <= k < 64 :: ZigzagList(q)[k] < bound
  {
    hide Natural;
  }

  lemma {:induction false} TotalIsCount(t: HuffTable, l: nat)
    requires t.Shaped() && l <= 16
    ensures Total(t.bits[1..l + 1]) == t.Count(l)
    decreases l
  {
    if l == 0 {
      assert t.bits[1..l + 1] == [];
    } else {
      TotalIsCount(t, l - 1);
      var c: seq<Byte> := t.bits[1..l + 1];
      assert c[..|c| - 1] == t.bits[1..l];
    }
  }

  function HuffSegment(isAc: bool, index: nat, t: HuffTable): (g: Segment)
    requires SoundHuff(t) && index < 4
    ensures Legal(g)
  {
    TotalIsCount(t, 16);
    assert t.bits[1..17] == t.bits[1..];
    Dht(isAc, index, t.bits[1..], t.huffval[..t.Count(16)])
  }

  function SendQuant(t: Tables, index: nat): (r: (seq<Segment>, Tables))
    requires t.Ok() && index < 4 && t.quant[index].Some?
    ensures r.1.Ok() && r.1 == t.(quantSent := t.quantSent[index := true])
  {
    (if t.quantSent[index] then []
        else [QuantSegment(index, t.quant[index].value)], t.(quantSent := t.quantSent[index := true]))
  }

  function SendHuff(t: Tables, isAc: bool, index: nat): (r: (seq<Segment>, Tables))
    requires t.Ok() && index < 4 && t.Huff(isAc)[index].Some?
    ensures r.1.Ok() && r.1 == if isAc then t.(acSent := t.acSent[index := true])
        else t.(dcSent := t.dcSent[index := true])
  {
    (if t.HuffSent(isAc)[index] then [] else [HuffSegment(isAc, index, t.Huff(isAc)[index].value)],
     if isAc then t.(acSent := t.acSent[index := true]) else t.(dcSent := t.dcSent[index := true]))
  }

  // ---------------------------------------------------------------- headers

  predicate LegalAll(gs: seq<Segment>) { forall i | 0 <= i < |gs| :: Legal(gs[i]) }

  function BytesOf(gs: seq<Segment>): seq<Byte>
    requires LegalAll(gs)
  {
    if gs == [] then [] else BytesOf(gs[..|gs| - 1]) + SegmentOf(gs[|gs| - 1])
  }

  lemma {:induction false} BytesOfConcat(a: seq<Segment>, b: seq<Segment>)
    requires LegalAll(a) && LegalAll(b)
    ensures LegalAll(a + b) && BytesOf(a + b) == BytesOf(a) + BytesOf(b)
    decreases |b|
  {
    hide SegmentOf, Legal;
    if b == [] {
      assert a + b == a;
    } else {
      var n := |b| - 1;
      assert (a + b)[..|a + b| - 1] == a + b[..n];
      BytesOfConcat(a, b[..n]);
    }
  }

  /** A frame as the compressor has it. */
  datatype Frame = Frame(progressive: bool, precision: Byte, height: nat, width: nat, comps: seq<Component>) {
    /** What the compressor has made sure of before it writes a header. */
    predicate Ok() {
      && 0 < height && 0 < width && 0 < |comps| < 256
      && forall i | 0 <= i < |comps| ::
         comps[i].frame.h < 16 && comps[i].frame.v < 16 && comps[i].frame.tq < 4 && comps[i].dcTbl < 4
             && comps[i].acTbl < 4
    }
  }

  /** Every table is there. */
  predicate QuantThere(t: Tables, f: Frame, n: nat)
    requires t.Ok() && f.Ok() && n <= |f.comps|
  {
    forall i | 0 <= i < n :: t.quant[f.comps[i].frame.tq].Some?
  }

  function FrameTables(t: Tables, f: Frame, n: nat): (r: (seq<Segment>, Tables))
    requires t.Ok() && f.Ok() && n <= |f.comps| && QuantThere(t, f, n)
    ensures r.1.Ok() && r.1.quant == t.quant && LegalAll(r.0)
    ensures r.1 == t.(quantSent := r.1.quantSent)
  {
    if n == 0 then ([], t)
    else
      var r := FrameTables(t, f, n - 1);
      var s := SendQuant(r.1, f.comps[n - 1].frame.tq);
      (r.0 + s.0, s.1)
  }

  predicate AnyWide(t: Tables, f: Frame, n: nat)
    requires t.Ok() && f.Ok() && n <= |f.comps| && QuantThere(t, f, n)
  {
    exists i | 0 <= i < n :: Wide(t.quant[f.comps[i].frame.tq].value)
  }

  predicate LowTables(f: Frame, n: nat)
    requires n <= |f.comps|
  {
    forall i | 0 <= i < n :: f.comps[i].dcTbl <= 1 && f.comps[i].acTbl <= 1
  }

  /** SOF0 is for baseline: 8-bit samples, byte-sized quantizers, Huffman tables 0 and 1, one pass. */
  function SofCode(t: Tables, f: Frame): Byte
    requires t.Ok() && f.Ok() && QuantThere(t, f, |f.comps|)
  {
    if f.progressive then SOF2
    else if f.precision == 8 && LowTables(f, |f.comps|) && !AnyWide(t, f, |f.comps|) then SOF0
    else SOF1
  }

  function FrameOnly(comps: seq<Component>): (r: seq<FrameComp>)
    ensures |r| == |comps|
  {
    seq(|comps|, i requires 0 <= i < |comps| => comps[i].frame)
  }

  function SofSegment(t: Tables, f: Frame): (g: Segment)
    requires t.Ok() && f.Ok() && QuantThere(t, f, |f.comps|) && f.height < 0x1_0000 && f.width < 0x1_0000
    ensures Legal(g)
  {
    Sof(SofCode(t, f), f.precision, f.height, f.width, FrameOnly(f.comps))
  }

  function FrameHeader(t: Tables, f: Frame): (r: (seq<Segment>, Tables))
    requires t.Ok() && f.Ok() && QuantThere(t, f, |f.comps|) && f.height < 0x1_0000 && f.width < 0x1_0000
    ensures r.1.Ok() && LegalAll(r.0)
  {
    var r := FrameTables(t, f, |f.comps|);
    (r.0 + [SofSegment(t, f)], r.1)
  }

  /** A scan as the compressor has it: components by their place in the frame. */
  datatype ScanParams = ScanParams(current: seq<nat>, ss: Byte, se: Byte, ah: nat, al: nat, interval: nat) {
    predicate Ok(f: Frame) {
      && 0 < |current| <= 4 && ah < 16 && al < 16 && interval < 0x1_0000
      && forall i | 0 <= i < |current| :: current[i] < |f.comps|
    }
  }

  /** Which tables a scan uses: all but the first scans of progressive DC and the AC scans do without one of them,
      and refinements of DC need none. */
  predicate UsesDc(f: Frame, sc: ScanParams) { !f.progressive || (sc.ss == 0 && sc.ah == 0) }

  predicate UsesAc(f: Frame, sc: ScanParams) { !f.progressive || sc.ss != 0 }

  predicate PairThere(t: Tables, f: Frame, sc: ScanParams, ci: nat)
    requires t.Ok() && f.Ok() && ci < |f.comps|
  {
    (UsesDc(f, sc) ==> t.dc[f.comps[ci].dcTbl].Some?) && (UsesAc(f, sc) ==> t.ac[f.comps[ci].acTbl].Some?)
  }

  predicate HuffThere(t: Tables, f: Frame, sc: ScanParams, n: nat)
    requires t.Ok() && f.Ok() && sc.Ok(f) && n <= |sc.current|
  {
    forall i | 0 <= i < n :: PairThere(t, f, sc, sc.current[i])
  }

  function SendPair(t: Tables, f: Frame, sc: ScanParams, ci: nat): (r: (seq<Segment>, Tables))
    requires t.Ok() && f.Ok() && ci < |f.comps| && PairThere(t, f, sc, ci)
    ensures r.1.Ok() && LegalAll(r.0) && r.1 == t.(dcSent := r.1.dcSent, acSent := r.1.acSent)
  {
    var d := if UsesDc(f, sc) then SendHuff(t, false, f.comps[ci].dcTbl) else ([], t);
    var a := if UsesAc(f, sc) then SendHuff(d.1, true, f.comps[ci].acTbl) else ([], d.1);
    (d.0 + a.0, a.1)
  }

  function ScanTables(t: Tables, f: Frame, sc: ScanParams, n: nat): (r: (seq<Segment>, Tables))
    requires t.Ok() && f.Ok() && sc.Ok(f) && n <= |sc.current| && HuffThere(t, f, sc, n)
    ensures r.1.Ok() && LegalAll(r.0) && r.1 == t.(dcSent := r.1.dcSent, acSent := r.1.acSent)
  {
    if n == 0 then ([], t)
    else
      var r := ScanTables(t, f, sc, n - 1);
      var s := SendPair(r.1, f, sc, sc.current[n - 1]);
      (r.0 + s.0, s.1)
  }

  /** An unused table number is sent as 0. */
  function ScanCompOf(f: Frame, sc: ScanParams, ci: nat): ScanComp
    requires ci < |f.comps|
  {
    ScanComp(f.comps[ci].frame.id, if UsesDc(f, sc) then f.comps[ci].dcTbl
        else 0, if UsesAc(f, sc) then f.comps[ci].acTbl else 0)
  }

  function CompsOf(f: Frame, sc: ScanParams, current: seq<nat>): (r: seq<ScanComp>)
    requires forall i | 0 <= i < |current| :: current[i] < |f.comps|
    ensures |r| == |current| && forall i | 0 <= i < |current| :: r[i] == ScanCompOf(f, sc, current[i])
  {
    seq(|current|, i requires 0 <= i < |current| => ScanCompOf(f, sc, current[i]))
  }

  function ScanCompsOf(f: Frame, sc: ScanParams): (r: seq<ScanComp>)
    requires f.Ok() && sc.Ok(f)
    ensures |r| == |sc.current|
  {
    CompsOf(f, sc, sc.current)
  }

  function SosSegment(f: Frame, sc: ScanParams): (g: Segment)
    requires f.Ok() && sc.Ok(f)
    ensures Legal(g)
  {
    Sos(ScanCompsOf(f, sc), sc.ss, sc.se, sc.ah, sc.al)
  }

  function ScanHeader(t: Tables, f: Frame, sc: ScanParams): (r: (seq<Segment>, Tables))
    requires t.Ok() && f.Ok() && sc.Ok(f) && HuffThere(t, f, sc, |sc.current|)
    ensures r.1.Ok() && LegalAll(r.0)
  {
    var r := ScanTables(t, f, sc, |sc.current|);
    var dri := if sc.interval != t.lastInterval then [Dri(sc.interval)] else [];
    (r.0 + dri + [SosSegment(f, sc)], r.1.(lastInterval := sc.interval))
  }

  // ---------------------------------------------------------------- writing

  class HeaderWriter {
    var out: seq<Byte>
    var quant: seq<Option<seq<nat>>>
    var quantSent: seq<bool>
    var dc: seq<Option<HuffTable>>
    var dcSent: seq<bool>
    var ac: seq<Option<HuffTable>>
    var acSent: seq<bool>
    var lastRestartInterval: nat

    ghost function State(): Tables
      reads this
    {
      Tables(quant, quantSent, dc, dcSent, ac, acSent, lastRestartInterval)
    }

    ghost predicate Valid()
      reads this
    {
      State().Ok()
    }

    constructor ()
      ensures Valid() && out == [] && State() == Tables(quant, [false, false, false, false], dc,
          [false, false, false, false], ac, [false, false, false, false], 0)
      ensures quant == seq(4, _ => None) && dc == ac == seq(4, _ => None)
    {
      out := [];
      quant, dc, ac := seq(4, _ => None), seq(4, _ => None), seq(4, _ => None);
      quantSent, dcSent, acSent := [false, false, false, false], [false, false, false, false],
          [false, false, false, false];
      lastRestartInterval := 0;
    }

    method EmitByte(v: Byte)
      modifies this`out
      ensures out == old(out) + [v]
    {
      out := out + [v];
    }

    method EmitMarker(code: Byte)
      modifies this`out
      ensures out == old(out) + [0xFF, code]
    {
      EmitByte(0xFF);
      EmitByte(code);
    }

    method Emit2Bytes(v: nat)
      requires v < 0x1_0000
      modifies this`out
      ensures out == old(out) + Two(v)
    {
      EmitByte(v / 256);
      EmitByte(v % 256);
    }

    /** The entries of a quantization table, in zigzag order. */
    method EmitEntries(q: seq<nat>, wide: bool)
      requires SoundQuant(q) && wide == Wide(q)
      modifies this`out
      ensures forall i | 0 <= i < 64 :: ZigzagList(q)[i] < if wide then 0x1_0000 else 256
      ensures out == old(out) + QuantBytes(wide, ZigzagList(q))
    {
      hide Natural, QuantBytes, EntryBytes, ZigzagList;
      ghost var zz := ZigzagList(q);
      ZigzagListBelow(q, if wide then 0x1_0000 else 256);
      NoEntries(wide);
      for i := 0 to 64
        invariant out == old(out) + QuantBytes(wide, zz[..i])
      {
        var qval := q[Natural(i)];
        EntryOf(q, i);
        if wide {
          EmitByte(qval / 256);
        }
        EmitByte(qval % 256);
        QuantBytesSnoc(wide, zz[..i], qval);
        assert zz[..i + 1] == zz[..i] + [qval];
      }
      assert zz[..64] == zz;
    }

    /** The segment for one quantization table. */
    method WriteQuant(index: nat, q: seq<nat>, prec: nat)
      requires SoundQuant(q) && index < 4 && prec == if Wide(q) then 1 else 0
      modifies this`out
      ensures out == old(out) + SegmentOf(QuantSegment(index, q))
    {
      hide Wide, SegmentOf, QuantBytes, SoundQuant, QuantSegment, Two;
      EmitMarker(DQT);
      Emit2Bytes(if prec != 0 then 131 else 67);
      EmitByte(index + 16 * prec);
      EmitEntries(q, prec != 0);
      QuantSegmentBytes(index, q);
    }

    /** emit_dqt. */
    method EmitDqt(index: nat) returns (ok: bool, prec: nat)
      requires Valid() && index < 4
      modifies this`out, this`quantSent
      ensures Valid() && ok == old(quant)[index].Some?
      ensures ok ==> prec == if Wide(quant[index].value) then 1 else 0
      ensures ok ==> var r := SendQuant(old(State()), index); out == old(out) + BytesOf(r.0) && State() == r.1
    {
      hide Wide, SegmentOf, QuantSegment, SoundHuff;
      if quant[index].None? {
        return false, 0;
      }
      var q := quant[index].value;
      prec := Precision(q);
      if !quantSent[index] {
        WriteQuant(index, q, prec);
        OneSegment(QuantSegment(index, q));
      } else {
        NoSegment();
      }
      quantSent := quantSent[index := true];
      ok := true;
    }

    /** The segment for one Huffman table. */
    method WriteHuff(index: nat, isAc: bool, t: HuffTable)
      requires SoundHuff(t) && index < 4
      modifies this`out
      ensures out == old(out) + SegmentOf(HuffSegment(isAc, index, t))
    {
      hide SegmentOf, HuffSegment, SoundHuff, HuffTable.Shaped, HuffTable.Count, Two;
      HuffParts(isAc, index, t);
      EmitMarker(DHT);
      var length := CountOf(t);
      Emit2Bytes(length + 19);
      EmitByte(if isAc then index + 16 else index);
      EmitAll(t.bits[1..]);
      EmitAll(t.huffval[..length]);
    }

    /** emit_dht. */
    method EmitDht(index: nat, isAc: bool) returns (ok: bool)
      requires Valid() && index < 4
      modifies this`out, this`dcSent, this`acSent
      ensures Valid() && ok == old(State()).Huff(isAc)[index].Some?
      ensures ok ==> var r := SendHuff(old(State()), isAc, index); out == old(out) + BytesOf(r.0) && State() == r.1
    {
      hide SegmentOf, HuffSegment, SoundHuff, SoundQuant;
      var htbl := if isAc then ac[index] else dc[index];
      if htbl.None? {
        return false;
      }
      var sent := if isAc then acSent[index] else dcSent[index];
      if !sent {
        ghost var g := HuffSegment(isAc, index, htbl.value);
        WriteHuff(index, isAc, htbl.value);
        OneSegment(g);
      } else {
        NoSegment();
      }
      if isAc {
        acSent := acSent[index := true];
      } else {
        dcSent := dcSent[index := true];
      }
      ok := true;
    }

    /** One byte after another. */
    method EmitAll(b: seq<Byte>)
      modifies this`out
      ensures out == old(out) + b
    {
      for i := 0 to |b|
        invariant out == old(out) + b[..i]
      {
        EmitByte(b[i]);
        assert b[..i + 1] == b[..i] + [b[i]];
      }
      assert b[..|b|] == b;
    }

    /** emit_dri. */
    method EmitDri(interval: nat)
      requires interval < 0x1_0000
      modifies this`out
      ensures out == old(out) + SegmentOf(Dri(interval))
    {
      EmitMarker(DRI);
      Emit2Bytes(4);
      Emit2Bytes(interval);
      assert [0xFF, DRI] + (Two(4) + Two(interval)) == [0xFF, DRI] + Two(4) + Two(interval);
    }

    /** The components of a scan header. */
    method EmitScanComps(f: Frame, sc: ScanParams)
      requires f.Ok() && sc.Ok(f)
      modifies this`out
      ensures ScansLegal(ScanCompsOf(f, sc)) && out == old(out) + ScanCompBytes(ScanCompsOf(f, sc))
    {
      hide ScanCompBytes, ScanCompsOf;
      ghost var cs := ScanCompsOf(f, sc);
      NoComps();
      assert cs[..0] == [];
      for i := 0 to |sc.current|
        invariant ScansLegal(cs[..i]) && out == old(out) + ScanCompBytes(cs[..i])
      {
        var c := f.comps[sc.current[i]];
        EmitByte(c.frame.id);
        var td, ta := c.dcTbl, c.acTbl;
        if f.progressive {
          if sc.ss == 0 {
            ta := 0;
            if sc.ah != 0 {
              td := 0;
            }
          } else {
            td := 0;
          }
        }
        EmitByte(16 * td + ta);
        ScanCompsSnoc(cs[..i], ScanComp(c.frame.id, td, ta));
        ScanCompsAt(f, sc, i);
        assert cs[..i + 1] == cs[..i] + [ScanComp(c.frame.id, td, ta)];
      }
      assert cs[..|sc.current|] == cs;
    }

    /** emit_sos. */
    method EmitSos(f: Frame, sc: ScanParams)
      requires f.Ok() && sc.Ok(f)
      modifies this`out
      ensures out == old(out) + SegmentOf(SosSegment(f, sc))
    {
      hide ScanCompBytes, ScanCompsOf, Two, ScansLegal, SegmentOf, SosSegment;
      EmitMarker(SOS);
      Emit2Bytes(2 * |sc.current| + 6);
      EmitByte(|sc.current|);
      EmitScanComps(f, sc);
      SosParts(f, sc);
      EmitByte(sc.ss);
      EmitByte(sc.se);
      EmitByte(16 * sc.ah + sc.al);
    }

    /** The components of a frame header. */
    method EmitFrameComps(f: Frame)
      requires f.Ok()
      modifies this`out
      ensures FramesLegal(FrameOnly(f.comps)) && out == old(out) + FrameCompBytes(FrameOnly(f.comps))
    {
      hide FrameCompBytes, FrameOnly;
      ghost var cs := FrameOnly(f.comps);
      assert cs[..0] == [];
      NoComps();
      for ci := 0 to |f.comps|
        invariant FramesLegal(cs[..ci]) && out == old(out) + FrameCompBytes(cs[..ci])
      {
        var c := f.comps[ci].frame;
        EmitByte(c.id);
        EmitByte(16 * c.h + c.v);
        EmitByte(c.tq);
        FrameCompsSnoc(cs[..ci], c);
        FrameOnlyAt(f.comps, ci);
        assert cs[..ci + 1] == cs[..ci] + [c];
      }
      assert cs[..|f.comps|] == cs;
    }

    /** emit_sof. */
    method EmitSof(code: Byte, f: Frame) returns (ok: bool)
      requires f.Ok() && code in {SOF0, SOF1, SOF2}
      modifies this`out
      ensures ok == (f.height < 0x1_0000 && f.width < 0x1_0000)
      ensures ok ==> LegalSof(code, f) && out == old(out) + SegmentOf(SofOf(code, f))
    {
      hide FrameCompBytes, FrameOnly, Two, Legal, LegalSof, FramesLegal, SegmentOf, SofOf;
      EmitMarker(code);
      Emit2Bytes(3 * |f.comps| + 8);
      if f.height > 65535 || f.width > 65535 {
        return false;
      }
      SofParts(code, f);
      EmitByte(f.precision);
      Emit2Bytes(f.height);
      Emit2Bytes(f.width);
      EmitByte(|f.comps|);
      EmitFrameComps(f);
      ok := true;
    }

    /** write_file_header, without the optional JFIF and Adobe markers. */
    method WriteFileHeader()
      requires Valid()
      modifies this`out, this`lastRestartInterval
      ensures Valid() && out == old(out) + [0xFF, 0xD8] && State() == old(State()).(lastInterval := 0)
    {
      EmitMarker(SOI);
      lastRestartInterval := 0;
    }

    /** write_file_trailer. */
    method WriteFileTrailer()
      requires Valid()
      modifies this`out
      ensures Valid() && out == old(out) + [0xFF, 0xD9]
    {
      EmitMarker(EOI);
    }

    /** The quantization tables of a frame; `prec` is nonzero if one of them is wide. */
    method EmitQuants(f: Frame) returns (ok: bool, prec: nat)
      requires Valid() && f.Ok()
      modifies this`out, this`quantSent
      ensures Valid() && ok == QuantThere(old(State()), f, |f.comps|)
      ensures ok ==> var r := FrameTables(old(State()), f, |f.comps|); out == old(out) + BytesOf(r.0) && State() == r.1
      ensures ok ==> (prec != 0 <==> AnyWide(old(State()), f, |f.comps|))
    {
      hide SendQuant, BytesOf, SegmentOf, Legal, Tables.Ok, Wide;
      ghost var t := State();
      prec := 0;
      NoSegment();
      TablesOk(t);
      for ci := 0 to |f.comps|
        invariant Valid() && QuantThere(t, f, ci)
        invariant out == old(out) + BytesOf(FrameTables(t, f, ci).0) && State() == FrameTables(t, f, ci).1
        invariant prec != 0 <==> AnyWide(t, f, ci)
      {
        var p;
        ok, p := EmitDqt(f.comps[ci].frame.tq);
        if !ok {
          return false, prec;
        }
        prec := prec + p;
        ghost var r, s := FrameTables(t, f, ci), SendQuant(FrameTables(t, f, ci).1, f.comps[ci].frame.tq);
        SendQuantLegal(r.1, f.comps[ci].frame.tq);
        BytesOfConcat(r.0, s.0);
      }
      ok := true;
    }

    /** write_frame_header.  It fails if a table is missing or the image is too big for the header. */
    method WriteFrameHeader(f: Frame) returns (ok: bool)
      requires Valid() && f.Ok()
      modifies this`out, this`quantSent
      ensures Valid() && ok == (QuantThere(old(State()), f, |f.comps|) && f.height < 0x1_0000 && f.width < 0x1_0000)
      ensures ok ==> var r := FrameHeader(old(State()), f); out == old(out) + BytesOf(r.0) && State() == r.1
    {
      hide FrameTables, BytesOf, SegmentOf, Legal, Tables.Ok, SofOf, LegalSof, QuantThere;
      ghost var t := State();
      var prec;
      ok, prec := EmitQuants(f);
      if !ok {
        return;
      }
      var isBaseline := IsBaseline(f, prec);
      var code := if f.progressive then SOF2 else if isBaseline then SOF0 else SOF1;
      ok := EmitSof(code, f);
      if ok {
        SofIs(t, f, code);
        BytesOfSnoc(FrameTables(t, f, |f.comps|).0, SofSegment(t, f));
      }
    }

    /** The Huffman tables of one component of a scan. */
    method EmitTables(f: Frame, sc: ScanParams, ci: nat) returns (ok: bool)
      requires Valid() && f.Ok() && sc.Ok(f) && ci < |f.comps|
      modifies this`out, this`dcSent, this`acSent
      ensures Valid() && ok == PairThere(old(State()), f, sc, ci)
      ensures ok ==> var r := SendPair(old(State()), f, sc, ci); out == old(out) + BytesOf(r.0) && State() == r.1
    {
      hide SendHuff, BytesOf, LegalAll, SoundHuff, SoundQuant;
      NoSegment();
      ok := true;
      ghost var t := State();
      ghost var d: seq<Segment> := [];
      if f.progressive {
        if sc.ss == 0 {
          if sc.ah == 0 {
            ok := EmitDht(f.comps[ci].dcTbl, false);
          }
        } else {
          ok := EmitDht(f.comps[ci].acTbl, true);
        }
        if ok {
          PairOne(t, f, sc, ci);
        }
      } else {
        ok := EmitDht(f.comps[ci].dcTbl, false);
        if ok {
          ok := EmitDht(f.comps[ci].acTbl, true);
          if ok {
            PairBoth(t, f, sc, ci);
          }
        }
      }
    }

    /** write_scan_header. */
    method WriteScanHeader(f: Frame, sc: ScanParams) returns (ok: bool)
      requires Valid() && f.Ok() && sc.Ok(f)
      modifies this`out, this`dcSent, this`acSent, this`lastRestartInterval
      ensures Valid() && ok == HuffThere(old(State()), f, sc, |sc.current|)
      ensures ok ==> var r := ScanHeader(old(State()), f, sc); out == old(out) + BytesOf(r.0) && State() == r.1
    {
      hide SendPair, BytesOf, SegmentOf, Legal, Tables.Ok, SosSegment;
      ghost var t := State();
      NoSegment();
      for i := 0 to |sc.current|
        invariant Valid() && HuffThere(t, f, sc, i)
        invariant out == old(out) + BytesOf(ScanTables(t, f, sc, i).0) && State() == ScanTables(t, f, sc, i).1
      {
        ok := EmitTables(f, sc, sc.current[i]);
        assert ok == PairThere(t, f, sc, sc.current[i]);
        if !ok {
          return;
        }
        ghost var r := ScanTables(t, f, sc, i);
        BytesOfConcat(r.0, SendPair(r.1, f, sc, sc.current[i]).0);
      }
      ghost var gs := ScanTables(t, f, sc, |sc.current|).0;
      if sc.interval != lastRestartInterval {
        EmitDri(sc.interval);
        DriLegal(sc.interval);
        BytesOfSnoc(gs, Dri(sc.interval));
        gs := gs + [Dri(sc.interval)];
        lastRestartInterval := sc.interval;
      } else {
        assert gs + [] == gs;
      }
      EmitSos(f, sc);
      BytesOfSnoc(gs, SosSegment(f, sc));
      IntervalKept(t, f, sc);
      assert State() == ScanHeader(t, f, sc).1;
      ok := true;
    }

    /** A new Huffman table has not been sent. */
    method StoreHuff(isAc: bool, index: nat, t: HuffTable)
      requires Valid() && index < 4 && SoundHuff(t)
      modifies this`dc, this`dcSent, this`ac, this`acSent
      ensures Valid() && State() == NewHuff(old(State()), isAc, index, t)
    {
      hide SoundHuff, SoundQuant;
      if isAc {
        ac, acSent := ac[index := Some(t)], acSent[index := false];
      } else {
        dc, dcSent := dc[index := Some(t)], dcSent[index := false];
      }
    }

    /** A new quantization table has not been sent. */
    method StoreQuant(index: nat, q: seq<nat>)
      requires Valid() && index < 4 && SoundQuant(q)
      modifies this`quant, this`quantSent
      ensures Valid() && State() == NewQuant(old(State()), index, q)
    {
      hide SoundHuff, SoundQuant;
      quant, quantSent := quant[index := Some(q)], quantSent[index := false];
    }
  }

  function NewHuff(t: Tables, isAc: bool, index: nat, h: HuffTable): Tables
    requires t.Ok() && index < 4 && SoundHuff(h)
  {
    if isAc then t.(ac := t.ac[index := Some(h)], acSent := t.acSent[index := false])
    else t.(dc := t.dc[index := Some(h)], dcSent := t.dcSent[index := false])
  }

  function NewQuant(t: Tables, index: nat, q: seq<nat>): Tables
    requires t.Ok() && index < 4 && SoundQuant(q)
  {
    t.(quant := t.quant[index := Some(q)], quantSent := t.quantSent[index := false])
  }

  lemma PairOne(t: Tables, f: Frame, sc: ScanParams, ci: nat)
    requires t.Ok() && f.Ok() && ci < |f.comps| && f.progressive && PairThere(t, f, sc, ci)
    ensures SendPair(t, f, sc, ci) ==
      if sc.ss != 0 then SendHuff(t, true, f.comps[ci].acTbl)
      else if sc.ah == 0 then SendHuff(t, false, f.comps[ci].dcTbl) else ([], t)
  {
    hide SendHuff;
    if sc.ss != 0 {
      var r := SendHuff(t, true, f.comps[ci].acTbl);
      assert [] + r.0 == r.0;
    } else if sc.ah == 0 {
      var r := SendHuff(t, false, f.comps[ci].dcTbl);
      assert r.0 + [] == r.0;
    } else {
      var none: seq<Segment> := [];
      assert none + none == none;
    }
  }

  lemma PairBoth(t: Tables, f: Frame, sc: ScanParams, ci: nat)
    requires t.Ok() && f.Ok() && ci < |f.comps| && !f.progressive && PairThere(t, f, sc, ci)
    ensures var d := SendHuff(t, false, f.comps[ci].dcTbl);
      var a := SendHuff(d.1, true, f.comps[ci].acTbl);
      && SendPair(t, f, sc, ci) == (d.0 + a.0, a.1) && LegalAll(d.0) && LegalAll(a.0)
         && BytesOf(d.0 + a.0) == BytesOf(d.0) + BytesOf(a.0)
  {
    hide Legal, SegmentOf;
    var d := SendHuff(t, false, f.comps[ci].dcTbl);
    BytesOfConcat(d.0, SendHuff(d.1, true, f.comps[ci].acTbl).0);
  }

  lemma DriLegal(interval: nat)
    requires interval < 0x1_0000
    ensures Legal(Dri(interval))
  {
  }

  lemma IntervalKept(t: Tables, f: Frame, sc: ScanParams)
    requires t.Ok() && f.Ok() && sc.Ok(f) && HuffThere(t, f, sc, |sc.current|)
    ensures ScanTables(t, f, sc, |sc.current|).1.lastInterval == t.lastInterval
  {
  }

  /** Whether a frame with quantization tables of precision `prec` can be called baseline. */
  method IsBaseline(f: Frame, prec: nat) returns (isBaseline: bool)
    ensures isBaseline == (!f.progressive && f.precision == 8 && LowTables(f, |f.comps|) && prec == 0)
  {
    if f.progressive || f.precision != 8 {
      return false;
    }
    isBaseline := true;
    for ci := 0 to |f.comps|
      invariant isBaseline == LowTables(f, ci)
    {
      if f.comps[ci].dcTbl > 1 || f.comps[ci].acTbl > 1 {
        isBaseline := false;
      }
    }
    if prec != 0 && isBaseline {
      isBaseline := false;
    }
  }

  /** The symbols of a Huffman table are counted before they are sent. */
  method CountOf(t: HuffTable) returns (length: nat)
    requires t.Shaped()
    ensures length == t.Count(16)
  {
    length := 0;
    for i := 1 to 17
      invariant length == t.Count(i - 1)
    {
      length := length + t.bits[i];
    }
  }

  lemma HuffParts(isAc: bool, index: nat, t: HuffTable)
    requires SoundHuff(t) && index < 4
    ensures |t.bits| == 17 && |t.huffval| == 256 && t.Count(16) <= 256
    ensures (forall i | 0 <= i < 17 :: t.bits[i] < 256) && (forall i | 0 <= i < 256 :: t.huffval[i] < 256)
    ensures SegmentOf(HuffSegment(isAc, index, t))
         == [0xFF, DHT] + Two(19 + t.Count(16)) + [if isAc then index + 16 else index] + t.bits[1..]
             + t.huffval[..t.Count(16)]
  {
    hide Two;
    var m, l, n: seq<Byte> := [0xFF, DHT], Two(19 + t.Count(16)), [if isAc then index + 16 else index];
    var b, v: seq<Byte> := t.bits[1..], t.huffval[..t.Count(16)];
    assert m + (l + n + b + v) == m + l + n + b + v;
  }

  function SofOf(code: Byte, f: Frame): Segment { Sof(code, f.precision, f.height, f.width, FrameOnly(f.comps)) }

  predicate LegalSof(code: Byte, f: Frame) { Legal(SofOf(code, f)) }

  lemma SofParts(code: Byte, f: Frame)
    requires f.Ok() && code in {SOF0, SOF1, SOF2} && f.height < 0x1_0000 && f.width < 0x1_0000
    ensures LegalSof(code, f) && FramesLegal(FrameOnly(f.comps))
    ensures SegmentOf(SofOf(code, f)) == [0xFF, code] + Two(8 + 3 * |f.comps|) + [f.precision] + Two(f.height)
        + Two(f.width) + [|f.comps|] + FrameCompBytes(FrameOnly(f.comps))
  {
    hide Two, FrameCompBytes;
    var m: seq<Byte> := [0xFF, code];
    var l, p, h, w, n := Two(8 + 3 * |f.comps|), [f.precision], Two(f.height), Two(f.width), [|f.comps| as Byte];
    var c := FrameCompBytes(FrameOnly(f.comps));
    assert m + (l + p + h + w + n + c) == m + l + p + h + w + n + c;
  }

  lemma FrameOnlyAt(comps: seq<Component>, i: nat)
    requires i < |comps|
    ensures FrameOnly(comps)[i] == comps[i].frame
  {
  }

  lemma ScanCompsAt(f: Frame, sc: ScanParams, i: nat)
    requires f.Ok() && sc.Ok(f) && i < |sc.current|
    ensures ScanCompsOf(f, sc)[i] == ScanCompOf(f, sc, sc.current[i])
  {
  }

  lemma NoComps()
    ensures FrameCompBytes([]) == [] && ScanCompBytes([]) == []
  {
  }

  lemma {:induction false} FrameCompsSnoc(cs: seq<FrameComp>, c: FrameComp)
    requires FramesLegal(cs) && c.h < 16 && c.v < 16
    ensures FramesLegal(cs + [c]) && FrameCompBytes(cs + [c]) == FrameCompBytes(cs) + [c.id, 16 * c.h + c.v, c.tq]
    decreases |cs|
  {
    if cs == [] {
      assert [c][1..] == [] && cs + [c] == [c];
    } else {
      assert (cs + [c])[1..] == cs[1..] + [c];
      FrameCompsSnoc(cs[1..], c);
    }
  }

  lemma {:induction false} ScanCompsSnoc(cs: seq<ScanComp>, c: ScanComp)
    requires ScansLegal(cs) && c.td < 16 && c.ta < 16
    ensures ScansLegal(cs + [c]) && ScanCompBytes(cs + [c]) == ScanCompBytes(cs) + [c.id, 16 * c.td + c.ta]
    decreases |cs|
  {
    if cs == [] {
      assert [c][1..] == [] && cs + [c] == [c];
    } else {
      assert (cs + [c])[1..] == cs[1..] + [c];
      ScanCompsSnoc(cs[1..], c);
    }
  }

  lemma SosParts(f: Frame, sc: ScanParams)
    requires f.Ok() && sc.Ok(f)
    ensures ScansLegal(ScanCompsOf(f, sc))
    ensures SegmentOf(SosSegment(f, sc)) == [0xFF, SOS] + Two(6 + 2 * |sc.current|) + [|sc.current|]
        + ScanCompBytes(ScanCompsOf(f, sc)) + [sc.ss] + [sc.se] + [16 * sc.ah + sc.al]
  {
    hide Two, ScanCompBytes;
    var m: seq<Byte> := [0xFF, SOS];
    var l, n := Two(6 + 2 * |sc.current|), [|sc.current| as Byte];
    var c := ScanCompBytes(ScanCompsOf(f, sc));
    var last: Byte := 16 * sc.ah + sc.al;
    assert m + (l + n + c + [sc.ss, sc.se, last]) == m + l + n + c + [sc.ss] + [sc.se] + [last];
  }

  predicate ScansLegal(scan: seq<ScanComp>) { forall i | 0 <= i < |scan| :: scan[i].td < 16 && scan[i].ta < 16 }

  predicate FramesLegal(comps: seq<FrameComp>) { forall i | 0 <= i < |comps| :: comps[i].h < 16 && comps[i].v < 16 }

  /** 1 if a table has entries of more than 8 bits. */
  method Precision(q: seq<nat>) returns (prec: nat)
    requires |q| == 64
    ensures prec == if Wide(q) then 1 else 0
  {
    prec := 0;
    for i := 0 to 64
      invariant prec == if exists j | 0 <= j < i :: q[j] > 255 then 1 else 0
    {
      if q[i] > 255 {
        prec := 1;
      }
    }
  }

  lemma EntryOf(q: seq<nat>, i: nat)
    requires |q| == 64 && i < 64
    ensures ZigzagList(q)[i] == q[Natural(i)]
  {
  }

  lemma NoEntries(wide: bool)
    ensures QuantBytes(wide, []) == []
  {
  }

  lemma {:induction false} QuantBytesSnoc(wide: bool, vals: seq<nat>, v: nat)
    requires forall i | 0 <= i < |vals| :: vals[i] < if wide then 0x1_0000 else 256
    requires v < if wide then 0x1_0000 else 256
    ensures QuantBytes(wide, vals + [v]) == QuantBytes(wide, vals) + if wide then [v / 256, v % 256] else [v % 256]
    decreases |vals|
  {
    if vals == [] {
      assert [v][1..] == [];
      assert vals + [v] == [v];
    } else {
      assert (vals + [v])[1..] == vals[1..] + [v];
      QuantBytesSnoc(wide, vals[1..], v);
    }
  }

  lemma QuantSegmentBytes(index: nat, q: seq<nat>)
    requires SoundQuant(q) && index < 4
    ensures var zz := ZigzagList(q); forall i | 0 <= i < 64 :: zz[i] < if Wide(q) then 0x1_0000 else 256
    ensures SegmentOf(QuantSegment(index, q))
         == [0xFF, DQT] + Two(if Wide(q) then 131 else 67) + [index + if Wide(q) then 16 else 0]
             + QuantBytes(Wide(q), ZigzagList(q))
  {
    hide QuantBytes, Two;
    ZigzagListBelow(q, if Wide(q) then 0x1_0000 else 256);
    var m, l, n: seq<Byte> := [0xFF, DQT], Two(if Wide(q) then 131 else 67), [index + if Wide(q) then 16 else 0];
    var rest := QuantBytes(Wide(q), ZigzagList(q));
    assert m + (l + n + rest) == m + l + n + rest;
  }

  lemma NoSegment()
    ensures BytesOf([]) == []
  {
  }

  lemma OneSegment(g: Segment)
    requires Legal(g)
    ensures BytesOf([g]) == SegmentOf(g)
  {
    hide SegmentOf, Legal;
    assert [g][..0] == [];
    assert BytesOf([]) == [];
  }

  lemma TablesOk(t: Tables)
    ensures t.Ok() ==> |t.quant| == |t.dc| == |t.ac| == 4
  {
  }

  lemma SofIs(t: Tables, f: Frame, code: Byte)
    requires t.Ok() && f.Ok() && QuantThere(t, f, |f.comps|) && f.height < 0x1_0000 && f.width < 0x1_0000
        && code == SofCode(t, f)
    ensures SofOf(code, f) == SofSegment(t, f)
  {
  }

  lemma SendQuantLegal(t: Tables, index: nat)
    requires t.Ok() && index < 4 && t.quant[index].Some?
    ensures LegalAll(SendQuant(t, index).0)
  {
    hide Legal;
  }

  lemma BytesOfSnoc(gs: seq<Segment>, g: Segment)
    requires LegalAll(gs) && Legal(g)
    ensures LegalAll(gs + [g]) && BytesOf(gs + [g]) == BytesOf(gs) + SegmentOf(g)
  {
    hide Legal, SegmentOf;
    assert (gs + [g])[..|gs + [g]| - 1] == gs;
  }
}
