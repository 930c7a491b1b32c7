/** Taking marker segments apart, as functions of the bytes, and that this restores what they were made from. */
module MarkerParsing {
  import opened BitOutput
  import opened Huffman
  import opened Zigzag
  import opened MarkerSyntax

  // ---------------------------------------------------------------- get_dqt

  function ParseEntry(wide: bool, s: seq<Byte>): (r: Parse<nat>)
    ensures !r.Bad? && (r.Got? ==> |r.rest| <= |s|)
  {
    if wide then Byte2(s) else Byte1(s)
  }

  function ParseQuant(wide: bool, n: nat, s: seq<Byte>): (r: Parse<seq<nat>>)
    ensures !r.Bad? && (r.Got? ==> |r.value| == n && |r.rest| <= |s|)
  {
    if n == 0 then Got([], s)
    else
      var (v, s1) :- ParseEntry(wide, s);
      var (vs, s2) :- ParseQuant(wide, n - 1, s1);
      Got([v] + vs, s2)
  }

  function NoQuant(): (q: seq<nat>)
    ensures |q| == 64
  {
    seq(64, _ => 0)
  }

  /** One table after another, as long as there is something left. */
  function DqtLoop(info: Info, length: int, s: seq<Byte>): (r: Parse<Info>)
    requires info.Ok()
    ensures r.Got? ==> r.value.Ok() && |r.rest| <= |s|
    decreases if length > 0 then length else 0
  {
    if length > 0 then
      var (n, s1) :- Byte1(s);
      var wide, index := n / 16 != 0, n % 16;
      if index >= 4 then Bad
      else
        var (vs, s2) :- ParseQuant(wide, 64, s1);
        DqtLoop(info.(quant := info.quant[index := Some(Unzigzag(vs, 64, NoQuant()))]),
            length - (if wide then 129 else 65), s2)
    else if length != 0 then Bad
    else Got(info, s)
  }

  function ParseDqt(info: Info, s: seq<Byte>): (r: Parse<Info>)
    requires info.Ok()
    ensures r.Got? ==> r.value.Ok() && |r.rest| <= |s|
  {
    var (length, s1) :- Byte2(s);
    DqtLoop(info, length - 2, s1)
  }

  // ---------------------------------------------------------------- get_dht

  function Blank(): (b: seq<Byte>)
    ensures |b| == 256
  {
    seq(256, _ => 0)
  }

  /** The table that `counts` and `vals` make in a workspace that held `work` before. */
  function TableOf(counts: seq<Byte>, vals: seq<Byte>, work: seq<Byte>): HuffTable
    requires |vals| <= |work|
  {
    HuffTable([0] + counts, vals + work[|vals|..])
  }

  datatype TableDef = TableDef(isAc: bool, index: nat, counts: Counts, vals: seq<Byte>)

  /** One definition out of `length` bytes. */
  function ParseTable(length: int, s: seq<Byte>): (r: Parse<TableDef>)
    ensures r.Got? ==> r.value.index < 4 && |r.value.vals| == Total(r.value.counts) <= 256 && |r.rest| <= |s|
  {
    var (n, s1) :- Byte1(s);
    var (counts, s2) :- Bytes(16, s1);
    var count := Total(counts);
    if count > 256 || count > length - 17 then Bad
    else
      var (vals, s3) :- Bytes(count, s2);
      var isAc := n / 16 % 2 == 1;
      var index := if isAc then n - 16 else n;
      if index >= 4 then Bad else Got(TableDef(isAc, index, counts, vals), s3)
  }

  function Store(info: Info, isAc: bool, index: nat, t: HuffTable): (r: Info)
    requires info.Ok() && index < 4
    ensures r.Ok()
  {
    if isAc then info.(ac := info.ac[index := Some(t)]) else info.(dc := info.dc[index := Some(t)])
  }

  /** One table after another.  The workspace keeps what the last one has put there. */
  function DhtLoop(info: Info, length: int, s: seq<Byte>, work: seq<Byte>): (r: Parse<Info>)
    requires info.Ok() && |work| == 256
    ensures r.Got? ==> r.value.Ok() && |r.rest| <= |s|
    decreases if length > 0 then length else 0
  {
    if length > 16 then
      var (d, s1) :- ParseTable(length, s);
      DhtLoop(Store(info, d.isAc, d.index, TableOf(d.counts, d.vals, work)), length - 17 - |d.vals|, s1,
          d.vals + work[|d.vals|..])
    else if length != 0 then Bad
    else Got(info, s)
  }

  function ParseDht(info: Info, s: seq<Byte>): (r: Parse<Info>)
    requires info.Ok()
    ensures r.Got? ==> r.value.Ok() && |r.rest| <= |s|
  {
    var (length, s1) :- Byte2(s);
    DhtLoop(info, length - 2, s1, Blank())
  }

  // ---------------------------------------------------------------- get_dri, get_sof, get_sos

  function ParseDri(info: Info, s: seq<Byte>): (r: Parse<Info>)
    ensures r.Got? ==> (info.Ok() ==> r.value.Ok()) && |r.rest| <= |s|
  {
    var (length, s1) :- Byte2(s);
    if length != 4 then Bad
    else
      var (interval, s2) :- Byte2(s1);
      Got(info.(interval := interval), s2)
  }

  function ParseFrameComp(s: seq<Byte>): (r: Parse<FrameComp>)
    ensures !r.Bad? && (r.Got? ==> |r.rest| <= |s|)
  {
    var (id, s1) :- Byte1(s);
    var (c, s2) :- Byte1(s1);
    var (tq, s3) :- Byte1(s2);
    Got(FrameComp(id, c / 16, c % 16, tq), s3)
  }

  function ParseFrameComps(n: nat, s: seq<Byte>): (r: Parse<seq<FrameComp>>)
    ensures !r.Bad? && (r.Got? ==> |r.value| == n && |r.rest| <= |s|)
  {
    if n == 0 then Got([], s)
    else
      var (c, s1) :- ParseFrameComp(s);
      var (cs, s2) :- ParseFrameComps(n - 1, s1);
      Got([c] + cs, s2)
  }

  function Fresh(comps: seq<FrameComp>): (r: seq<Component>)
    ensures |r| == |comps|
  {
    seq(|comps|, i requires 0 <= i < |comps| => Component(comps[i], 0, 0))
  }

  datatype SofHead = SofHead(length: nat, precision: Byte, height: nat, width: nat, n: Byte)

  function ParseSofHead(s: seq<Byte>): (r: Parse<SofHead>)
    ensures !r.Bad? && (r.Got? ==> |r.rest| <= |s|)
  {
    var (length, s1) :- Byte2(s);
    var (precision, s2) :- Byte1(s1);
    var (height, s3) :- Byte2(s2);
    var (width, s4) :- Byte2(s3);
    var (n, s5) :- Byte1(s4);
    Got(SofHead(length, precision, height, width, n), s5)
  }

  function ParseSof(info: Info, progressive: bool, arith: bool, s: seq<Byte>): (r: Parse<Info>)
    ensures r.Got? ==> (info.Ok() ==> r.value.Ok()) && |r.rest| <= |s|
  {
    var (h, s1) :- ParseSofHead(s);
    if info.sawSof || h.height == 0 || h.width == 0 || h.n == 0 || h.length - 8 != 3 * h.n then Bad
    else
      var (comps, s2) :- ParseFrameComps(h.n, s1);
      Got(info.(progressive := progressive, arith := arith, precision := h.precision, height := h.height,
          width := h.width,
                comps := Fresh(comps), sawSof := true), s2)
  }

  function ParseScanComp(s: seq<Byte>): (r: Parse<ScanComp>)
    ensures !r.Bad? && (r.Got? ==> |r.rest| <= |s|)
  {
    var (id, s1) :- Byte1(s);
    var (c, s2) :- Byte1(s1);
    Got(ScanComp(id, c / 16, c % 16), s2)
  }

  function Note(comps: seq<Component>, ci: nat, c: ScanComp): (r: seq<Component>)
    requires ci < |comps|
    ensures |r| == |comps|
  {
    comps[ci := comps[ci].(dcTbl := c.td, acTbl := c.ta)]
  }

  /** The components of a scan: their tables are noted with the components of the frame. */
  function ParseScanComps(comps: seq<Component>, n: nat, s: seq<Byte>): (r: Parse<(seq<Component>, seq<nat>)>)
    ensures r.Got? ==> |r.value.0| == |comps| && |r.value.1| == n && |r.rest| <= |s|
    decreases n
  {
    if n == 0 then Got((comps, []), s)
    else
      var (c, s1) :- ParseScanComp(s);
      var ci := FindComp(comps, c.id, 0);
      if ci == |comps| then Bad
      else
        var (r, s2) :- ParseScanComps(Note(comps, ci, c), n - 1, s1);
        Got((r.0, [ci] + r.1), s2)
  }

  datatype SosTail = SosTail(ss: Byte, se: Byte, ah: nat, al: nat)

  function ParseSosTail(s: seq<Byte>): (r: Parse<SosTail>)
    ensures !r.Bad? && (r.Got? ==> |r.rest| <= |s|)
  {
    var (ss, s1) :- Byte1(s);
    var (se, s2) :- Byte1(s1);
    var (c, s3) :- Byte1(s2);
    Got(SosTail(ss, se, c / 16, c % 16), s3)
  }

  function ParseSos(info: Info, s: seq<Byte>): (r: Parse<Info>)
    ensures r.Got? ==> (info.Ok() ==> r.value.Ok()) && |r.rest| <= |s|
  {
    if !info.sawSof then Bad
    else
      var (length, s1) :- Byte2(s);
      var (n, s2) :- Byte1(s1);
      if length != 2 * n + 6 || n < 1 || n > 4 then Bad
      else
        var (r, s3) :- ParseScanComps(info.comps, n, s2);
        var (t, s4) :- ParseSosTail(s3);
        Got(info.(comps := r.0, current := r.1, ss := t.ss, se := t.se, ah := t.ah, al := t.al), s4)
  }

  function ParseSoi(info: Info, s: seq<Byte>): (r: Parse<Info>)
    ensures r.Got? ==> (info.Ok() ==> r.value.Ok()) && |r.rest| <= |s|
  {
    if info.sawSoi then Bad else Got(info.(sawSoi := true, interval := 0), s)
  }

  /** Parameters of no interest. */
  function Skip(info: Info, s: seq<Byte>): (r: Parse<Info>)
    ensures r.Got? ==> (info.Ok() ==> r.value.Ok()) && |r.rest| <= |s|
  {
    var (length, s1) :- Byte2(s);
    var (_, s2) :- Bytes(if length > 2 then length - 2 else 0, s1);
    Got(info, s2)
  }

  /** The parameters behind marker `code`. */
  function ParseBody(info: Info, code: Byte, s: seq<Byte>): (r: Parse<Info>)
    requires info.Ok()
    ensures r.Got? ==> r.value.Ok() && |r.rest| <= |s|
  {
    if code == SOI then ParseSoi(info, s)
    else if code == SOF0 || code == SOF1 then ParseSof(info, false, false, s)
    else if code == SOF2 then ParseSof(info, true, false, s)
    else if code == SOF9 then ParseSof(info, false, true, s)
    else if code == SOF10 then ParseSof(info, true, true, s)
    else if code == SOS then ParseSos(info, s)
    else if code == EOI then Got(info, s)
    else if code == DHT then ParseDht(info, s)
    else if code == DQT then ParseDqt(info, s)
    else if code == DRI then ParseDri(info, s)
    else if Bare(code) then Got(info, s)
    else if Skippable(code) then Skip(info, s)
    else Bad
  }

  // ---------------------------------------------------------------- what a segment says

  /** Looking up the components of a scan, and noting their tables. */
  function Noted(comps: seq<Component>, scan: seq<ScanComp>): (r: (seq<Component>, seq<nat>))
    ensures |r.0| == |comps| && |r.1| <= |scan|
    decreases |scan|
  {
    if scan == [] then (comps, [])
    else
      var ci := FindComp(comps, scan[0].id, 0);
      if ci == |comps| then (comps, [])
      else
        var r := Noted(Note(comps, ci, scan[0]), scan[1..]);
        (r.0, [ci] + r.1)
  }

  predicate Known(comps: seq<Component>, id: Byte) { exists i | 0 <= i < |comps| :: comps[i].frame.id == id }

  /** What a segment means to a decoder in state `info`. */
  function Apply(info: Info, g: Segment): (r: Info)
    requires info.Ok() && Legal(g)
    ensures r.Ok()
  {
    match g
    case Dqt(index, _, zz) => info.(quant := info.quant[index := Some(Unzigzag(zz, 64, NoQuant()))])
    case Dht(isAc, index, counts, vals) => Store(info, isAc, index, TableOf(counts, vals, Blank()))
    case Dri(interval) => info.(interval := interval)
    case Sof(code, precision, height, width, comps) =>
      info.(progressive := code == SOF2, arith := false, precision := precision, height := height, width := width,
          comps := Fresh(comps), sawSof := true)
    case Sos(scan, ss, se, ah, al) =>
      var r := Noted(info.comps, scan);
      info.(comps := r.0, current := r.1, ss := ss, se := se, ah := ah, al := al)
  }

  /** Where a segment can be accepted. */
  predicate Fits(info: Info, g: Segment)
  {
    Legal(g) && (g.Sof? ==> !info.sawSof)
        && (g.Sos? ==> info.sawSof && forall i | 0 <= i < |g.scan| :: Known(info.comps, g.scan[i].id))
  }

  // ---------------------------------------------------------------- round trips

  lemma EntryBack(wide: bool, v: nat, rest: seq<Byte>)
    requires v < if wide then 0x1_0000 else 256
    ensures ParseEntry(wide, EntryBytes(wide, v) + rest) == Got(v, rest)
  {
    if wide {
      ByteTwo(v, rest);
    } else {
      ByteOne(v, rest);
    }
  }

  lemma {:induction false} QuantBack(wide: bool, vals: seq<nat>, rest: seq<Byte>)
    requires forall i | 0 <= i < |vals| :: vals[i] < if wide then 0x1_0000 else 256
    ensures ParseQuant(wide, |vals|, QuantBytes(wide, vals) + rest) == Got(vals, rest)
    decreases |vals|
  {
    hide EntryBytes, ParseEntry;
    if vals == [] {
      assert QuantBytes(wide, vals) + rest == rest;
    } else {
      var later := QuantBytes(wide, vals[1..]) + rest;
      assert QuantBytes(wide, vals) + rest == EntryBytes(wide, vals[0]) + later;
      EntryBack(wide, vals[0], later);
      QuantBack(wide, vals[1..], rest);
      assert [vals[0]] + vals[1..] == vals;
    }
  }

  lemma DqtBack(info: Info, g: Segment, rest: seq<Byte>)
    requires info.Ok() && g.Dqt? && Legal(g)
    ensures ParseDqt(info, Body(g) + rest) == Got(Apply(info, g), rest)
  {
    hide ParseQuant, QuantBytes, Unzigzag, ParseEntry, EntryBytes;
    var n: Byte := g.index + if g.wide then 16 else 0;
    var s2 := QuantBytes(g.wide, g.zigzag) + rest;
    assert Body(g) + rest == Two(if g.wide then 131 else 67) + ([n] + s2);
    ByteTwo(if g.wide then 131 else 67, [n] + s2);
    ByteOne(n, s2);
    QuantBack(g.wide, g.zigzag, rest);
    assert DqtLoop(Apply(info, g), 0, rest) == Got(Apply(info, g), rest);
    assert n / 16 != 0 <==> g.wide;
    assert DqtLoop(info, if g.wide then 129 else 65, [n] + s2) == DqtLoop(Apply(info, g), 0, rest);
    assert Byte2(Body(g) + rest).Got?;
    assert ParseDqt(info, Body(g) + rest) == DqtLoop(info, Byte2(Body(g) + rest).value - 2, Byte2(Body(g) + rest).rest);
    assert ParseDqt(info, Body(g) + rest) == DqtLoop(info, if g.wide then 129 else 65, [n] + s2);
  }

  lemma TableBack(g: Segment, rest: seq<Byte>)
    requires g.Dht? && Legal(g)
    ensures |Body(g)| == 19 + |g.vals| && Byte2(Body(g) + rest) == Got(19 + |g.vals|, Body(g)[2..] + rest)
    ensures ParseTable(17 + |g.vals|, Body(g)[2..] + rest) == Got(TableDef(g.isAc, g.index, g.counts, g.vals), rest)
  {
    hide Total;
    var n: Byte := g.index + if g.isAc then 16 else 0;
    var s3 := g.vals + rest;
    assert Body(g) + rest == Two(19 + |g.vals|) + ([n] + (g.counts + s3));
    assert Body(g)[2..] + rest == [n] + (g.counts + s3);
    ByteTwo(19 + |g.vals|, [n] + (g.counts + s3));
    ByteOne(n, g.counts + s3);
    BytesMany(g.counts, s3);
    BytesMany(g.vals, rest);
  }

  lemma DhtBack(info: Info, g: Segment, rest: seq<Byte>)
    requires info.Ok() && g.Dht? && Legal(g)
    ensures ParseDht(info, Body(g) + rest) == Got(Apply(info, g), rest)
  {
    hide Total, TableOf, ParseTable, Body, Byte2;
    TableBack(g, rest);
    var t := TableOf(g.counts, g.vals, Blank());
    assert DhtLoop(Store(info, g.isAc, g.index, t), 0, rest, g.vals + Blank()[|g.vals|..])
        == Got(Store(info, g.isAc, g.index, t), rest);
  }

  lemma DriBack(info: Info, g: Segment, rest: seq<Byte>)
    requires info.Ok() && g.Dri? && Legal(g)
    ensures ParseDri(info, Body(g) + rest) == Got(Apply(info, g), rest)
  {
    hide Info.Ok;
    var s1 := Two(g.interval) + rest;
    assert Body(g) + rest == Two(4) + s1;
    ByteTwo(4, s1);
    ByteTwo(g.interval, rest);
    assert Byte2(Body(g) + rest) == Got(4, s1) && Byte2(s1) == Got(g.interval, rest);
    assert ParseDri(info, Body(g) + rest) == Got(info.(interval := g.interval), rest);
  }

  lemma FrameCompBack(c: FrameComp, rest: seq<Byte>)
    requires c.h < 16 && c.v < 16
    ensures ParseFrameComp([c.id, 16 * c.h + c.v, c.tq] + rest) == Got(c, rest)
  {
    var hv: Byte := 16 * c.h + c.v;
    assert [c.id, hv, c.tq] + rest == [c.id] + ([hv] + ([c.tq] + rest));
    ByteOne(c.id, [hv] + ([c.tq] + rest));
    ByteOne(hv, [c.tq] + rest);
    ByteOne(c.tq, rest);
  }

  lemma {:induction false} FrameCompsBack(comps: seq<FrameComp>, rest: seq<Byte>)
    requires forall i | 0 <= i < |comps| :: comps[i].h < 16 && comps[i].v < 16
    ensures ParseFrameComps(|comps|, FrameCompBytes(comps) + rest) == Got(comps, rest)
    decreases |comps|
  {
    hide ParseFrameComp;
    if comps == [] {
      assert FrameCompBytes(comps) + rest == rest;
    } else {
      var c := comps[0];
      var later := FrameCompBytes(comps[1..]) + rest;
      assert FrameCompBytes(comps) + rest == [c.id, 16 * c.h + c.v, c.tq] + later;
      FrameCompBack(c, later);
      FrameCompsBack(comps[1..], rest);
      assert [c] + comps[1..] == comps;
    }
  }

  lemma SofHeadBack(h: SofHead, rest: seq<Byte>)
    requires h.length < 0x1_0000 && h.height < 0x1_0000 && h.width < 0x1_0000
    ensures ParseSofHead(Two(h.length) + [h.precision] + Two(h.height) + Two(h.width) + [h.n] + rest) == Got(h, rest)
  {
    var s4 := [h.n] + rest;
    var s3 := Two(h.width) + s4;
    var s2 := Two(h.height) + s3;
    assert Two(h.length) + [h.precision] + Two(h.height) + Two(h.width) + [h.n] + rest
        == Two(h.length) + ([h.precision] + s2);
    ByteTwo(h.length, [h.precision] + s2);
    ByteOne(h.precision, s2);
    ByteTwo(h.height, s3);
    ByteTwo(h.width, s4);
    ByteOne(h.n, rest);
  }

  lemma SofBack(info: Info, g: Segment, rest: seq<Byte>)
    requires info.Ok() && g.Sof? && Fits(info, g)
    ensures ParseSof(info, g.code == SOF2, false, Body(g) + rest) == Got(Apply(info, g), rest)
  {
    hide ParseFrameComps, FrameCompBytes, Fresh, ParseSofHead;
    var h := SofHead(8 + 3 * |g.comps|, g.precision, g.height, g.width, |g.comps|);
    var s1 := FrameCompBytes(g.comps) + rest;
    assert Body(g) + rest == Two(h.length) + [h.precision] + Two(h.height) + Two(h.width) + [h.n] + s1;
    SofHeadBack(h, s1);
    FrameCompsBack(g.comps, rest);
  }

  lemma KnownFound(comps: seq<Component>, id: Byte)
    ensures Known(comps, id) <==> FindComp(comps, id, 0) < |comps|
  {
  }

  lemma StillKnown(comps: seq<Component>, ci: nat, c: ScanComp, id: Byte)
    requires ci < |comps| && Known(comps, id)
    ensures Known(Note(comps, ci, c), id)
  {
    var i :| 0 <= i < |comps| && comps[i].frame.id == id;
    assert Note(comps, ci, c)[i].frame.id == id;
  }

  lemma ScanCompBack(c: ScanComp, rest: seq<Byte>)
    requires c.td < 16 && c.ta < 16
    ensures ParseScanComp([c.id, 16 * c.td + c.ta] + rest) == Got(c, rest)
  {
    var t: Byte := 16 * c.td + c.ta;
    assert [c.id, t] + rest == [c.id] + ([t] + rest);
    ByteOne(c.id, [t] + rest);
    ByteOne(t, rest);
  }

  lemma {:induction false} ScanCompsBack(comps: seq<Component>, scan: seq<ScanComp>, rest: seq<Byte>)
    requires forall i | 0 <= i < |scan| :: scan[i].td < 16 && scan[i].ta < 16 && Known(comps, scan[i].id)
    ensures ParseScanComps(comps, |scan|, ScanCompBytes(scan) + rest) == Got(Noted(comps, scan), rest)
    decreases |scan|
  {
    hide Known, FindComp, Note, ParseScanComp;
    if scan == [] {
      assert ScanCompBytes(scan) + rest == rest;
    } else {
      var c := scan[0];
      var later := ScanCompBytes(scan[1..]) + rest;
      assert ScanCompBytes(scan) + rest == [c.id, 16 * c.td + c.ta] + later;
      ScanCompBack(c, later);
      KnownFound(comps, c.id);
      var ci := FindComp(comps, c.id, 0);
      forall i | 0 <= i < |scan[1..]|
        ensures scan[1..][i].td < 16 && scan[1..][i].ta < 16 && Known(Note(comps, ci, c), scan[1..][i].id)
      {
        assert scan[1..][i] == scan[i + 1];
        StillKnown(comps, ci, c, scan[i + 1].id);
      }
      ScanCompsBack(Note(comps, ci, c), scan[1..], rest);
    }
  }

  lemma SosTailBack(t: SosTail, rest: seq<Byte>)
    requires t.ah < 16 && t.al < 16
    ensures ParseSosTail([t.ss, t.se, 16 * t.ah + t.al] + rest) == Got(t, rest)
  {
    var last: Byte := 16 * t.ah + t.al;
    assert [t.ss, t.se, last] + rest == [t.ss] + ([t.se] + ([last] + rest));
    ByteOne(t.ss, [t.se] + ([last] + rest));
    ByteOne(t.se, [last] + rest);
    ByteOne(last, rest);
  }

  lemma SosBack(info: Info, g: Segment, rest: seq<Byte>)
    requires info.Ok() && g.Sos? && Fits(info, g)
    ensures ParseSos(info, Body(g) + rest) == Got(Apply(info, g), rest)
  {
    hide ParseScanComps, ScanCompBytes, Noted, Known, ParseSosTail;
    var n: Byte := |g.scan|;
    var t := SosTail(g.ss, g.se, g.ah, g.al);
    var s3 := [t.ss, t.se, 16 * t.ah + t.al] + rest;
    var s2 := ScanCompBytes(g.scan) + s3;
    assert Body(g) + rest == Two(6 + 2 * |g.scan|) + ([n] + s2);
    ByteTwo(6 + 2 * |g.scan|, [n] + s2);
    ByteOne(n, s2);
    ScanCompsBack(info.comps, g.scan, s3);
    SosTailBack(t, rest);
  }

  /** Reading what has been written. */
  lemma BodyBack(info: Info, g: Segment, rest: seq<Byte>)
    requires info.Ok() && Fits(info, g)
    ensures ParseBody(info, Code(g), Body(g) + rest) == Got(Apply(info, g), rest)
  {
    hide ParseDqt, ParseDht, ParseDri, ParseSof, ParseSos, Apply, Body;
    match g {
      case Dqt(_, _, _) => DqtBack(info, g, rest);
      case Dht(_, _, _, _) => DhtBack(info, g, rest);
      case Dri(_) => DriBack(info, g, rest);
      case Sof(_, _, _, _, _) => SofBack(info, g, rest);
      case Sos(_, _, _, _, _) => SosBack(info, g, rest);
    }
  }

  // ---------------------------------------------------------------- quantization tables

  function ZigzagList(q: seq<nat>): (zz: seq<nat>)
    requires |q| == 64
    ensures |zz| == 64
  {
    seq(64, k requires 0 <= k < 64 => q[Natural(k)])
  }

  lemma {:induction false} UnzigzagAt(zz: seq<nat>, n: nat, q: seq<nat>, k: nat)
    requires k < n <= |zz| <= 64 && |q| == 64
    ensures Unzigzag(zz, n, q)[Natural(k)] == zz[k]
    decreases n
  {
    hide Natural;
    if k < n - 1 {
      UnzigzagAt(zz, n - 1, q, k);
      if Natural(k) == Natural(n - 1) {
        NaturalInjective(k, n - 1);
      }
    }
  }

  /** The permutation is undone. */
  lemma QuantRestored(q: seq<nat>)
    requires |q| == 64
    ensures Unzigzag(ZigzagList(q), 64, NoQuant()) == q
  {
    hide Natural, Unzigzag;
    var r := Unzigzag(ZigzagList(q), 64, NoQuant());
    forall p: nat | p < 64
      ensures r[p] == q[p]
    {
      var k := ZIGZAG_ORDER[p / 8][p % 8];
      NaturalOnto(p);
      UnzigzagAt(ZigzagList(q), 64, NoQuant(), k);
    }
  }

  lemma NaturalOnto(p: nat)
    requires p < 64
    ensures ZIGZAG_ORDER[p / 8][p % 8] < 64 && Natural(ZIGZAG_ORDER[p / 8][p % 8]) == p
  {
    if p < 32 {
      UpperOnto(p);
    } else {
      LowerOnto(p);
    }
  }

  lemma UpperOnto(p: nat)
    requires p < 32
    ensures ZIGZAG_ORDER[p / 8][p % 8] < 64 && Natural(ZIGZAG_ORDER[p / 8][p % 8]) == p
  {
  }

  lemma LowerOnto(p: nat)
    requires 32 <= p < 64
    ensures ZIGZAG_ORDER[p / 8][p % 8] < 64 && Natural(ZIGZAG_ORDER[p / 8][p % 8]) == p
  {
  }
}
