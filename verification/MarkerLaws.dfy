/** The bytes of the headers (T.81, sections B.2.2 to B.2.4), place by place, with the numbers of the standard. */
module MarkerLaws {
  import opened BitOutput
  import opened BitInput
  import opened Huffman
  import opened Zigzag
  import opened MarkerSyntax
  import opened MarkerParsing
  import opened MarkerWriter

  /** Two bytes as a number, the high one first. */
  function NumberAt(b: seq<Byte>, i: nat): nat
    requires i + 1 < |b|
  {
    (b[i] as nat) * 256 + b[i + 1]
  }

  // ---------------------------------------------------------------- quantization tables

  lemma {:induction false} EntryAt(wide: bool, vals: seq<nat>, k: nat)
    requires (forall i | 0 <= i < |vals| :: vals[i] < if wide then 0x1_0000 else 256) && k < |vals|
    ensures |QuantBytes(wide, vals)| == if wide then 2 * |vals| else |vals|
    ensures if wide then NumberAt(QuantBytes(wide, vals), 2 * k) == vals[k]
            else QuantBytes(wide, vals)[k] == vals[k]
    decreases k
  {
    EntriesSize(wide, vals);
    if k > 0 {
      EntryAt(wide, vals[1..], k - 1);
      var a, b := EntryBytes(wide, vals[0]), QuantBytes(wide, vals[1..]);
      if wide {
        assert (a + b)[2 * k] == b[2 * (k - 1)] && (a + b)[2 * k + 1] == b[2 * (k - 1) + 1];
      } else {
        assert (a + b)[k] == b[k - 1];
      }
    }
  }

  lemma {:induction false} EntriesSize(wide: bool, vals: seq<nat>)
    requires forall i | 0 <= i < |vals| :: vals[i] < if wide then 0x1_0000 else 256
    ensures |QuantBytes(wide, vals)| == if wide then 2 * |vals| else |vals|
  {
    if vals != [] {
      EntriesSize(wide, vals[1..]);
    }
  }

  /** DQT with values of one byte ... */
  lemma NarrowDqtLaw(index: nat, q: seq<nat>, k: nat)
    requires |q| == 64 && index < 4 && k < 64 && forall i | 0 <= i < 64 :: q[i] < 256
    ensures SoundQuant(q)
    ensures var b := SegmentOf(QuantSegment(index, q));
      |b| == 69 && b[..5] == [0xFF, 0xDB, 0, 67, index] && b[5 + k] == q[Natural(k)]
  {
    hide Natural, QuantBytes;
    var zz := ZigzagList(q);
    ZigzagListBelow(q, 256);
    EntryAt(false, zz, k);
    var head: seq<Byte> := [0xFF, 0xDB, 0, 67, index];
    assert SegmentOf(QuantSegment(index, q)) == head + QuantBytes(false, zz);
  }

  /** ... and of two, if one value does not fit; both in zigzag order. */
  lemma WideDqtLaw(index: nat, q: seq<nat>, k: nat)
    requires SoundQuant(q) && index < 4 && k < 64 && exists i | 0 <= i < 64 :: q[i] >= 256
    ensures var b := SegmentOf(QuantSegment(index, q));
      |b| == 133 && b[..5] == [0xFF, 0xDB, 0, 131, 16 + index] && NumberAt(b, 5 + 2 * k) == q[Natural(k)]
  {
    hide Natural, QuantBytes;
    var zz := ZigzagList(q);
    ZigzagListBelow(q, 0x1_0000);
    EntryAt(true, zz, k);
    var head: seq<Byte> := [0xFF, 0xDB, 0, 131, 16 + index];
    var v := QuantBytes(true, zz);
    assert SegmentOf(QuantSegment(index, q)) == head + v;
    assert (head + v)[5 + 2 * k] == v[2 * k] && (head + v)[6 + 2 * k] == v[2 * k + 1];
  }

  // ---------------------------------------------------------------- the other segments

  /** DHT: the counts of the 16 lengths, then the symbols. */
  lemma DhtLaw(isAc: bool, index: nat, t: HuffTable)
    requires SoundHuff(t) && index < 4
    ensures |t.bits| == 17 && |t.huffval| == 256
    ensures var b, n := SegmentOf(HuffSegment(isAc, index, t)), 19 + t.Count(16);
      && |b| == n + 2 && b[..5] == [0xFF, 0xC4, n / 256, n % 256, if isAc then 16 + index else index]
      && b[5..21] == t.bits[1..] && b[21..] == t.huffval[..n - 19]
  {
    hide HuffTable.Count, SoundHuff, HuffSegment;
    HuffParts(isAc, index, t);
    var n := 19 + t.Count(16);
    var head: seq<Byte> := [0xFF, 0xC4, n / 256, n % 256, if isAc then 16 + index else index];
    var c, v: seq<Byte> := t.bits[1..], t.huffval[..n - 19];
    assert head == [0xFF, DHT] + Two(n) + [if isAc then index + 16 else index];
  }

  /** DRI: the interval in two bytes. */
  lemma DriLaw(interval: nat)
    requires interval < 0x1_0000
    ensures Legal(Dri(interval))
    ensures SegmentOf(Dri(interval)) == [0xFF, 0xDD, 0, 4, interval / 256, interval % 256]
  {
  }

  lemma {:induction false} FrameCompAt(comps: seq<FrameComp>, i: nat)
    requires (forall i | 0 <= i < |comps| :: comps[i].h < 16 && comps[i].v < 16) && i < |comps|
    ensures |FrameCompBytes(comps)| == 3 * |comps|
    ensures FrameCompBytes(comps)[3 * i..3 * i + 3] == [comps[i].id, 16 * comps[i].h + comps[i].v, comps[i].tq]
    decreases i
  {
    FrameCompsSize(comps);
    if i > 0 {
      FrameCompAt(comps[1..], i - 1);
      var b := FrameCompBytes(comps[1..]);
      assert FrameCompBytes(comps)[3 * i..3 * i + 3] == b[3 * (i - 1)..3 * (i - 1) + 3];
    }
  }

  lemma {:induction false} FrameCompsSize(comps: seq<FrameComp>)
    requires forall i | 0 <= i < |comps| :: comps[i].h < 16 && comps[i].v < 16
    ensures |FrameCompBytes(comps)| == 3 * |comps|
  {
    if comps != [] {
      FrameCompsSize(comps[1..]);
    }
  }

  /** Baseline: 8-bit samples, Huffman tables 0 and 1 only, quantizers of one byte. */
  predicate Baseline(t: Tables, f: Frame)
    requires t.Ok() && f.Ok() && QuantThere(t, f, |f.comps|)
  {
    && f.precision == 8
    && forall i | 0 <= i < |f.comps| :: CompBaseline(t, f.comps[i])
  }

  predicate CompBaseline(t: Tables, c: Component)
    requires t.Ok() && c.frame.tq < 4 && t.quant[c.frame.tq].Some?
  {
    var q := t.quant[c.frame.tq].value;
    c.dcTbl <= 1 && c.acTbl <= 1 && forall k | 0 <= k < |q| :: q[k] <= 255
  }

  lemma SofCodeLaw(t: Tables, f: Frame)
    requires t.Ok() && f.Ok() && QuantThere(t, f, |f.comps|)
    ensures SofCode(t, f) == if f.progressive then 0xC2 else if Baseline(t, f) then 0xC0 else 0xC1
  {
    hide SoundHuff, SoundQuant;
    if !f.progressive && f.precision == 8 {
      if Baseline(t, f) {
        forall i | 0 <= i < |f.comps|
          ensures f.comps[i].dcTbl <= 1 && f.comps[i].acTbl <= 1 && !Wide(t.quant[f.comps[i].frame.tq].value)
        {
          assert CompBaseline(t, f.comps[i]);
        }
      } else {
        var i :| 0 <= i < |f.comps| && !CompBaseline(t, f.comps[i]);
        assert f.comps[i].dcTbl > 1 || f.comps[i].acTbl > 1 || Wide(t.quant[f.comps[i].frame.tq].value);
      }
    }
  }

  /** SOF: precision, height, width, and for each component its identifier, sampling factors and quantization table. */
  lemma SofLaw(t: Tables, f: Frame, i: nat)
    requires t.Ok() && f.Ok() && QuantThere(t, f, |f.comps|) && f.height < 0x1_0000 && f.width < 0x1_0000
    requires i < |f.comps|
    ensures var b, n, c := SegmentOf(SofSegment(t, f)), |f.comps|, f.comps[i].frame;
      && |b| == 10 + 3 * n && b[0] == 0xFF
      && b[1] == (if f.progressive then 0xC2 else if Baseline(t, f) then 0xC0 else 0xC1)
      && b[2..5] == [(8 + 3 * n) / 256, (8 + 3 * n) % 256, f.precision]
      && b[5..10] == [f.height / 256, f.height % 256, f.width / 256, f.width % 256, n]
      && b[10 + 3 * i..13 + 3 * i] == [c.id, 16 * c.h + c.v, c.tq]
  {
    hide SoundHuff, SoundQuant, SofCode, FrameCompBytes, Baseline, QuantThere, Legal, SofSegment, Tables.Ok;
    SofCodeLaw(t, f);
    var comps, n := FrameOnly(f.comps), |f.comps|;
    FrameCompAt(comps, i);
    var head: seq<Byte> := [0xFF, SofCode(t, f), (8 + 3 * n) / 256, (8 + 3 * n) % 256, f.precision,
      f.height / 256, f.height % 256, f.width / 256, f.width % 256, n];
    SofBytes(t, f, head);
    InSecond(head, FrameCompBytes(comps), 3 * i, 3);
    HeadParts(head);
  }

  lemma HeadParts(h: seq<Byte>)
    requires |h| == 10
    ensures h[2..5] == [h[2], h[3], h[4]] && h[5..10] == [h[5], h[6], h[7], h[8], h[9]]
  {
  }

  lemma InSecond(a: seq<Byte>, b: seq<Byte>, i: nat, n: nat)
    requires i + n <= |b| && |a| == 10
    ensures (a + b)[10 + i..10 + i + n] == b[i..i + n]
    ensures (a + b)[..2] == a[..2] && (a + b)[2..5] == a[2..5] && (a + b)[5..10] == a[5..10]
  {
  }

  lemma SofBytes(t: Tables, f: Frame, head: seq<Byte>)
    requires t.Ok() && f.Ok() && QuantThere(t, f, |f.comps|) && f.height < 0x1_0000 && f.width < 0x1_0000
    requires head == [0xFF, SofCode(t, f), (8 + 3 * |f.comps|) / 256, (8 + 3 * |f.comps|) % 256, f.precision,
                      f.height / 256, f.height % 256, f.width / 256, f.width % 256, |f.comps|]
    ensures (forall i | 0 <= i < |f.comps| :: FrameOnly(f.comps)[i].h < 16 && FrameOnly(f.comps)[i].v < 16)
    ensures SegmentOf(SofSegment(t, f)) == head + FrameCompBytes(FrameOnly(f.comps))
  {
    hide SoundHuff, SoundQuant, SofCode, FrameCompBytes, QuantThere;
  }

  lemma {:induction false} ScanCompAt(scan: seq<ScanComp>, i: nat)
    requires (forall i | 0 <= i < |scan| :: scan[i].td < 16 && scan[i].ta < 16) && i < |scan|
    ensures |ScanCompBytes(scan)| == 2 * |scan|
    ensures ScanCompBytes(scan)[2 * i..2 * i + 2] == [scan[i].id, 16 * scan[i].td + scan[i].ta]
    decreases i
  {
    ScanCompsSize(scan);
    if i > 0 {
      ScanCompAt(scan[1..], i - 1);
      var b := ScanCompBytes(scan[1..]);
      assert ScanCompBytes(scan)[2 * i..2 * i + 2] == b[2 * (i - 1)..2 * (i - 1) + 2];
    }
  }

  lemma {:induction false} ScanCompsSize(scan: seq<ScanComp>)
    requires forall i | 0 <= i < |scan| :: scan[i].td < 16 && scan[i].ta < 16
    ensures |ScanCompBytes(scan)| == 2 * |scan|
  {
    if scan != [] {
      ScanCompsSize(scan[1..]);
    }
  }

  /** SOS: for each component its identifier and tables, 0 for a table that the scan does not use: a progressive AC scan
      has no DC table, a progressive DC scan no AC table, and a DC refinement none at all. */
  lemma SosLaw(f: Frame, sc: ScanParams, i: nat)
    requires f.Ok() && sc.Ok(f) && i < |sc.current|
    ensures var b, n, c := SegmentOf(SosSegment(f, sc)), |sc.current|, f.comps[sc.current[i]];
      var td := if !f.progressive || (sc.ss == 0 && sc.ah == 0) then c.dcTbl else 0;
      var ta := if !f.progressive || sc.ss != 0 then c.acTbl else 0;
      && |b| == 8 + 2 * n && b[..5] == [0xFF, 0xDA, 0, 6 + 2 * n, n]
      && b[5 + 2 * i..7 + 2 * i] == [c.frame.id, 16 * td + ta] && b[5 + 2 * n..] == [sc.ss, sc.se, 16 * sc.ah + sc.al]
  {
    hide ScanCompBytes, Legal;
    var n, scan := |sc.current|, ScanCompsOf(f, sc);
    ScansLegalIs(f, sc);
    ScanCompAt(scan, i);
    var head, tail: seq<Byte> := [0xFF, 0xDA, 0, 6 + 2 * n, n], [sc.ss, sc.se, 16 * sc.ah + sc.al];
    SosBytes(f, sc, head, tail);
    Middle(head, ScanCompBytes(scan), tail, 2 * i, 2);
  }

  lemma ScansLegalIs(f: Frame, sc: ScanParams)
    requires f.Ok() && sc.Ok(f)
    ensures forall i | 0 <= i < |sc.current| :: ScanCompsOf(f, sc)[i].td < 16 && ScanCompsOf(f, sc)[i].ta < 16
  {
  }

  lemma SosBytes(f: Frame, sc: ScanParams, head: seq<Byte>, tail: seq<Byte>)
    requires f.Ok() && sc.Ok(f)
    requires var n := |sc.current|; head == [0xFF, 0xDA, 0, 6 + 2 * n, n] && tail == [sc.ss, sc.se, 16 * sc.ah + sc.al]
    ensures forall i | 0 <= i < |sc.current| :: ScanCompsOf(f, sc)[i].td < 16 && ScanCompsOf(f, sc)[i].ta < 16
    ensures SegmentOf(SosSegment(f, sc)) == head + ScanCompBytes(ScanCompsOf(f, sc)) + tail
  {
    hide ScanCompBytes, ScanCompsOf;
    ScansLegalIs(f, sc);
  }

  /** A part of the middle of three strings. */
  lemma Middle(a: seq<Byte>, b: seq<Byte>, c: seq<Byte>, i: nat, n: nat)
    requires i + n <= |b|
    ensures (a + b + c)[|a| + i..|a| + i + n] == b[i..i + n] && (a + b + c)[|a| + |b|..] == c && (a + b + c)[..|a|] == a
  {
  }

  // ---------------------------------------------------------------- reading

  /** Application data and comments are passed over, whatever they contain. */
  lemma SkipLaw(info: Info, code: Byte, payload: seq<Byte>, rest: seq<Byte>)
    requires info.Ok() && (0xE0 <= code <= 0xEF || code == 0xFE) && |payload| + 2 < 0x1_0000
    ensures var n := |payload| + 2;
      ParseBody(info, code, [n / 256, n % 256] + payload + rest) == Got(info, rest)
  {
    var n := |payload| + 2;
    var head: seq<Byte> := [n / 256, n % 256];
    assert head + payload + rest == Two(n) + (payload + rest);
    ByteTwo(n, payload + rest);
    BytesMany(payload, rest);
  }

  /** Restart markers and TEM have no parameters. */
  lemma BareLaw(info: Info, code: Byte, s: seq<Byte>)
    requires info.Ok() && (0xD0 <= code <= 0xD7 || code == 1)
    ensures ParseBody(info, code, s) == Got(info, s)
  {
  }

  /** Any number of bytes 0xFF may stand before the code of a marker; with a zero they are one byte of data. */
  lemma {:induction false} FillLaw(data: seq<Byte>, pos: nat, n: nat)
    requires n > 0 && pos + n < |data| && data[pos + n] != 0xFF && forall i | pos <= i < pos + n :: data[i] == 0xFF
    ensures NextByte(data, pos)
        == if data[pos + n] == 0 then Data(0xFF, pos + n + 1) else Marker(data[pos + n], pos + n + 1)
  {
    SkipTo(data, pos + 1, pos + n);
  }

  lemma {:induction false} SkipTo(data: seq<Byte>, pos: nat, q: nat)
    requires pos <= q < |data| && data[q] != 0xFF && forall i | pos <= i < q :: data[i] == 0xFF
    ensures SkipFF(data, pos) == q
    decreases q - pos
  {
    if pos < q {
      SkipTo(data, pos + 1, q);
    }
  }
}
