/** The bytes of a scan (T.81, sections B.1.1.5, F.1.2.3 and B.2.1), byte by byte. */
module SegmentLaws {
  import opened Bits
  import opened BitOutput
  import opened Segments

  // ---------------------------------------------------------------- bits to bytes

  lemma OneBit(b: bool)
    ensures Value([b]) == BitVal(b)
  {
    hide Pow2;
    assert [b][..0] == [] && Value([]) == 0;
  }

  /** The first bit of a byte is its most significant one. */
  lemma ByteLaw(b: BitSeq)
    requires |b| == 8
    ensures Value(b) == 128 * BitVal(b[0]) + 64 * BitVal(b[1]) + 32 * BitVal(b[2]) + 16 * BitVal(b[3])
        + 8 * BitVal(b[4]) + 4 * BitVal(b[5]) + 2 * BitVal(b[6]) + BitVal(b[7])
  {
    hide Value, Pow2, BitVal;
    LowBits(b[4..]);
    ValueConcat(b[..4], b[4..]);
    assert b[..4] + b[4..] == b;
    LowBits(b[..4]);
    Pow2Values();
  }

  lemma TwoBits(b: BitSeq)
    requires |b| == 2
    ensures Value(b) == 2 * BitVal(b[0]) + BitVal(b[1])
  {
    hide Value, BitVal;
    OneBit(b[0]);
    ValueSnoc([b[0]], b[1]);
    assert b == [b[0]] + [b[1]];
  }

  lemma LowBits(b: BitSeq)
    requires |b| == 4
    ensures Value(b) == 8 * BitVal(b[0]) + 4 * BitVal(b[1]) + 2 * BitVal(b[2]) + BitVal(b[3])
  {
    hide Value, Pow2, BitVal;
    TwoBits(b[..2]);
    TwoBits(b[2..]);
    ValueConcat(b[..2], b[2..]);
    assert b[..2] + b[2..] == b;
    Four();
  }

  lemma Four()
    ensures Pow2(2) == 4
  {
  }

  lemma {:induction false} PackAt(bits: BitSeq, i: nat)
    requires |bits| % 8 == 0 && 8 * i < |bits|
    ensures Pack(bits)[i] == Value(bits[8 * i..8 * i + 8])
    decreases i
  {
    hide Value;
    if i > 0 {
      PackAt(bits[8..], i - 1);
      assert bits[8..][8 * (i - 1)..8 * (i - 1) + 8] == bits[8 * i..8 * i + 8];
    }
  }

  /** Bit `k` of a segment: those past the end are ones. */
  function BitOf(bits: BitSeq, k: nat): nat { if k < |bits| then BitVal(bits[k]) else 1 }

  /** Before zeroes are stuffed in, a segment has just enough bytes for its bits, and the last byte is filled with
      ones. */
  lemma PaddedLaw(bits: BitSeq, i: nat)
    requires i < (|bits| + 7) / 8
    ensures var bytes := Pack(bits + Padding(|bits|));
      && |bytes| == (|bits| + 7) / 8
      && bytes[i] == 128 * BitOf(bits, 8 * i) + 64 * BitOf(bits, 8 * i + 1) + 32 * BitOf(bits, 8 * i + 2)
          + 16 * BitOf(bits, 8 * i + 3) + 8 * BitOf(bits, 8 * i + 4) + 4 * BitOf(bits, 8 * i + 5)
          + 2 * BitOf(bits, 8 * i + 6) + BitOf(bits, 8 * i + 7)
  {
    hide Value, Pack;
    var full := bits + Padding(|bits|);
    PackAt(full, i);
    var b := full[8 * i..8 * i + 8];
    ByteLaw(b);
    forall j | 0 <= j < 8
      ensures BitVal(b[j]) == BitOf(bits, 8 * i + j)
    {
      assert b[j] == full[8 * i + j];
    }
  }

  // ---------------------------------------------------------------- stuffing

  /** Stuffing goes byte by byte, and only a byte of eight ones gets a zero byte after it. */
  lemma StuffLaw(a: seq<Byte>, x: Byte)
    ensures Stuff([]) == [] && Stuff(a + [x]) == Stuff(a) + if x == 255 then [255, 0] else [x]
  {
    StuffSnoc(a, x);
  }

  /** What is in the file is the stuffed form of those bytes. */
  lemma SegmentLaw(bits: BitSeq)
    ensures SegmentBytes(bits) == Stuff(Pack(bits + Padding(|bits|)))
    ensures forall k | 0 <= k < |SegmentBytes(bits)| && SegmentBytes(bits)[k] == 255 ::
      k + 1 < |SegmentBytes(bits)| && SegmentBytes(bits)[k + 1] == 0
  {
    NoMarkers(Pack(bits + Padding(|bits|)));
  }

  /** No marker can appear inside. */
  lemma {:induction false} NoMarkers(bytes: seq<Byte>)
    ensures forall k | 0 <= k < |Stuff(bytes)| && Stuff(bytes)[k] == 255 ::
      k + 1 < |Stuff(bytes)| && Stuff(bytes)[k + 1] == 0
    decreases |bytes|
  {
    if bytes != [] {
      NoMarkers(bytes[1..]);
      var a, b := Stuffed(bytes[0]), Stuff(bytes[1..]);
      forall k | 0 <= k < |a + b| && (a + b)[k] == 255
        ensures k + 1 < |a + b| && (a + b)[k + 1] == 0
      {
        if k >= |a| {
          assert b[k - |a|] == 255;
          assert b[k - |a| + 1] == 0;
        }
      }
    }
  }

  // ---------------------------------------------------------------- restart intervals

  /** Each segment after the first is preceded by a restart marker; they are numbered from 0 to 7 and start again. */
  lemma ScanLaw(segs: seq<BitSeq>, seg: BitSeq)
    ensures ScanBytes([seg]) == SegmentBytes(seg)
    ensures segs != [] ==>
      ScanBytes(segs + [seg]) == ScanBytes(segs) + [0xFF, 0xD0 + (|segs| - 1) % 8] + SegmentBytes(seg)
  {
    hide SegmentBytes;
    assert [seg][..0] == [] && [] + SegmentBytes(seg) == SegmentBytes(seg);
    if segs != [] {
      assert (segs + [seg])[..|segs|] == segs;
    }
  }

  lemma MulStep(i: int, n: nat)
    ensures i * n == (i - 1) * n + n
  {
  }

  /** The `i`-th segment covers the MCUs from `start` = `i * interval` on: `interval` of them, or as many as there
      are. */
  lemma {:induction false} GroupsLaw<T>(mcus: seq<T>, interval: nat, i: nat, start: nat)
    requires interval > 0 && i < |Groups(mcus, interval)| && start == i * interval
    ensures start <= |mcus| && (i > 0 ==> start < |mcus|)
    ensures Groups(mcus, interval)[i]
        == if start + interval < |mcus| then mcus[start..start + interval] else mcus[start..]
    ensures i + 1 < |Groups(mcus, interval)| <==> start + interval < |mcus|
    decreases |mcus|
  {
    if |mcus| > interval {
      var g := Groups(mcus[interval..], interval);
      assert Groups(mcus, interval) == [mcus[..interval]] + g;
      if i > 0 {
        MulStep(i, interval);
        GroupsNext(mcus, interval, i, start);
      }
    } else {
      assert start == 0 by { MulStep(1, interval); }
    }
  }

  lemma {:induction false} GroupsNext<T>(mcus: seq<T>, interval: nat, i: nat, start: nat)
    requires 0 < interval < |mcus| && 0 < i < |Groups(mcus, interval)|
    requires start >= interval && start - interval == (i - 1) * interval
    ensures start < |mcus|
    ensures Groups(mcus, interval)[i]
        == if start + interval < |mcus| then mcus[start..start + interval] else mcus[start..]
    ensures i + 1 < |Groups(mcus, interval)| <==> start + interval < |mcus|
    decreases |mcus|, 0
  {
    var rest := mcus[interval..];
    GroupsLaw(rest, interval, i - 1, start - interval);
  }
}
