/** A scan in the file: entropy-coded segments separated by restart markers (T.81 sections B.2.1 and
    F.1.2.3), and what the bit reader and the restart code find there. */
module Segments {
  import opened Bits
  import opened BitOutput
  import opened BitInput

  const RST0: Byte := 0xD0

  function RestartMarker(i: nat): seq<Byte> { [0xFF, RST0 + i % 8] }

  /** Segments that have each been followed by a restart marker, numbered modulo 8. */
  function Marked(segs: seq<BitSeq>): seq<Byte>
  {
    if segs == [] then []
    else Marked(segs[..|segs| - 1]) + SegmentBytes(segs[|segs| - 1]) + RestartMarker(|segs| - 1)
  }

  function ScanBytes(segs: seq<BitSeq>): seq<Byte>
    requires segs != []
  {
    Marked(segs[..|segs| - 1]) + SegmentBytes(segs[|segs| - 1])
  }

  lemma MarkedWith(segs: seq<BitSeq>, seg: BitSeq)
    ensures Marked(segs + [seg]) == Marked(segs) + SegmentBytes(seg) + RestartMarker(|segs|)
  {
    hide SegmentBytes, RestartMarker;
    assert (segs + [seg])[..|segs|] == segs;
  }

  /** The same from segment `i` on. */
  function ScanFrom(segs: seq<BitSeq>, i: nat): seq<Byte>
    requires i < |segs|
    decreases |segs| - i
  {
    SegmentBytes(segs[i]) + if i + 1 < |segs| then RestartMarker(i) + ScanFrom(segs, i + 1) else []
  }

  lemma {:induction false} ScanSplits(segs: seq<BitSeq>, i: nat)
    requires i < |segs|
    ensures Marked(segs[..i]) + ScanFrom(segs, i) == ScanBytes(segs)
    decreases |segs| - i
  {
    hide SegmentBytes, RestartMarker;
    if i + 1 < |segs| {
      ScanSplits(segs, i + 1);
      assert segs[..i + 1][..i] == segs[..i];
      var m, b, r := Marked(segs[..i]), SegmentBytes(segs[i]), RestartMarker(i);
      var rest := ScanFrom(segs, i + 1);
      assert (m + b + r) + rest == m + (b + (r + rest));
    } else {
      assert SegmentBytes(segs[i]) + [] == SegmentBytes(segs[i]);
    }
  }

  // ---------------------------------------------------------------- reading it

  /** Bytes that start with a marker. */
  predicate StartsMarker(s: seq<Byte>) { |s| >= 2 && s[0] == 0xFF && s[1] != 0 && s[1] != 0xFF }

  lemma FirstByte(data: seq<Byte>, pos: nat, b: Byte, s: seq<Byte>, tail: seq<Byte>)
    requires pos <= |data| && data[pos..] == (Stuffed(b) + s) + tail
    ensures NextByte(data, pos) == Data(b, pos + |Stuffed(b)|)
    ensures pos + |Stuffed(b)| <= |data| && data[pos + |Stuffed(b)|..] == s + tail
  {
    var d := data[pos..];
    assert d == Stuffed(b) + (s + tail);
    assert data[pos] == d[0];
    if b == 0xFF {
      assert data[pos + 1] == d[1];
    }
    assert data[pos + |Stuffed(b)|..] == d[|Stuffed(b)|..];
  }

  lemma AtMarker(data: seq<Byte>, pos: nat)
    requires pos <= |data| && StartsMarker(data[pos..])
    ensures NextByte(data, pos) == Marker(data[pos..][1], pos + 2)
  {
    assert data[pos] == data[pos..][0] && data[pos + 1] == data[pos..][1];
  }

  /** Stuffing is undone by reading, which stops at the marker after the bytes. */
  lemma {:induction false} ReadStuffed(data: seq<Byte>, pos: nat, bytes: seq<Byte>, tail: seq<Byte>)
    requires pos <= |data| && data[pos..] == Stuff(bytes) + tail && StartsMarker(tail)
    ensures RestBytes(data, pos) == bytes && RestEnd(data, pos) == Marker(tail[1], pos + |Stuff(bytes)| + 2)
    decreases |bytes|
  {
    hide NextByte, Stuffed;
    if bytes == [] {
      assert Stuff(bytes) + tail == tail;
      AtMarker(data, pos);
    } else {
      FirstByte(data, pos, bytes[0], Stuff(bytes[1..]), tail);
      ReadStuffed(data, pos + |Stuffed(bytes[0])|, bytes[1..], tail);
    }
  }

  /** The reader is at the start of segment `i`; after the last one there is another marker. */
  ghost predicate AtSegment(data: seq<Byte>, pos: nat, segs: seq<BitSeq>, i: nat, following: seq<Byte>)
  {
    i < |segs| && pos <= |data| && StartsMarker(following) && data[pos..] == ScanFrom(segs, i) + following
  }

  /** What can be read at the start of a segment: its bits and padding, then the next marker. */
  lemma ReadSegment(data: seq<Byte>, pos: nat, segs: seq<BitSeq>, i: nat, following: seq<Byte>) returns (next: nat)
    requires AtSegment(data, pos, segs, i, following)
    ensures Unpack(RestBytes(data, pos)) == segs[i] + Padding(|segs[i]|)
    ensures i + 1 < |segs| ==>
        RestEnd(data, pos) == Marker(RST0 + i % 8, next) && AtSegment(data, next, segs, i + 1, following)
    ensures i + 1 == |segs| ==> RestEnd(data, pos) == Marker(following[1], next)
  {
    hide RestBytes, RestEnd, Stuff, Pack, Unpack, NextByte;
    var bits := segs[i] + Padding(|segs[i]|);
    var bytes := Pack(bits);
    UnpackPack(bits);
    var tail := (if i + 1 < |segs| then RestartMarker(i) + ScanFrom(segs, i + 1) else []) + following;
    assert ScanFrom(segs, i) + following == Stuff(bytes) + tail;
    next := pos + |Stuff(bytes)| + 2;
    if i + 1 < |segs| {
      var rest := ScanFrom(segs, i + 1) + following;
      assert tail == RestartMarker(i) + rest;
      assert data[next..] == data[pos..][|Stuff(bytes)| + 2..] == rest;
    } else {
      assert tail == following;
    }
    ReadStuffed(data, pos, bytes, tail);
  }

  // ---------------------------------------------------------------- grouping by the interval

  /** The MCUs of a scan, cut every `interval` of them (never, if it is 0). */
  function Groups<T>(mcus: seq<T>, interval: nat): (g: seq<seq<T>>)
    ensures g != []
    decreases |mcus|
  {
    if interval == 0 || |mcus| <= interval then [mcus]
    else [mcus[..interval]] + Groups(mcus[interval..], interval)
  }

  /** One more MCU extends the last group, or starts a new one if that is full. */
  lemma {:induction false} GroupsSnoc<T>(mcus: seq<T>, interval: nat, m: T)
    ensures var g := Groups(mcus, interval); var last := g[|g| - 1];
      Groups(mcus + [m], interval) == if interval > 0 && |last| == interval then g + [[m]]
          else g[..|g| - 1] + [last + [m]]
    decreases |mcus|
  {
    var g := Groups(mcus, interval);
    if interval == 0 || |mcus| < interval {
      assert g == [mcus] && g[..0] == [];
    } else if |mcus| == interval {
      assert (mcus + [m])[..interval] == mcus && (mcus + [m])[interval..] == [m];
    } else {
      assert (mcus + [m])[..interval] == mcus[..interval];
      assert (mcus + [m])[interval..] == mcus[interval..] + [m];
      GroupsSnoc(mcus[interval..], interval, m);
      var g' := Groups(mcus[interval..], interval);
      assert g == [mcus[..interval]] + g';
      assert g[..|g| - 1] == [mcus[..interval]] + g'[..|g'| - 1];
    }
  }

  lemma GroupsSplitLast<T>(groups: seq<seq<T>>)
    requires groups != []
    ensures groups == groups[..|groups| - 1] + [groups[|groups| - 1]]
  {
  }

  lemma NextGroups<T>(mcus: seq<T>, interval: nat, m: T)
    ensures var g, g' := Groups(mcus, interval), Groups(mcus + [m], interval);
      var last := g[|g| - 1]; var full := interval > 0 && |last| == interval;
      && g'[..|g'| - 1] == (if full then g else g[..|g| - 1])
      && g'[|g'| - 1] == (if full then [] else last) + [m]
      && |g'| == (if full then |g| + 1 else |g|)
  {
    hide Groups;
    GroupsSnoc(mcus, interval, m);
    assert [] + [m] == [m];
  }

  /** The restart counter when `n` MCUs of the current segment are done. */
  predicate CountsDown(interval: nat, toGo: nat, n: nat) { interval > 0 ==> n <= interval && toGo == interval - n }

  function Joined<T>(groups: seq<seq<T>>): seq<T>
  {
    if groups == [] then [] else groups[0] + Joined(groups[1..])
  }

  lemma {:induction false} JoinedSnoc<T>(groups: seq<seq<T>>, g: seq<T>)
    ensures Joined(groups + [g]) == Joined(groups) + g
    decreases |groups|
  {
    if groups == [] {
      assert groups + [g] == [g] && [g][1..] == [];
      assert [] + g == g + [];
    } else {
      assert (groups + [g])[1..] == groups[1..] + [g];
      JoinedSnoc(groups[1..], g);
      assert groups[0] + (Joined(groups[1..]) + g) == (groups[0] + Joined(groups[1..])) + g;
    }
  }

  lemma JoinedPrefix<T>(parts: seq<seq<T>>, n: nat)
    requires n < |parts|
    ensures Joined(parts[..n + 1]) == Joined(parts[..n]) + parts[n]
  {
    assert parts[..n + 1] == parts[..n] + [parts[n]];
    JoinedSnoc(parts[..n], parts[n]);
  }

  lemma {:induction false} JoinedSplit<T>(parts: seq<seq<T>>, n: nat)
    requires n <= |parts|
    ensures Joined(parts) == Joined(parts[..n]) + Joined(parts[n..])
    decreases n
  {
    if n == 0 {
      assert parts[0..] == parts;
    } else {
      assert parts[..n][1..] == parts[1..][..n - 1];
      assert parts[n..] == parts[1..][n - 1..];
      JoinedSplit(parts[1..], n - 1);
    }
  }

  lemma {:induction false} JoinedGroups<T>(mcus: seq<T>, interval: nat)
    ensures Joined(Groups(mcus, interval)) == mcus
    decreases |mcus|
  {
    if interval == 0 || |mcus| <= interval {
      assert [mcus][1..] == [];
      assert mcus + [] == mcus;
    } else {
      JoinedGroups(mcus[interval..], interval);
      var g := Groups(mcus, interval);
      assert g[1..] == Groups(mcus[interval..], interval);
    }
  }
}
