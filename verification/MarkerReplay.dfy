/** Marker parameters that arrive in pieces.  A routine that runs out of data starts over later, on a
    decoder that it has already changed; what it left behind makes no difference then. */
module MarkerReplay {
  import opened BitOutput
  import opened Huffman
  import opened MarkerSyntax
  import opened MarkerParsing

  // ---------------------------------------------------------------- more data

  /** The same result, with more data behind it. */
  function Longer<T>(p: Parse<T>, more: seq<Byte>): Parse<T>
  {
    if p.Got? then Got(p.value, p.rest + more) else p
  }

  lemma Byte1More(s: seq<Byte>, more: seq<Byte>)
    ensures !Byte1(s).Wait? ==> Byte1(s + more) == Longer(Byte1(s), more)
  {
    if s != [] {
      assert (s + more)[1..] == s[1..] + more;
    }
  }

  lemma Byte2More(s: seq<Byte>, more: seq<Byte>)
    ensures !Byte2(s).Wait? ==> Byte2(s + more) == Longer(Byte2(s), more)
  {
    if |s| >= 2 {
      assert (s + more)[2..] == s[2..] + more;
    }
  }

  lemma BytesMore(n: nat, s: seq<Byte>, more: seq<Byte>)
    ensures !Bytes(n, s).Wait? ==> Bytes(n, s + more) == Longer(Bytes(n, s), more)
  {
    if |s| >= n {
      assert (s + more)[..n] == s[..n] && (s + more)[n..] == s[n..] + more;
    }
  }

  lemma EntryMore(wide: bool, s: seq<Byte>, more: seq<Byte>)
    ensures !ParseEntry(wide, s).Wait? ==> ParseEntry(wide, s + more) == Longer(ParseEntry(wide, s), more)
  {
    Byte1More(s, more);
    Byte2More(s, more);
  }

  lemma {:induction false} QuantMore(wide: bool, n: nat, s: seq<Byte>, more: seq<Byte>)
    ensures !ParseQuant(wide, n, s).Wait? ==> ParseQuant(wide, n, s + more) == Longer(ParseQuant(wide, n, s), more)
    decreases n
  {
    hide ParseEntry;
    if n > 0 {
      EntryMore(wide, s, more);
      if ParseEntry(wide, s).Got? {
        QuantMore(wide, n - 1, ParseEntry(wide, s).rest, more);
      }
    }
  }

  lemma {:induction false} DqtMore(info: Info, length: int, s: seq<Byte>, more: seq<Byte>)
    requires info.Ok()
    ensures !DqtLoop(info, length, s).Wait? ==>
        DqtLoop(info, length, s + more) == Longer(DqtLoop(info, length, s), more)
    decreases if length > 0 then length else 0
  {
    hide ParseQuant, Unzigzag;
    if length > 0 {
      Byte1More(s, more);
      if s != [] {
        var wide, index := s[0] / 16 != 0, s[0] % 16;
        QuantMore(wide, 64, s[1..], more);
        var q := ParseQuant(wide, 64, s[1..]);
        if index < 4 && q.Got? {
          DqtMore(info.(quant := info.quant[index := Some(Unzigzag(q.value, 64, NoQuant()))]),
              length - (if wide then 129 else 65), q.rest, more);
        }
      }
    }
  }

  lemma TableMore(length: int, s: seq<Byte>, more: seq<Byte>)
    ensures !ParseTable(length, s).Wait? ==> ParseTable(length, s + more) == Longer(ParseTable(length, s), more)
  {
    hide Total;
    Byte1More(s, more);
    if |s| >= 17 {
      BytesMore(16, s[1..], more);
      BytesMore(Total(s[1..][..16]), s[1..][16..], more);
    }
  }

  lemma {:induction false} DhtMore(info: Info, length: int, s: seq<Byte>, work: seq<Byte>, more: seq<Byte>)
    requires info.Ok() && |work| == 256
    ensures !DhtLoop(info, length, s, work).Wait? ==>
        DhtLoop(info, length, s + more, work) == Longer(DhtLoop(info, length, s, work), more)
    decreases if length > 0 then length else 0
  {
    hide ParseTable, TableOf, Store;
    if length > 16 {
      TableMore(length, s, more);
      var r := ParseTable(length, s);
      if r.Got? {
        var d := r.value;
        DhtMore(Store(info, d.isAc, d.index, TableOf(d.counts, d.vals, work)), length - 17 - |d.vals|, r.rest,
            d.vals + work[|d.vals|..], more);
      }
    }
  }

  lemma FrameCompMore(s: seq<Byte>, more: seq<Byte>)
    ensures !ParseFrameComp(s).Wait? ==> ParseFrameComp(s + more) == Longer(ParseFrameComp(s), more)
  {
    if |s| >= 3 {
      Byte1More(s, more);
      Byte1More(s[1..], more);
      Byte1More(s[1..][1..], more);
    }
  }

  lemma {:induction false} FrameCompsMore(n: nat, s: seq<Byte>, more: seq<Byte>)
    ensures !ParseFrameComps(n, s).Wait? ==> ParseFrameComps(n, s + more) == Longer(ParseFrameComps(n, s), more)
    decreases n
  {
    hide ParseFrameComp;
    if n > 0 {
      FrameCompMore(s, more);
      if ParseFrameComp(s).Got? {
        FrameCompsMore(n - 1, ParseFrameComp(s).rest, more);
      }
    }
  }

  lemma SofHeadMore(s: seq<Byte>, more: seq<Byte>)
    ensures !ParseSofHead(s).Wait? ==> ParseSofHead(s + more) == Longer(ParseSofHead(s), more)
  {
    if |s| >= 8 {
      Byte2More(s, more);
      Byte1More(s[2..], more);
      Byte2More(s[2..][1..], more);
      Byte2More(s[2..][1..][2..], more);
      Byte1More(s[2..][1..][2..][2..], more);
    }
  }

  lemma SofMore(info: Info, progressive: bool, arith: bool, s: seq<Byte>, more: seq<Byte>)
    ensures !ParseSof(info, progressive, arith, s).Wait? ==>
        ParseSof(info, progressive, arith, s + more) == Longer(ParseSof(info, progressive, arith, s), more)
  {
    hide ParseFrameComps, Fresh, ParseSofHead;
    SofHeadMore(s, more);
    if ParseSofHead(s).Got? {
      FrameCompsMore(ParseSofHead(s).value.n, ParseSofHead(s).rest, more);
    }
  }

  lemma ScanCompMore(s: seq<Byte>, more: seq<Byte>)
    ensures !ParseScanComp(s).Wait? ==> ParseScanComp(s + more) == Longer(ParseScanComp(s), more)
  {
    if |s| >= 2 {
      Byte1More(s, more);
      Byte1More(s[1..], more);
    }
  }

  lemma {:induction false} ScanCompsMore(comps: seq<Component>, n: nat, s: seq<Byte>, more: seq<Byte>)
    ensures !ParseScanComps(comps, n, s).Wait? ==>
        ParseScanComps(comps, n, s + more) == Longer(ParseScanComps(comps, n, s), more)
    decreases n
  {
    hide FindComp, ParseScanComp, Note;
    if n > 0 {
      ScanCompMore(s, more);
      var r := ParseScanComp(s);
      if r.Got? {
        var ci := FindComp(comps, r.value.id, 0);
        if ci < |comps| {
          ScanCompsMore(Note(comps, ci, r.value), n - 1, r.rest, more);
        }
      }
    }
  }

  lemma SosTailMore(s: seq<Byte>, more: seq<Byte>)
    ensures !ParseSosTail(s).Wait? ==> ParseSosTail(s + more) == Longer(ParseSosTail(s), more)
  {
    if |s| >= 3 {
      Byte1More(s, more);
      Byte1More(s[1..], more);
      Byte1More(s[1..][1..], more);
    }
  }

  lemma SosMore(info: Info, s: seq<Byte>, more: seq<Byte>)
    ensures !ParseSos(info, s).Wait? ==> ParseSos(info, s + more) == Longer(ParseSos(info, s), more)
  {
    hide ParseScanComps, ParseSosTail;
    if info.sawSof && |s| >= 3 {
      Byte2More(s, more);
      Byte1More(s[2..], more);
      var n, s2 := s[2..][0], s[2..][1..];
      ScanCompsMore(info.comps, n, s2, more);
      var r := ParseScanComps(info.comps, n, s2);
      if r.Got? {
        SosTailMore(r.rest, more);
      }
    }
  }

  lemma DriMore(info: Info, s: seq<Byte>, more: seq<Byte>)
    ensures !ParseDri(info, s).Wait? ==> ParseDri(info, s + more) == Longer(ParseDri(info, s), more)
  {
    Byte2More(s, more);
    if |s| >= 2 {
      Byte2More(s[2..], more);
    }
  }

  lemma SkipMore(info: Info, s: seq<Byte>, more: seq<Byte>)
    ensures !Skip(info, s).Wait? ==> Skip(info, s + more) == Longer(Skip(info, s), more)
  {
    Byte2More(s, more);
    if |s| >= 2 {
      var length := Byte2(s).value;
      BytesMore(if length > 2 then length - 2 else 0, s[2..], more);
    }
  }

  /** A result does not depend on what comes after the parameters. */
  lemma BodyMore(info: Info, code: Byte, s: seq<Byte>, more: seq<Byte>)
    requires info.Ok()
    ensures !ParseBody(info, code, s).Wait? ==>
        ParseBody(info, code, s + more) == Longer(ParseBody(info, code, s), more)
  {
    hide DqtLoop, DhtLoop, ParseSof, ParseSos, ParseDri, Skip;
    DriMore(info, s, more);
    SkipMore(info, s, more);
    SosMore(info, s, more);
    Byte2More(s, more);
    if Byte2(s).Got? {
      DqtMore(info, Byte2(s).value - 2, Byte2(s).rest, more);
      DhtMore(info, Byte2(s).value - 2, Byte2(s).rest, Blank(), more);
    }
    SofMore(info, false, false, s, more);
    SofMore(info, true, false, s, more);
    SofMore(info, false, true, s, more);
    SofMore(info, true, true, s, more);
  }

  // ---------------------------------------------------------------- starting over

  /** From state `a` as from state `b`: once there is more than `s`, the parameters lead to the same. */
  ghost predicate SameFuture(a: Info, b: Info, code: Byte, s: seq<Byte>)
  {
    a.Ok() && b.Ok() && forall more: seq<Byte> :: ParseBody(a, code, s + more) == ParseBody(b, code, s + more)
  }

  /** The part of a DQT segment that has arrived gets as far as table `i`. */
  predicate DqtTouches(length: int, s: seq<Byte>, i: nat)
    decreases if length > 0 then length else 0
  {
    && length > 0 && s != [] && s[0] % 16 < 4
    && (s[0] % 16 == i ||
        var wide := s[0] / 16 != 0;
        var r := ParseQuant(wide, 64, s[1..]);
        r.Got? && DqtTouches(length - (if wide then 129 else 65), r.rest, i))
  }

  lemma {:induction false} DqtForgets(info: Info, q: seq<Option<seq<nat>>>, length: int, s: seq<Byte>, more: seq<Byte>)
    requires info.Ok() && |q| == 4
    requires forall i | 0 <= i < 4 && q[i] != info.quant[i] :: DqtTouches(length, s, i)
    ensures DqtLoop(info.(quant := q), length, s + more) == DqtLoop(info, length, s + more)
    decreases if length > 0 then length else 0
  {
    hide ParseQuant, Unzigzag;
    if length > 0 && s != [] && s[0] % 16 < 4 {
      Byte1More(s, more);
      var wide, index := s[0] / 16 != 0, s[0] % 16;
      QuantMore(wide, 64, s[1..], more);
      var all := ParseQuant(wide, 64, s[1..] + more);
      if all.Got? {
        var t := Some(Unzigzag(all.value, 64, NoQuant()));
        var q' := q[index := t];
        var info' := info.(quant := info.quant[index := t]);
        var r := ParseQuant(wide, 64, s[1..]);
        if r.Got? {
          DqtForgets(info', q', length - (if wide then 129 else 65), r.rest, more);
        } else {
          assert q' == info'.quant;
        }
      }
    } else {
      assert q == info.quant;
    }
  }

  /** The part of a DHT segment that has arrived contains table `i` of a class. */
  predicate DhtTouches(length: int, s: seq<Byte>, isAc: bool, i: nat)
    decreases if length > 0 then length else 0
  {
    && length > 16
    && var r := ParseTable(length, s);
    r.Got? && ((r.value.isAc == isAc && r.value.index == i)
        || DhtTouches(length - 17 - |r.value.vals|, r.rest, isAc, i))
  }

  lemma {:induction false} DhtForgets(info: Info, dc: seq<Option<HuffTable>>, ac: seq<Option<HuffTable>>,
        length: int, s: seq<Byte>, work: seq<Byte>, more: seq<Byte>)
    requires info.Ok() && |dc| == |ac| == 4 && |work| == 256
    requires forall i | 0 <= i < 4 && dc[i] != info.dc[i] :: DhtTouches(length, s, false, i)
    requires forall i | 0 <= i < 4 && ac[i] != info.ac[i] :: DhtTouches(length, s, true, i)
    ensures DhtLoop(info.(dc := dc, ac := ac), length, s + more, work) == DhtLoop(info, length, s + more, work)
    decreases if length > 0 then length else 0
  {
    hide ParseTable, TableOf;
    var r := ParseTable(length, s);
    if length > 16 && r.Got? {
      TableMore(length, s, more);
      var d := r.value;
      var t := TableOf(d.counts, d.vals, work);
      var dc' := if d.isAc then dc else dc[d.index := Some(t)];
      var ac' := if d.isAc then ac[d.index := Some(t)] else ac;
      DhtForgets(Store(info, d.isAc, d.index, t), dc', ac', length - 17 - |d.vals|, r.rest, d.vals + work[|d.vals|..],
          more);
    } else {
      assert dc == info.dc && ac == info.ac;
    }
  }

  predicate SameFrames(a: seq<Component>, b: seq<Component>)
  {
    |a| == |b| && forall i | 0 <= i < |a| :: a[i].frame == b[i].frame
  }

  lemma {:induction false} FindSame(a: seq<Component>, b: seq<Component>, id: Byte, i: nat)
    requires SameFrames(a, b) && i <= |a|
    ensures FindComp(a, id, i) == FindComp(b, id, i)
    decreases |a| - i
  {
    if i < |a| && a[i].frame.id != id {
      FindSame(a, b, id, i + 1);
    }
  }

  /** The part of an SOS segment that has arrived gets as far as the tables of component `i`. */
  predicate SosTouches(comps: seq<Component>, n: nat, s: seq<Byte>, i: nat)
    decreases n
  {
    && n > 0
    && var r := ParseScanComp(s);
    r.Got? && (FindComp(comps, r.value.id, 0) == i || SosTouches(comps, n - 1, r.rest, i))
  }

  lemma {:induction false} TouchesSame(a: seq<Component>, b: seq<Component>, n: nat, s: seq<Byte>, i: nat)
    requires SameFrames(a, b)
    ensures SosTouches(a, n, s, i) == SosTouches(b, n, s, i)
    decreases n
  {
    hide FindComp, SameFrames, ParseScanComp;
    var r := ParseScanComp(s);
    if n > 0 && r.Got? {
      FindSame(a, b, r.value.id, 0);
      SameLength(a, b);
      TouchesSame(a, b, n - 1, r.rest, i);
    }
  }

  lemma SameLength(a: seq<Component>, b: seq<Component>)
    requires SameFrames(a, b)
    ensures |a| == |b|
  {
  }

  lemma NoteSame(a: seq<Component>, b: seq<Component>, ci: nat, c: ScanComp)
    requires SameFrames(a, b) && ci < |a|
    ensures SameFrames(Note(a, ci, c), Note(b, ci, c)) && SameFrames(a, Note(a, ci, c))
    ensures forall i | 0 <= i < |a| && Note(a, ci, c)[i] != Note(b, ci, c)[i] :: i != ci && a[i] != b[i]
  {
  }

  lemma {:induction false} SosForgets(a: seq<Component>, b: seq<Component>, n: nat, s: seq<Byte>, more: seq<Byte>)
    requires SameFrames(a, b)
    requires forall i | 0 <= i < |a| && a[i] != b[i] :: SosTouches(a, n, s, i)
    ensures ParseScanComps(a, n, s + more) == ParseScanComps(b, n, s + more)
    decreases n
  {
    hide FindComp, ParseScanComp, Note, SameFrames;
    SameLength(a, b);
    var r := ParseScanComp(s);
    if n > 0 && r.Got? {
      ScanCompMore(s, more);
      var c := r.value;
      FindSame(a, b, c.id, 0);
      var ci := FindComp(a, c.id, 0);
      if ci < |a| {
        NoteSame(a, b, ci, c);
        var a', b' := Note(a, ci, c), Note(b, ci, c);
        forall i | 0 <= i < |a'| && a'[i] != b'[i]
          ensures SosTouches(a', n - 1, r.rest, i)
        {
          TouchesSame(a, a', n - 1, r.rest, i);
        }
        SosForgets(a', b', n - 1, r.rest, more);
      }
    } else {
      assert a == b;
    }
  }

  // ---------------------------------------------------------------- starting a segment over

  lemma Unchanged(info: Info, code: Byte, s: seq<Byte>)
    requires info.Ok()
    ensures SameFuture(info, info, code, s)
  {
    hide ParseBody;
  }

  lemma DqtRetry(info: Info, q: seq<Option<seq<nat>>>, s: seq<Byte>)
    requires info.Ok() && |q| == 4
    requires forall i | 0 <= i < 4 && q[i] != info.quant[i] ::
        Byte2(s).Got? && DqtTouches(Byte2(s).value - 2, Byte2(s).rest, i)
    ensures SameFuture(info.(quant := q), info, DQT, s)
  {
    hide DqtLoop, DqtTouches;
    forall more: seq<Byte>
      ensures ParseBody(info.(quant := q), DQT, s + more) == ParseBody(info, DQT, s + more)
    {
      Byte2More(s, more);
      if Byte2(s).Got? {
        DqtForgets(info, q, Byte2(s).value - 2, Byte2(s).rest, more);
      } else {
        assert q == info.quant;
      }
    }
  }

  lemma DhtRetry(info: Info, dc: seq<Option<HuffTable>>, ac: seq<Option<HuffTable>>, s: seq<Byte>)
    requires info.Ok() && |dc| == |ac| == 4
    requires forall i | 0 <= i < 4 && dc[i] != info.dc[i] ::
        Byte2(s).Got? && DhtTouches(Byte2(s).value - 2, Byte2(s).rest, false, i)
    requires forall i | 0 <= i < 4 && ac[i] != info.ac[i] ::
        Byte2(s).Got? && DhtTouches(Byte2(s).value - 2, Byte2(s).rest, true, i)
    ensures SameFuture(info.(dc := dc, ac := ac), info, DHT, s)
  {
    hide DhtLoop, DhtTouches;
    forall more: seq<Byte>
      ensures ParseBody(info.(dc := dc, ac := ac), DHT, s + more) == ParseBody(info, DHT, s + more)
    {
      Byte2More(s, more);
      if Byte2(s).Got? {
        DhtForgets(info, dc, ac, Byte2(s).value - 2, Byte2(s).rest, Blank(), more);
      } else {
        assert dc == info.dc && ac == info.ac;
      }
    }
  }

  predicate IsSof(code: Byte) { code in {SOF0, SOF1, SOF2, SOF9, SOF10} }

  lemma SofRetry(info: Info, info': Info, code: Byte, s: seq<Byte>)
    requires info.Ok() && IsSof(code)
    requires info' == info.(progressive := info'.progressive, arith := info'.arith, precision := info'.precision,
        height := info'.height, width := info'.width, comps := info'.comps)
    ensures SameFuture(info', info, code, s)
  {
    hide ParseFrameComps, Fresh, ParseSofHead;
  }

  lemma SosRetry(info: Info, info': Info, s: seq<Byte>)
    requires info.Ok() && SameFrames(info'.comps, info.comps)
    requires info' == info.(comps := info'.comps, current := info'.current, ss := info'.ss, se := info'.se,
        ah := info'.ah, al := info'.al)
    requires forall i | 0 <= i < |info.comps| && info'.comps[i] != info.comps[i] ::
               Byte2(s).Got? && Byte1(Byte2(s).rest).Got?
                   && SosTouches(info'.comps, Byte1(Byte2(s).rest).value, Byte1(Byte2(s).rest).rest, i)
    ensures SameFuture(info', info, SOS, s)
  {
    hide ParseScanComps, SosTouches, ParseSosTail;
    forall more: seq<Byte>
      ensures ParseBody(info', SOS, s + more) == ParseBody(info, SOS, s + more)
    {
      Byte2More(s, more);
      if Byte2(s).Got? && Byte1(Byte2(s).rest).Got? {
        Byte1More(Byte2(s).rest, more);
        var n, s2 := Byte1(Byte2(s).rest).value, Byte1(Byte2(s).rest).rest;
        SosForgets(info'.comps, info.comps, n, s2, more);
      } else {
        assert info'.comps == info.comps;
      }
    }
  }

  // ---------------------------------------------------------------- half-way through a segment

  /** `length` bytes of a DQT segment are still to come, with the tables as far as they go in `quant`. */
  ghost predicate DqtGoing(info: Info, s: seq<Byte>, quant: seq<Option<seq<nat>>>, length: int, rest: seq<Byte>)
    requires info.Ok() && |quant| == 4
  {
    && Byte2(s).Got? && DqtLoop(info.(quant := quant), length, rest) == ParseBody(info, DQT, s)
    && (forall i | 0 <= i < 4 && quant[i] != info.quant[i] :: DqtTouches(Byte2(s).value - 2, Byte2(s).rest, i))
    && (forall i | 0 <= i < 4 && DqtTouches(length, rest, i) :: DqtTouches(Byte2(s).value - 2, Byte2(s).rest, i))
  }

  lemma DqtBegins(info: Info, s: seq<Byte>)
    requires info.Ok()
    ensures Byte2(s).Wait? ==> ParseBody(info, DQT, s) == Wait
    ensures Byte2(s).Got? ==> DqtGoing(info, s, info.quant, Byte2(s).value - 2, Byte2(s).rest)
  {
    hide DqtLoop, DqtTouches;
  }

  lemma DqtStep(info: Info, s: seq<Byte>, quant: seq<Option<seq<nat>>>, length: int, rest: seq<Byte>)
    requires info.Ok() && |quant| == 4 && DqtGoing(info, s, quant, length, rest) && length > 0
    ensures Byte1(rest).Wait? ==> ParseBody(info, DQT, s) == Wait && SameFuture(info.(quant := quant), info, DQT, s)
    ensures Byte1(rest).Got? && Byte1(rest).value % 16 >= 4 ==> ParseBody(info, DQT, s) == Bad
    ensures Byte1(rest).Got? && Byte1(rest).value % 16 < 4 ==>
      var wide, n := Byte1(rest).value / 16 != 0, Byte1(rest).value % 16;
      var r := ParseQuant(wide, 64, Byte1(rest).rest);
      && DqtTouches(length, rest, n) && (r.Wait? ==> ParseBody(info, DQT, s) == Wait)
      && (r.Got? ==>
         DqtGoing(info, s, quant[n := Some(Unzigzag(r.value, 64, NoQuant()))], length - (if wide then 129 else 65),
             r.rest))
  {
    hide ParseQuant, Unzigzag, ParseBody, SameFuture;
    if rest == [] {
      DqtRetry(info, quant, s);
    } else if rest[0] % 16 < 4 {
      var wide, n := rest[0] / 16 != 0, rest[0] % 16;
      var r := ParseQuant(wide, 64, rest[1..]);
      if r.Got? {
        var length' := length - if wide then 129 else 65;
        var quant' := quant[n := Some(Unzigzag(r.value, 64, NoQuant()))];
        assert DqtLoop(info.(quant := quant), length, rest) == DqtLoop(info.(quant := quant'), length', r.rest);
        forall i | 0 <= i < 4 && DqtTouches(length', r.rest, i)
          ensures DqtTouches(length, rest, i)
        {
        }
      }
    }
  }

  /** In the middle of table `n`. */
  lemma DqtPartial(info: Info, s: seq<Byte>, quant: seq<Option<seq<nat>>>, length: int, rest: seq<Byte>,
        n: nat, t: Option<seq<nat>>)
    requires info.Ok() && |quant| == 4 && DqtGoing(info, s, quant, length, rest) && n < 4 && DqtTouches(length, rest, n)
    ensures SameFuture(info.(quant := quant[n := t]), info, DQT, s)
  {
    hide DqtLoop, DqtTouches, ParseBody, SameFuture;
    DqtRetry(info, quant[n := t], s);
  }

  lemma DqtEnds(info: Info, s: seq<Byte>, quant: seq<Option<seq<nat>>>, length: int, rest: seq<Byte>)
    requires info.Ok() && |quant| == 4 && DqtGoing(info, s, quant, length, rest) && length <= 0
    ensures ParseBody(info, DQT, s) == if length == 0 then Got(info.(quant := quant), rest) else Bad
  {
    hide ParseBody, DqtTouches;
  }

  /** The same for DHT, with the workspace. */
  ghost predicate DhtGoing(info: Info, s: seq<Byte>, dc: seq<Option<HuffTable>>, ac: seq<Option<HuffTable>>,
        length: int, rest: seq<Byte>, work: seq<Byte>)
    requires info.Ok() && |dc| == |ac| == 4 && |work| == 256
  {
    && Byte2(s).Got? && DhtLoop(info.(dc := dc, ac := ac), length, rest, work) == ParseBody(info, DHT, s)
    && (forall i | 0 <= i < 4 && dc[i] != info.dc[i] :: DhtTouches(Byte2(s).value - 2, Byte2(s).rest, false, i))
    && (forall i | 0 <= i < 4 && ac[i] != info.ac[i] :: DhtTouches(Byte2(s).value - 2, Byte2(s).rest, true, i))
    && (forall b, i | 0 <= i < 4 && DhtTouches(length, rest, b, i) ::
       DhtTouches(Byte2(s).value - 2, Byte2(s).rest, b, i))
  }

  lemma DhtBegins(info: Info, s: seq<Byte>)
    requires info.Ok()
    ensures Byte2(s).Wait? ==> ParseBody(info, DHT, s) == Wait
    ensures Byte2(s).Got? ==> DhtGoing(info, s, info.dc, info.ac, Byte2(s).value - 2, Byte2(s).rest, Blank())
  {
    hide DhtLoop, DhtTouches, Blank;
  }

  lemma DhtStep(info: Info, s: seq<Byte>, dc: seq<Option<HuffTable>>, ac: seq<Option<HuffTable>>, length: int,
        rest: seq<Byte>, work: seq<Byte>)
    requires info.Ok() && |dc| == |ac| == 4 && |work| == 256 && DhtGoing(info, s, dc, ac, length, rest, work)
        && length > 16
    ensures var r := ParseTable(length, rest);
      && (r.Wait? ==> ParseBody(info, DHT, s) == Wait && SameFuture(info.(dc := dc, ac := ac), info, DHT, s))
      && (r.Bad? ==> ParseBody(info, DHT, s) == Bad)
      && (r.Got? ==>
        var d := r.value;
        var t := Some(TableOf(d.counts, d.vals, work));
        DhtGoing(info, s, if d.isAc then dc
            else dc[d.index := t], if d.isAc then ac[d.index := t]
            else ac, length - 17 - |d.vals|, r.rest, d.vals + work[|d.vals|..]))
  {
    hide ParseTable, TableOf, ParseBody, SameFuture;
    var r := ParseTable(length, rest);
    if r.Wait? {
      DhtRetry(info, dc, ac, s);
    } else if r.Got? {
      var d := r.value;
      var t := Some(TableOf(d.counts, d.vals, work));
      var dc' := if d.isAc then dc else dc[d.index := t];
      var ac' := if d.isAc then ac[d.index := t] else ac;
      var length', work' := length - 17 - |d.vals|, d.vals + work[|d.vals|..];
      assert Store(info.(dc := dc, ac := ac), d.isAc, d.index, t.value) == info.(dc := dc', ac := ac');
      assert DhtLoop(info.(dc := dc, ac := ac), length, rest, work)
          == DhtLoop(info.(dc := dc', ac := ac'), length', r.rest, work');
      forall b, i | 0 <= i < 4 && DhtTouches(length', r.rest, b, i)
        ensures DhtTouches(length, rest, b, i)
      {
      }
      assert DhtTouches(length, rest, d.isAc, d.index);
      assert DhtGoing(info, s, dc', ac', length', r.rest, work');
    }
  }

  lemma DhtEnds(info: Info, s: seq<Byte>, dc: seq<Option<HuffTable>>, ac: seq<Option<HuffTable>>, length: int,
        rest: seq<Byte>, work: seq<Byte>)
    requires info.Ok() && |dc| == |ac| == 4 && |work| == 256 && DhtGoing(info, s, dc, ac, length, rest, work)
        && length <= 16
    ensures ParseBody(info, DHT, s) == if length == 0 then Got(info.(dc := dc, ac := ac), rest) else Bad
  {
    hide ParseBody, DhtTouches;
  }

  /** The components of a scan that have come, `n` being still to come, are among those that `s` gets to. */
  ghost predicate SosTouched(comps0: seq<Component>, n0: nat, s: seq<Byte>, comps: seq<Component>, n: nat,
        rest: seq<Byte>)
  {
    && SameFrames(comps, comps0)
    && (forall i | 0 <= i < |comps| && comps[i] != comps0[i] :: SosTouches(comps0, n0, s, i))
    && (forall i | 0 <= i < |comps| && SosTouches(comps0, n, rest, i) :: SosTouches(comps0, n0, s, i))
  }

  ghost predicate SosGoing(info: Info, s: seq<Byte>, comps: seq<Component>, current: seq<nat>, n: nat, rest: seq<Byte>)
  {
    && info.sawSof && Byte2(s).Got? && Byte1(Byte2(s).rest).Got?
    && var n0, s2 := Byte1(Byte2(s).rest).value, Byte1(Byte2(s).rest).rest;
    && Byte2(s).value == 2 * n0 + 6 && 1 <= n0 <= 4
    && ParseScanComps(info.comps, n0, s2) == After(current, ParseScanComps(comps, n, rest))
    && SosTouched(info.comps, n0, s2, comps, n, rest)
  }

  function After(current: seq<nat>, p: Parse<(seq<Component>, seq<nat>)>): Parse<(seq<Component>, seq<nat>)>
  {
    if p.Got? then Got((p.value.0, current + p.value.1), p.rest) else p
  }

  lemma AfterOne(current: seq<nat>, ci: nat, p: Parse<(seq<Component>, seq<nat>)>)
    ensures After(current, After([ci], p)) == After(current + [ci], p) && After([], p) == p
  {
    if p.Got? {
      assert current + ([ci] + p.value.1) == current + [ci] + p.value.1;
      assert [] + p.value.1 == p.value.1;
    }
  }

  lemma SosBegins(info: Info, s: seq<Byte>)
    requires info.Ok()
    ensures !info.sawSof ==> ParseBody(info, SOS, s) == Bad
    ensures info.sawSof && Byte2(s).Wait? ==> ParseBody(info, SOS, s) == Wait
    ensures info.sawSof && Byte2(s).Got? ==>
      var r := Byte1(Byte2(s).rest);
      && (r.Wait? ==> ParseBody(info, SOS, s) == Wait)
      && (r.Got? ==>
        if Byte2(s).value != 2 * r.value + 6 || r.value < 1 || r.value > 4 then ParseBody(info, SOS, s) == Bad
        else SosGoing(info, s, info.comps, [], r.value, r.rest))
  {
    hide ParseScanComps, SosTouches, ParseSosTail;
    if info.sawSof && Byte2(s).Got? && Byte1(Byte2(s).rest).Got? {
      var r := Byte1(Byte2(s).rest);
      AfterOne([], 0, ParseScanComps(info.comps, r.value, r.rest));
    }
  }

  lemma ScanCompsStep(comps: seq<Component>, n: nat, rest: seq<Byte>)
    requires n > 0
    ensures var r := ParseScanComp(rest);
      && !r.Bad? && (r.Wait? ==> ParseScanComps(comps, n, rest) == Wait)
      && (r.Got? ==>
        var ci := FindComp(comps, r.value.id, 0);
        ParseScanComps(comps, n, rest) == if ci == |comps| then Bad
            else After([ci], ParseScanComps(Note(comps, ci, r.value), n - 1, r.rest)))
  {
    hide FindComp, Note, ParseScanComp;
  }

  lemma SosWaits(info: Info, info': Info, s: seq<Byte>, n: nat, rest: seq<Byte>)
    requires info.Ok() && SosGoing(info, s, info'.comps, info'.current, n, rest)
    requires info' == info.(comps := info'.comps, current := info'.current, ss := info'.ss, se := info'.se,
        ah := info'.ah, al := info'.al)
    ensures SameFuture(info', info, SOS, s)
  {
    hide ParseScanComps, SosTouches, SameFuture, SameFrames, After;
    SameLength(info'.comps, info.comps);
    var s2 := Byte1(Byte2(s).rest).rest;
    forall i | 0 <= i < |info.comps| && info'.comps[i] != info.comps[i]
      ensures SosTouches(info'.comps, Byte1(Byte2(s).rest).value, s2, i)
    {
      TouchesSame(info'.comps, info.comps, Byte1(Byte2(s).rest).value, s2, i);
    }
    SosRetry(info, info', s);
  }

  lemma TouchStep(comps0: seq<Component>, n0: nat, s: seq<Byte>, comps: seq<Component>, n: nat, rest: seq<Byte>)
    requires n > 0 && SosTouched(comps0, n0, s, comps, n, rest)
    requires ParseScanComp(rest).Got? && FindComp(comps, ParseScanComp(rest).value.id, 0) < |comps|
    ensures var c := ParseScanComp(rest).value;
      SosTouched(comps0, n0, s, Note(comps, FindComp(comps, c.id, 0), c), n - 1, ParseScanComp(rest).rest)
  {
    hide FindComp, Note, ParseScanComp, SameFrames;
    var r := ParseScanComp(rest);
    var ci := FindComp(comps, r.value.id, 0);
    FindSame(comps, comps0, r.value.id, 0);
    SameLength(comps, comps0);
    NotedOne(comps, comps0, ci, r.value);
    forall i | 0 <= i < |comps| && (i == ci || SosTouches(comps0, n - 1, r.rest, i))
      ensures SosTouches(comps0, n0, s, i)
    {
      assert SosTouches(comps0, n, rest, i);
    }
  }

  lemma SosOutcome(info: Info, s: seq<Byte>)
    requires info.Ok() && info.sawSof && Byte2(s).Got? && Byte1(Byte2(s).rest).Got?
    requires Byte2(s).value == 2 * Byte1(Byte2(s).rest).value + 6 && 1 <= Byte1(Byte2(s).rest).value <= 4
    ensures var p := ParseScanComps(info.comps, Byte1(Byte2(s).rest).value, Byte1(Byte2(s).rest).rest);
      (p.Wait? ==> ParseBody(info, SOS, s) == Wait) && (p.Bad? ==> ParseBody(info, SOS, s) == Bad)
  {
    hide ParseScanComps, ParseSosTail;
  }

  lemma SosStep(info: Info, s: seq<Byte>, comps: seq<Component>, current: seq<nat>, n: nat, rest: seq<Byte>)
    requires info.Ok() && SosGoing(info, s, comps, current, n, rest) && n > 0
    ensures var r := ParseScanComp(rest);
      && !r.Bad? && (r.Wait? ==> ParseBody(info, SOS, s) == Wait)
      && (r.Got? ==>
        var ci := FindComp(comps, r.value.id, 0);
        if ci == |comps| then ParseBody(info, SOS, s) == Bad
        else SosGoing(info, s, Note(comps, ci, r.value), current + [ci], n - 1, r.rest))
  {
    hide FindComp, Note, ParseScanComp, ParseScanComps, SosTouched, ParseBody, Byte1, Byte2;
    ScanCompsStep(comps, n, rest);
    SosOutcome(info, s);
    var r := ParseScanComp(rest);
    if r.Got? {
      var ci := FindComp(comps, r.value.id, 0);
      if ci < |comps| {
        AfterOne(current, ci, ParseScanComps(Note(comps, ci, r.value), n - 1, r.rest));
        TouchStep(info.comps, Byte1(Byte2(s).rest).value, Byte1(Byte2(s).rest).rest, comps, n, rest);
      }
    }
  }

  lemma NotedOne(comps: seq<Component>, comps0: seq<Component>, ci: nat, c: ScanComp)
    requires SameFrames(comps, comps0) && ci < |comps|
    ensures SameFrames(Note(comps, ci, c), comps0)
    ensures forall i | 0 <= i < |comps| && i != ci :: Note(comps, ci, c)[i] == comps[i]
  {
  }

  lemma SosEnds(info: Info, s: seq<Byte>, comps: seq<Component>, current: seq<nat>, rest: seq<Byte>)
    requires info.Ok() && SosGoing(info, s, comps, current, 0, rest)
    ensures var r := ParseSosTail(rest);
      && !r.Bad? && (r.Wait? ==> ParseBody(info, SOS, s) == Wait)
      && (r.Got? ==>
        var t := r.value;
        ParseBody(info, SOS, s)
            == Got(info.(comps := comps, current := current, ss := t.ss, se := t.se, ah := t.ah, al := t.al), r.rest))
  {
    hide SosTouches, SameFrames, ParseSosTail;
    assert current + [] == current;
    assert ParseScanComps(comps, 0, rest) == Got((comps, []), rest);
  }

  lemma TableParts(length: int, s: seq<Byte>)
    ensures var n := Byte1(s);
      if n.Wait? then ParseTable(length, s) == Wait
      else
        var c := Bytes(16, n.rest);
        if c.Wait? then ParseTable(length, s) == Wait
        else
          && c.Got? && |c.value| == 16
          && if Total(c.value) > 256 || Total(c.value) > length - 17 then ParseTable(length, s) == Bad
             else
               var v := Bytes(Total(c.value), c.rest);
               if v.Wait? then ParseTable(length, s) == Wait
               else
                 var isAc := n.value / 16 % 2 == 1;
                 var index := if isAc then n.value - 16 else n.value;
                 v.Got? && ParseTable(length, s) == if index >= 4 then Bad
                     else Got(TableDef(isAc, index, c.value, v.value), v.rest)
  {
    hide Total;
  }

  lemma SofOutcome(info: Info, code: Byte, s: seq<Byte>)
    requires info.Ok() && IsSof(code)
    ensures var h := ParseSofHead(s);
      && (h.Wait? ==> ParseBody(info, code, s) == Wait)
      && (h.Got? ==>
        if info.sawSof || h.value.height == 0 || h.value.width == 0 || h.value.n == 0
            || h.value.length - 8 != 3 * h.value.n then ParseBody(info, code, s) == Bad
        else
          var p := ParseFrameComps(h.value.n, h.rest);
          && (p.Wait? ==> ParseBody(info, code, s) == Wait)
          && (p.Got? ==> ParseBody(info, code, s) == Got(
            info.(progressive := code in {SOF2, SOF10}, arith := code in {SOF9, SOF10}, precision := h.value.precision,
                height := h.value.height,
                  width := h.value.width, comps := Fresh(p.value), sawSof := true), p.rest)))
  {
    hide ParseSofHead, ParseFrameComps, Fresh;
  }

  lemma DriOutcome(info: Info, s: seq<Byte>)
    requires info.Ok()
    ensures var length := Byte2(s);
      && (length.Wait? ==> ParseBody(info, DRI, s) == Wait)
      && (length.Got? ==>
        if length.value != 4 then ParseBody(info, DRI, s) == Bad
        else
          var i := Byte2(length.rest);
          && (i.Wait? ==> ParseBody(info, DRI, s) == Wait)
          && (i.Got? ==> ParseBody(info, DRI, s) == Got(info.(interval := i.value), i.rest)))
  {
  }

  lemma SkipOutcome(info: Info, code: Byte, s: seq<Byte>)
    requires info.Ok() && Skippable(code)
    ensures var length := Byte2(s);
      && (length.Wait? ==> ParseBody(info, code, s) == Wait)
      && (length.Got? ==>
        var n := if length.value > 2 then length.value - 2 else 0;
        ParseBody(info, code, s) == if |length.rest| < n then Wait else Got(info, length.rest[n..]))
  {
  }

  // ---------------------------------------------------------------- lists read one by one

  function Joined1<T>(xs: seq<T>, p: Parse<seq<T>>): Parse<seq<T>>
  {
    if p.Got? then Got(xs + p.value, p.rest) else p
  }

  lemma Joined1One<T>(xs: seq<T>, x: T, p: Parse<seq<T>>)
    ensures Joined1(xs, Joined1([x], p)) == Joined1(xs + [x], p) && Joined1([], p) == p
  {
    if p.Got? {
      assert xs + ([x] + p.value) == xs + [x] + p.value;
      assert [] + p.value == p.value;
    }
  }

  lemma Joined1End<T>(xs: seq<T>, s: seq<Byte>)
    ensures Joined1(xs, Got([], s)) == Got(xs, s)
  {
    assert xs + [] == xs;
  }

  lemma FrameCompsStep(n: nat, s: seq<Byte>)
    requires n > 0
    ensures var c := ParseFrameComp(s);
      !c.Bad? && ParseFrameComps(n, s) == if c.Wait? then Wait else Joined1([c.value], ParseFrameComps(n - 1, c.rest))
  {
  }

  lemma FreshSnoc(cs: seq<FrameComp>, c: FrameComp)
    ensures Fresh(cs + [c]) == Fresh(cs) + [Component(c, 0, 0)]
  {
  }

  lemma BytesStep(n: nat, s: seq<Byte>)
    requires n > 0
    ensures Bytes(n, s) == if s == [] then Wait else Joined1([s[0]], Bytes(n - 1, s[1..]))
  {
    if |s| >= n {
      assert s[..n] == [s[0]] + s[1..][..n - 1];
      assert s[n..] == s[1..][n - 1..];
    }
  }

  lemma TotalSnoc(c: seq<Byte>, b: Byte)
    ensures Total(c + [b]) == Total(c) + b
  {
    assert (c + [b])[..|c|] == c;
  }
}
