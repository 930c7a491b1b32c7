/** The routines of the decompressor that take marker segments apart (jdmarker.c).  They consume bytes as
    they go, but move the source on only when a segment is complete. */
module HeaderReader {
  import opened BitOutput
  import opened BitInput
  import opened Arrival
  import opened Huffman
  import opened Zigzag
  import opened RestartMarkers
  import opened MarkerSyntax
  import opened MarkerParsing
  import opened MarkerReplay
  import opened MarkerReading
  import opened Segments

  /** How one routine ends, and how read_markers ends. */
  datatype Result = Taken | Starved | Refused
  datatype Status = Suspends | ReachedSos | ReachedEoi | Error

  /** What is left of a table after writing the first values over `base`. */
  lemma UnzigzagSnoc(vs: seq<nat>, v: nat, n: nat, base: seq<nat>)
    requires n <= |vs| < 64 && |base| == 64
    ensures Unzigzag(vs + [v], n, base) == Unzigzag(vs, n, base)
  {
    hide Natural;
    if n > 0 {
      UnzigzagSnoc(vs, v, n - 1, base);
    }
  }

  lemma UnzigzagNone(base: seq<nat>)
    requires |base| == 64
    ensures Unzigzag([], 0, base) == base
  {
  }

  lemma StoreEntry(vs: seq<nat>, v: nat, base: seq<nat>)
    requires |vs| < 64 && |base| == 64
    ensures Unzigzag(vs + [v], |vs| + 1, base) == Unzigzag(vs, |vs|, base)[Natural(|vs|) := v]
  {
    hide Natural;
    UnzigzagSnoc(vs, v, |vs|, base);
  }

  lemma QuantEnds(wide: bool, vs: seq<nat>, s: seq<Byte>)
    ensures Joined1(vs, ParseQuant(wide, 0, s)) == Got(vs, s)
  {
    Joined1End(vs, s);
  }

  lemma QuantStep(wide: bool, n: nat, s: seq<Byte>)
    requires n > 0
    ensures var e := ParseEntry(wide, s);
      ParseQuant(wide, n, s) == if e.Got? then Joined1([e.value], ParseQuant(wide, n - 1, e.rest))
          else if e.Wait? then Wait else Bad
  {
  }

  /** Nothing is left after all of them. */
  lemma Overwritten(vs: seq<nat>, base: seq<nat>, base': seq<nat>)
    requires |vs| == |base| == |base'| == 64
    ensures Unzigzag(vs, 64, base) == Unzigzag(vs, 64, base')
  {
    hide Natural, Unzigzag;
    var r, r' := Unzigzag(vs, 64, base), Unzigzag(vs, 64, base');
    forall p: nat | p < 64
      ensures r[p] == r'[p]
    {
      var k := ZIGZAG_ORDER[p / 8][p % 8];
      NaturalOnto(p);
      UnzigzagAt(vs, 64, base, k);
      UnzigzagAt(vs, 64, base', k);
    }
  }

  class HeaderDecoder {
    const mr: MarkerReader
    var quant: seq<Option<seq<nat>>>
    var dc: seq<Option<HuffTable>>
    var ac: seq<Option<HuffTable>>
    var interval: nat
    var sawSoi: bool
    var sawSof: bool
    var progressive: bool
    var arith: bool
    var precision: nat
    var height: nat
    var width: nat
    var comps: seq<Component>
    var current: seq<nat>
    var ss: nat
    var se: nat
    var ah: nat
    var al: nat

    ghost function State(): Info
      reads this
    {
      Info(quant, dc, ac, interval, sawSoi, sawSof, progressive, arith, precision, height, width, comps, current,
          ss, se, ah, al)
    }

    ghost predicate Valid()
      reads this, mr, mr.br
    {
      mr.Valid() && |quant| == |dc| == |ac| == 4 && forall i | 0 <= i < 4 && quant[i].Some? :: |quant[i].value| == 64
    }

    constructor (mr: MarkerReader)
      requires mr.Valid()
      ensures Valid() && this.mr == mr && !sawSoi && !sawSof
    {
      this.mr := mr;
      quant, dc, ac := seq(4, _ => None), seq(4, _ => None), seq(4, _ => None);
      interval, sawSoi, sawSof, progressive, arith, precision, height, width := 0, false, false, false, false, 0, 0, 0;
      comps, current, ss, se, ah, al := [], [], 0, 0, 0, 0;
    }

    /** A routine has done what `parse` says; after a suspension, everything is as if it had not been called. */
    ghost predicate Obeys(r: Result, info0: Info, pos0: nat, code: Byte)
      requires info0.Ok() && pos0 <= |mr.br.data|
      reads this, mr.br
    {
      match ParseBody(info0, code, mr.br.data[pos0..])
      case Got(v, rest) => r == Taken && State() == v && mr.br.pos == |mr.br.data| - |rest|
      case Bad => r == Refused
      case Wait => r == Starved && mr.br.pos == pos0 && SameFuture(State(), info0, code, mr.br.data[pos0..])
    }

    twostate lemma OnlyQuant()
      requires old(|quant|) == |quant|
      requires unchanged(`dc, `ac, `interval, `sawSoi, `sawSof, `progressive, `arith, `precision, `height,
          `width, `comps, `current, `ss, `se, `ah, `al)
      ensures State() == old(State()).(quant := quant)
    {
    }

    lemma Shape()
      requires Valid()
      ensures State().Ok() && State().quant == quant && State().dc == dc && State().ac == ac && State().comps == comps
    {
    }

    lemma Starves(info0: Info, code: Byte)
      requires info0.Ok() && mr.br.pos <= |mr.br.data| && ParseBody(info0, code, mr.br.data[mr.br.pos..]).Wait?
      requires SameFuture(State(), info0, code, mr.br.data[mr.br.pos..])
      ensures Obeys(Starved, info0, mr.br.pos, code)
    {
    }

    lemma Refuses(info0: Info, pos0: nat, code: Byte)
      requires info0.Ok() && pos0 <= |mr.br.data| && ParseBody(info0, code, mr.br.data[pos0..]).Bad?
      ensures Obeys(Refused, info0, pos0, code)
    {
    }

    lemma Takes(info0: Info, pos0: nat, code: Byte)
      requires info0.Ok() && pos0 <= |mr.br.data| && mr.br.pos <= |mr.br.data|
      requires ParseBody(info0, code, mr.br.data[pos0..]) == Got(State(), mr.br.data[mr.br.pos..])
      ensures Obeys(Taken, info0, pos0, code)
    {
    }

    /** INPUT_BYTE. */
    method InputByte(p: nat) returns (ok: bool, v: Byte, q: nat)
      requires p <= |mr.br.data|
      ensures p <= q <= |mr.br.data| && Byte1(mr.br.data[p..]) == if ok then Got(v, mr.br.data[q..]) else Wait
      ensures ok ==> q == p + 1
    {
      if p == |mr.br.data| {
        return false, 0, p;
      }
      assert mr.br.data[p..][1..] == mr.br.data[p + 1..];
      return true, mr.br.data[p], p + 1;
    }

    /** INPUT_2BYTES. */
    method Input2Bytes(p: nat) returns (ok: bool, v: nat, q: nat)
      requires p <= |mr.br.data|
      ensures p <= q <= |mr.br.data| && Byte2(mr.br.data[p..]) == if ok then Got(v, mr.br.data[q..]) else Wait
      ensures ok ==> q == p + 2 && v < 0x1_0000
    {
      v := 0;
      var b: Byte, r: nat;
      ok, b, r := InputByte(p);
      q := p;
      if ok {
        v := 256 * b;
        ok, b, q := InputByte(r);
        if ok {
          assert mr.br.data[p..][2..] == mr.br.data[q..];
          v := v + b;
        }
      }
    }

    /** The entries of one quantization table, stored as they come. */
    method ReadEntries(n: nat, wide: bool, start: nat) returns (ok: bool, q: nat)
      requires Valid() && n < 4 && start <= |mr.br.data|
      modifies this`quant
      ensures Valid() && start <= q <= |mr.br.data| && !ParseQuant(wide, 64, mr.br.data[start..]).Bad?
      ensures ok == ParseQuant(wide, 64, mr.br.data[start..]).Got?
      ensures forall i | 0 <= i < 4 && i != n :: quant[i] == old(quant[i])
      ensures ok ==> var r := ParseQuant(wide, 64, mr.br.data[start..]);
                mr.br.data[q..] == r.rest && quant == old(quant)[n := Some(Unzigzag(r.value, 64, NoQuant()))]
    {
      hide Natural, Unzigzag, ParseQuant;
      if quant[n].None? {
        quant := quant[n := Some(NoQuant())];
      }
      q := start;
      ghost var base, vs: seq<nat> := quant[n].value, [];
      UnzigzagNone(base);
      ghost var rest0 := mr.br.data[start..];
      Joined1One(vs, 0, ParseQuant(wide, 64, rest0));
      for i := 0 to 64
        invariant start <= q <= |mr.br.data| && |vs| == i
        invariant quant == old(quant)[n := Some(Unzigzag(vs, i, base))]
        invariant ParseQuant(wide, 64, rest0) == Joined1(vs, ParseQuant(wide, 64 - i, mr.br.data[q..]))
      {
        QuantStep(wide, 64 - i, mr.br.data[q..]);
        var tmp: nat;
        if wide {
          ok, tmp, q := Input2Bytes(q);
        } else {
          ok, tmp, q := InputByte(q);
        }
        if !ok {
          return false, q;
        }
        StoreEntry(vs, tmp, base);
        Joined1One(vs, tmp, ParseQuant(wide, 64 - i - 1, mr.br.data[q..]));
        quant := quant[n := Some(quant[n].value[Natural(i) := tmp])];
        vs := vs + [tmp];
      }
      QuantEnds(wide, vs, mr.br.data[q..]);
      Overwritten(vs, base, NoQuant());
      ok := true;
    }

    /** get_dqt. */
    method GetDqt() returns (r: Result)
      requires Valid()
      modifies this`quant, mr.br`pos
      ensures Valid() && Obeys(r, old(State()), old(mr.br.pos), DQT)
    {
      hide Obeys, State, DqtGoing, DqtTouches, SameFuture, ParseQuant, Unzigzag, ParseBody, Byte1, Byte2;
      ghost var info0, s0 := State(), mr.br.data[mr.br.pos..];
      Shape();
      DqtBegins(info0, s0);
      var ok: bool, length: int, next: nat;
      ok, length, next := Input2Bytes(mr.br.pos);
      if !ok {
        OnlyQuant();
        Unchanged(info0, DQT, s0);
        Starves(info0, DQT);
        return Starved;
      }
      length := length - 2;
      while length > 0
        invariant next <= |mr.br.data| && Valid() && mr.br.pos == old(mr.br.pos)
        invariant DqtGoing(info0, s0, quant, length, mr.br.data[next..])
      {
        ghost var rest := mr.br.data[next..];
        DqtStep(info0, s0, quant, length, rest);
        var n: nat;
        ok, n, next := InputByte(next);
        if !ok {
          OnlyQuant();
          Starves(info0, DQT);
          return Starved;
        }
        var prec := n / 16;
        n := n % 16;
        if n >= 4 {
          Refuses(info0, mr.br.pos, DQT);
          return Refused;
        }
        ghost var was := quant;
        ok, next := ReadEntries(n, prec != 0, next);
        if !ok {
          assert quant == was[n := quant[n]];
          DqtPartial(info0, s0, was, length, rest, n, quant[n]);
          OnlyQuant();
          Starves(info0, DQT);
          return Starved;
        }
        length := length - 65;
        if prec != 0 {
          length := length - 64;
        }
      }
      DqtEnds(info0, s0, quant, length, mr.br.data[next..]);
      if length != 0 {
        Refuses(info0, mr.br.pos, DQT);
        return Refused;
      }
      mr.br.pos := next;
      OnlyQuant();
      Takes(info0, old(mr.br.pos), DQT);
      r := Taken;
    }

    /** The 16 counts of a Huffman table, and their sum. */
    method ReadCounts(start: nat) returns (ok: bool, bits: seq<Byte>, count: nat, q: nat)
      requires start <= |mr.br.data|
      ensures start <= q <= |mr.br.data| && (ok ==> |bits| == 17 && bits[0] == 0 && count == Total(bits[1..]))
      ensures Bytes(16, mr.br.data[start..]) == if ok then Got(bits[1..], mr.br.data[q..]) else Wait
    {
      hide Bytes, Total;
      bits, count, q := [0], 0, start;
      ghost var got: seq<Byte> := [];
      NoCounts();
      Joined1One(got, 0, Bytes(16, mr.br.data[start..]));
      for i := 0 to 16
        invariant start <= q <= |mr.br.data| && |got| == i && bits == [0] + got && count == Total(got)
        invariant Bytes(16, mr.br.data[start..]) == Joined1(got, Bytes(16 - i, mr.br.data[q..]))
      {
        BytesStep(16 - i, mr.br.data[q..]);
        var b: Byte;
        ok, b, q := InputByte(q);
        if !ok {
          return;
        }
        Joined1One(got, b, Bytes(15 - i, mr.br.data[q..]));
        TotalSnoc(got, b);
        got := got + [b];
        bits := bits + [b];
        count := count + b;
      }
      BytesNone(mr.br.data[q..]);
      Joined1End(got, mr.br.data[q..]);
      assert bits[1..] == got;
      ok := true;
    }

    /** The symbols of a Huffman table, into the workspace. */
    method ReadSymbols(work: seq<Byte>, count: nat, start: nat) returns (ok: bool, huffval: seq<Byte>, q: nat)
      requires start <= |mr.br.data| && count <= |work| == 256
      ensures start <= q <= |mr.br.data| && |huffval| == 256
      ensures Bytes(count, mr.br.data[start..]) == if ok then Got(huffval[..count], mr.br.data[q..]) else Wait
      ensures ok ==> huffval == huffval[..count] + work[count..]
    {
      hide Bytes;
      huffval, q := work, start;
      ghost var got: seq<Byte> := [];
      Joined1One(got, 0, Bytes(count, mr.br.data[start..]));
      for i := 0 to count
        invariant start <= q <= |mr.br.data| && |got| == i && huffval == got + work[i..]
        invariant Bytes(count, mr.br.data[start..]) == Joined1(got, Bytes(count - i, mr.br.data[q..]))
      {
        BytesStep(count - i, mr.br.data[q..]);
        var b: Byte;
        ok, b, q := InputByte(q);
        if !ok {
          return;
        }
        Joined1One(got, b, Bytes(count - i - 1, mr.br.data[q..]));
        got := got + [b];
        huffval := huffval[i := b];
      }
      BytesNone(mr.br.data[q..]);
      Joined1End(got, mr.br.data[q..]);
      ok := true;
    }

    /** One table of a DHT segment: where it belongs, and the workspace with it. */
    method ReadTable(length: int, work: seq<Byte>, start: nat)
      returns (r: Result, isAc: bool, index: int, bits: seq<Byte>, huffval: seq<Byte>, rest: int, q: nat)
      requires start <= |mr.br.data| && |work| == 256
      ensures start <= q <= |mr.br.data| && |huffval| == 256
      ensures match ParseTable(length, mr.br.data[start..])
              case Wait => r == Starved
              case Bad => r == Refused
              case Got(d, s) => 
                && r == Taken && isAc == d.isAc && index == d.index && s == mr.br.data[q..]
                   && rest == length - 17 - |d.vals|
                && HuffTable(bits, huffval) == TableOf(d.counts, d.vals, work) && huffval == d.vals + work[|d.vals|..]
    {
      hide ParseTable, Byte1, Bytes, Total;
      TableParts(length, mr.br.data[start..]);
      bits, huffval, isAc, rest := [], work, false, length - 17;
      var ok: bool, count: nat;
      ok, index, q := InputByte(start);
      if ok {
        ok, bits, count, q := ReadCounts(q);
      }
      if !ok {
        return Starved, isAc, index, bits, huffval, rest, q;
      }
      if count > 256 || count > rest {
        return Refused, isAc, index, bits, huffval, rest, q;
      }
      ok, huffval, q := ReadSymbols(huffval, count, q);
      if !ok {
        return Starved, isAc, index, bits, huffval, rest, q;
      }
      rest := rest - count;
      isAc := index / 16 % 2 == 1;
      if isAc {
        index := index - 16;
      }
      if index >= 4 {
        return Refused, isAc, index, bits, huffval, rest, q;
      }
      StoredTable(bits, huffval, count, work);
      r := Taken;
    }

    /** get_dht. */
    method GetDht() returns (r: Result)
      requires Valid()
      modifies this`dc, this`ac, mr.br`pos
      ensures Valid() && Obeys(r, old(State()), old(mr.br.pos), DHT)
    {
      hide Obeys, State, DhtGoing, SameFuture, ParseBody, ParseTable, TableOf, Byte2, Bytes, Total;
      ghost var info0, s0 := State(), mr.br.data[mr.br.pos..];
      Shape();
      DhtBegins(info0, s0);
      var ok: bool, length: int, next: nat;
      ok, length, next := Input2Bytes(mr.br.pos);
      if !ok {
        OnlyHuff();
        Unchanged(info0, DHT, s0);
        Starves(info0, DHT);
        return Starved;
      }
      length := length - 2;
      var huffval := Blank();
      while length > 16
        invariant next <= |mr.br.data| && Valid() && mr.br.pos == old(mr.br.pos) && |huffval| == 256
        invariant DhtGoing(info0, s0, dc, ac, length, mr.br.data[next..], huffval)
      {
        DhtStep(info0, s0, dc, ac, length, mr.br.data[next..], huffval);
        var isAc, index, bits;
        r, isAc, index, bits, huffval, length, next := ReadTable(length, huffval, next);
        if r == Starved {
          OnlyHuff();
          Starves(info0, DHT);
          return;
        }
        if r == Refused {
          Refuses(info0, mr.br.pos, DHT);
          return;
        }
        if isAc {
          ac := ac[index := Some(HuffTable(bits, huffval))];
        } else {
          dc := dc[index := Some(HuffTable(bits, huffval))];
        }
      }
      DhtEnds(info0, s0, dc, ac, length, mr.br.data[next..], huffval);
      if length != 0 {
        Refuses(info0, mr.br.pos, DHT);
        return Refused;
      }
      mr.br.pos := next;
      OnlyHuff();
      Takes(info0, old(mr.br.pos), DHT);
      r := Taken;
    }

    twostate lemma OnlyHuff()
      requires unchanged(`quant, `interval, `sawSoi, `sawSof, `progressive, `arith, `precision, `height, `width,
          `comps, `current, `ss, `se, `ah, `al)
      ensures State() == old(State()).(dc := dc, ac := ac)
    {
    }

    /** get_dri. */
    method GetDri() returns (r: Result)
      requires Valid()
      modifies this`interval, mr.br`pos
      ensures Valid() && Obeys(r, old(State()), old(mr.br.pos), DRI)
    {
      hide Obeys, SameFuture, ParseBody, Byte1, Byte2;
      ghost var info0, s0 := State(), mr.br.data[mr.br.pos..];
      DriOutcome(info0, s0);
      Unchanged(info0, DRI, s0);
      var ok, length, next := Input2Bytes(mr.br.pos);
      if !ok {
        Starves(info0, DRI);
        return Starved;
      }
      if length != 4 {
        Refuses(info0, mr.br.pos, DRI);
        return Refused;
      }
      var tmp;
      ok, tmp, next := Input2Bytes(next);
      if !ok {
        Starves(info0, DRI);
        return Starved;
      }
      interval := tmp;
      mr.br.pos := next;
      Takes(info0, old(mr.br.pos), DRI);
      r := Taken;
    }

    /** skip_variable.  The source passes over bytes that have not come yet when they come. */
    method SkipVariable(code: Byte) returns (r: Result)
      requires Valid() && Skippable(code)
      modifies mr.br`pos
      ensures Valid() && Obeys(r, old(State()), old(mr.br.pos), code)
    {
      hide Obeys, SameFuture, ParseBody, Byte1, Byte2;
      ghost var info0, s0 := State(), mr.br.data[mr.br.pos..];
      SkipOutcome(info0, code, s0);
      Unchanged(info0, code, s0);
      var ok: bool, length: int, next: nat;
      ok, length, next := Input2Bytes(mr.br.pos);
      if !ok {
        Starves(info0, code);
        return Starved;
      }
      length := length - 2;
      if length > 0 {
        if |mr.br.data| - next < length {
          Starves(info0, code);
          return Starved;
        }
        assert mr.br.data[next..][length..] == mr.br.data[next + length..];
        next := next + length;
      }
      mr.br.pos := next;
      Takes(info0, old(mr.br.pos), code);
      r := Taken;
    }

    /** The fixed part of a frame header, stored as it comes. */
    method ReadSofHead() returns (ok: bool, length: nat, n: Byte, q: nat)
      requires Valid()
      modifies this`precision, this`height, this`width
      ensures Valid() && q <= |mr.br.data|
      ensures ok ==>
          precision < 256 && ParseSofHead(mr.br.data[mr.br.pos..])
              == Got(SofHead(length, precision, height, width, n), mr.br.data[q..])
      ensures !ok ==> ParseSofHead(mr.br.data[mr.br.pos..]) == Wait
    {
      hide Byte1, Byte2;
      ok, length, n, q := true, 0, 0, 0;
      var v;
      ok, length, q := Input2Bytes(mr.br.pos);
      if !ok {
        return;
      }
      ok, v, q := InputByte(q);
      if !ok {
        return;
      }
      precision := v;
      var w;
      ok, w, q := Input2Bytes(q);
      if !ok {
        return;
      }
      height := w;
      ok, w, q := Input2Bytes(q);
      if !ok {
        return;
      }
      width := w;
      ok, n, q := InputByte(q);
    }

    /** The components of a frame header, stored as they come. */
    method ReadFrameComps(n: nat, start: nat) returns (ok: bool, q: nat)
      requires Valid() && start <= |mr.br.data|
      modifies this`comps
      ensures Valid() && q <= |mr.br.data|
      ensures var p := ParseFrameComps(n, mr.br.data[start..]);
      if ok then p.Got? && comps == Fresh(p.value) && p.rest == mr.br.data[q..] else p == Wait
    {
      hide Byte1, ParseFrameComps, Fresh;
      comps, q := [], start;
      ghost var cs: seq<FrameComp> := [];
      Joined1One(cs, FrameComp(0, 0, 0, 0), ParseFrameComps(n, mr.br.data[start..]));
      FreshNone();
      for ci := 0 to n
        invariant q <= |mr.br.data| && comps == Fresh(cs)
        invariant ParseFrameComps(n, mr.br.data[start..]) == Joined1(cs, ParseFrameComps(n - ci, mr.br.data[q..]))
      {
        FrameCompsStep(n - ci, mr.br.data[q..]);
        var id, c, tq;
        ok, id, q := InputByte(q);
        if ok {
          ok, c, q := InputByte(q);
        }
        if ok {
          ok, tq, q := InputByte(q);
        }
        if !ok {
          return;
        }
        ghost var f := FrameComp(id, c / 16, c % 16, tq);
        FreshSnoc(cs, f);
        Joined1One(cs, f, ParseFrameComps(n - ci - 1, mr.br.data[q..]));
        cs := cs + [f];
        comps := comps + [Component(FrameComp(id, c / 16, c % 16, tq), 0, 0)];
      }
      FrameCompsNone(mr.br.data[q..]);
      Joined1End(cs, mr.br.data[q..]);
      ok := true;
    }

    twostate lemma OnlyFrame()
      requires unchanged(`quant, `dc, `ac, `interval, `sawSoi, `sawSof, `current, `ss, `se, `ah, `al)
      ensures State() == old(State()).(progressive := progressive, arith := arith, precision := precision,
          height := height, width := width, comps := comps)
    {
    }

    method FinishSof(next: nat)
      requires Valid() && next <= |mr.br.data|
      modifies this`sawSof, mr.br`pos
      ensures Valid() && mr.br.pos == next && State() == old(State()).(sawSof := true)
    {
      sawSof := true;
      mr.br.pos := next;
    }

    /** The parameters of a frame header.  A second frame header is refused only after its fixed part has been
        stored. */
    method ReadSof(code: Byte, ghost info0: Info) returns (r: Result, next: nat)
      requires Valid() && IsSof(code) && info0.Ok() && info0.sawSof == sawSof
      modifies this`precision, this`height, this`width, this`comps
      ensures Valid() && next <= |mr.br.data|
      ensures r == Refused ==> ParseBody(info0, code, mr.br.data[mr.br.pos..]) == Bad
      ensures r == Starved ==> ParseBody(info0, code, mr.br.data[mr.br.pos..]) == Wait
      ensures r == Taken ==> ParseBody(info0, code, mr.br.data[mr.br.pos..]) == Got(
                info0.(progressive := code in {SOF2, SOF10}, arith := code in {SOF9, SOF10}, precision := precision,
                    height := height,
                       width := width, comps := comps, sawSof := true), mr.br.data[next..])
    {
      hide ParseBody, ParseFrameComps, ParseSofHead, Fresh, IsSof;
      SofOutcome(info0, code, mr.br.data[mr.br.pos..]);
      var length: int, n: nat;
      var ok;
      ok, length, n, next := ReadSofHead();
      if !ok {
        return Starved, next;
      }
      if sawSof || height == 0 || width == 0 || n == 0 || length - 8 != n * 3 {
        return Refused, next;
      }
      ok, next := ReadFrameComps(n, next);
      r := if ok then Taken else Starved;
    }

    /** get_sof. */
    method GetSof(code: Byte, isProg: bool, isArith: bool) returns (r: Result)
      requires Valid() && IsSof(code) && isProg == (code in {SOF2, SOF10}) && isArith == (code in {SOF9, SOF10})
      modifies this`progressive, this`arith, this`precision, this`height, this`width, this`comps, this`sawSof, mr.br`pos
      ensures Valid() && Obeys(r, old(State()), old(mr.br.pos), code)
    {
      hide Obeys, State, SameFuture, ParseBody, IsSof;
      ghost var info0, s0 := State(), mr.br.data[mr.br.pos..];
      Shape();
      ScanState();
      progressive := isProg;
      arith := isArith;
      var next;
      r, next := ReadSof(code, info0);
      if r == Refused {
        Refuses(info0, mr.br.pos, code);
        return;
      }
      OnlyFrame();
      if r == Starved {
        SofRetry(info0, State(), code, s0);
        Starves(info0, code);
        return;
      }
      FinishSof(next);
      Takes(info0, old(mr.br.pos), code);
    }

    /** The component with identifier `id`. */
    method FindComponent(id: Byte) returns (ci: nat)
      ensures ci == FindComp(comps, id, 0)
    {
      ci := 0;
      while ci < |comps|
        invariant ci <= |comps| && FindComp(comps, id, ci) == FindComp(comps, id, 0)
      {
        if comps[ci].frame.id == id {
          return;
        }
        ci := ci + 1;
      }
    }

    /** The last three bytes of a scan header. */
    method ReadSosTail(start: nat) returns (ok: bool, q: nat)
      requires Valid() && start <= |mr.br.data|
      modifies this`ss, this`se, this`ah, this`al
      ensures Valid() && q <= |mr.br.data|
      ensures ok ==>
          ss < 256 && se < 256 && ParseSosTail(mr.br.data[start..]) == Got(SosTail(ss, se, ah, al), mr.br.data[q..])
      ensures !ok ==> ParseSosTail(mr.br.data[start..]) == Wait
    {
      hide Byte1;
      var c;
      ok, c, q := InputByte(start);
      if !ok {
        return;
      }
      ss := c;
      ok, c, q := InputByte(q);
      if !ok {
        return;
      }
      se := c;
      ok, c, q := InputByte(q);
      if !ok {
        return;
      }
      ah, al := c / 16, c % 16;
    }

    twostate lemma OnlyScan()
      requires unchanged(`quant, `dc, `ac, `interval, `sawSoi, `sawSof, `progressive, `arith, `precision, `height,
          `width)
      ensures State() == old(State()).(comps := comps, current := current, ss := ss, se := se, ah := ah, al := al)
    {
    }

    lemma ScanState()
      ensures State().sawSof == sawSof && State().current == current && State().comps == comps
    {
    }

    /** get_sos.  The restart markers of the scan are numbered from 0. */
    method GetSos() returns (r: Result)
      requires Valid()
      modifies this`comps, this`current, this`ss, this`se, this`ah, this`al, mr`nextRestartNum, mr.br`pos
      ensures Valid() && Obeys(r, old(State()), old(mr.br.pos), SOS) && (r == Taken ==> mr.nextRestartNum == 0)
    {
      hide Obeys, State, SosGoing, SameFuture, ParseBody, ParseScanComp, ParseSosTail, FindComp, Note, Byte1, Byte2;
      ghost var info0, s0 := State(), mr.br.data[mr.br.pos..];
      Shape();
      ScanState();
      SosBegins(info0, s0);
      Unchanged(info0, SOS, s0);
      if !sawSof {
        Refuses(info0, mr.br.pos, SOS);
        return Refused;
      }
      var ok: bool, length: nat, n: nat, next: nat;
      ok, length, next := Input2Bytes(mr.br.pos);
      if ok {
        ok, n, next := InputByte(next);
      }
      if !ok {
        Starves(info0, SOS);
        return Starved;
      }
      if length != n * 2 + 6 || n < 1 || n > 4 {
        Refuses(info0, mr.br.pos, SOS);
        return Refused;
      }
      ghost var m: nat, rest := 0, [];
      r, next, m, rest := ReadScanComps(n, next, info0, s0);
      if r == Refused {
        Refuses(info0, mr.br.pos, SOS);
        return;
      }
      if r == Taken {
        SosEnds(info0, s0, comps, current, rest);
        ok, next := ReadSosTail(next);
        if ok {
          mr.nextRestartNum := 0;
          mr.br.pos := next;
          OnlyScan();
          Takes(info0, old(mr.br.pos), SOS);
          return;
        }
      }
      OnlyScan();
      ScanState();
      SosWaits(info0, State(), s0, m, rest);
      Starves(info0, SOS);
      r := Starved;
    }

    /** The components of a scan, whose tables are noted as they come; `m` are still to come behind those noted. */
    method ReadScanComps(n: nat, start: nat, ghost info0: Info, ghost s0: seq<Byte>)
      returns (r: Result, next: nat, ghost m: nat, ghost rest: seq<Byte>)
      requires Valid() && start <= |mr.br.data| && info0.Ok() && SosGoing(info0, s0, comps, [], n, mr.br.data[start..])
      modifies this`comps, this`current
      ensures Valid() && next <= |mr.br.data|
      ensures r == Refused ==> ParseBody(info0, SOS, s0) == Bad
      ensures r == Starved ==> ParseBody(info0, SOS, s0) == Wait
      ensures r != Refused ==> SosGoing(info0, s0, comps, current, m, rest)
      ensures r == Taken ==> m == 0 && rest == mr.br.data[next..]
    {
      hide SosGoing, ParseBody, ParseScanComp, FindComp, Note;
      current := [];
      next := start;
      for i := 0 to n
        invariant next <= |mr.br.data| && Valid() && SosGoing(info0, s0, comps, current, n - i, mr.br.data[next..])
      {
        m, rest := n - i, mr.br.data[next..];
        SosStep(info0, s0, comps, current, m, rest);
        var ok, c;
        ok, c, next := ReadScanComp(next);
        if !ok {
          return Starved, next, m, rest;
        }
        var ci := FindComponent(c.id);
        if ci == |comps| {
          return Refused, next, m, rest;
        }
        current := current + [ci];
        NoteIs(comps, ci, c);
        comps := comps[ci := comps[ci].(dcTbl := c.td, acTbl := c.ta)];
      }
      r, m, rest := Taken, 0, mr.br.data[next..];
    }

    method ReadScanComp(start: nat) returns (ok: bool, c: ScanComp, q: nat)
      requires start <= |mr.br.data|
      ensures q <= |mr.br.data| && ParseScanComp(mr.br.data[start..]) == if ok then Got(c, mr.br.data[q..]) else Wait
    {
      hide Byte1;
      var id, b;
      c := ScanComp(0, 0, 0);
      ok, id, q := InputByte(start);
      if ok {
        ok, b, q := InputByte(q);
        c := ScanComp(id, b / 16, b % 16);
      }
    }

    /** get_soi. */
    method GetSoi() returns (r: Result)
      requires Valid()
      modifies this`interval, this`sawSoi
      ensures Valid() && Obeys(r, old(State()), old(mr.br.pos), SOI)
    {
      ghost var info0 := State();
      if sawSoi {
        Refuses(info0, mr.br.pos, SOI);
        return Refused;
      }
      interval := 0;
      sawSoi := true;
      Takes(info0, mr.br.pos, SOI);
      r := Taken;
    }

    /** The parameters of one marker. */
    method Process(code: Byte) returns (r: Result)
      requires Valid() && code != 0
      modifies this, mr`nextRestartNum, mr.br`pos
      ensures Valid() && Obeys(r, old(State()), old(mr.br.pos), code)
    {
      hide Obeys, SameFuture, ParseBody;
      ghost var info0, s0 := State(), mr.br.data[mr.br.pos..];
      BareBody(info0, code, s0);
      if code == SOI {
        r := GetSoi();
      } else if code == SOF0 || code == SOF1 {
        r := GetSof(code, false, false);
      } else if code == SOF2 {
        r := GetSof(code, true, false);
      } else if code == SOF9 {
        r := GetSof(code, false, true);
      } else if code == SOF10 {
        r := GetSof(code, true, true);
      } else if code == SOS {
        r := GetSos();
      } else if code == DHT {
        r := GetDht();
      } else if code == DQT {
        r := GetDqt();
      } else if code == DRI {
        r := GetDri();
      } else if Skippable(code) {
        r := SkipVariable(code);
      } else if code == EOI || Bare(code) {
        Takes(info0, mr.br.pos, code);
        r := Taken;
      } else {
        Refuses(info0, mr.br.pos, code);
        r := Refused;
      }
    }

    /** What read_markers has found out about all that came from `pos0` on, after marker `code0`. */
    ghost predicate Reads(r: Status, info0: Info, pos0: nat, code0: Byte)
      requires info0.Ok() && pos0 <= |mr.br.data|
      reads this, mr, mr.br
    {
      && Valid()
      && match r
         case Suspends =>
           && ReadOn(State(), mr.br.data, mr.br.pos, mr.br.unreadMarker).Waits?
           && SameReading(State(), mr.br.pos, mr.br.unreadMarker, info0, pos0, code0, mr.br.data)
         case ReachedSos => mr.br.unreadMarker == 0
                            && ReadOn(info0, mr.br.data, pos0, code0) == AtSos(State(), mr.br.pos)
         case ReachedEoi => mr.br.unreadMarker == 0
                            && ReadOn(info0, mr.br.data, pos0, code0) == AtEoi(State(), mr.br.pos)
         case Error => ReadOn(info0, mr.br.data, pos0, code0) == Fails
    }

    /** first_marker and next_marker. */
    method FindMarker() returns (r: Result)
      requires Valid() && mr.br.unreadMarker == 0
      modifies mr`discarded, mr`extraneous, mr.br`pos, mr.br`unreadMarker
      ensures Valid() && mr.br.pos >= old(mr.br.pos)
          && (r == Taken ==> mr.br.pos > old(mr.br.pos) && mr.br.unreadMarker != 0)
      ensures r == Refused ==> ReadOn(State(), mr.br.data, old(mr.br.pos), 0) == Fails
      ensures r == Starved ==> mr.br.unreadMarker == 0 && ReadOn(State(), mr.br.data, mr.br.pos, 0) == Waits
      ensures r != Refused ==>
          SameReading(State(), mr.br.pos, mr.br.unreadMarker, State(), old(mr.br.pos), 0, mr.br.data)
    {
      hide ParseBody, RestEnd, SameReading, Skipped;
      if !sawSoi {
        if |mr.br.data| - mr.br.pos < 2 {
          SameReadingSelf(State(), mr.br.pos, 0, mr.br.data);
          return Starved;
        }
        var c, c2 := mr.br.data[mr.br.pos], mr.br.data[mr.br.pos + 1];
        if c != 0xFF || c2 != SOI {
          return Refused;
        }
        FirstFound(State(), mr.br.data, mr.br.pos);
        mr.br.unreadMarker := c2;
        mr.br.pos := mr.br.pos + 2;
        return Taken;
      }
      NextFound(State(), mr.br.data, mr.br.pos);
      MarkerCode(mr.br.data, mr.br.pos);
      StillEmpty(mr.br.data, mr.br.pos);
      var ok := mr.NextMarker();
      r := if ok then Taken else Starved;
    }

    /** read_markers.  A suspension may come anywhere; the next call then goes on as if nothing had happened. */
    method ReadMarkers() returns (r: Status)
      requires Valid()
      modifies this, mr, mr.br`pos, mr.br`unreadMarker
      ensures Reads(r, old(State()), old(mr.br.pos), old(mr.br.unreadMarker))
    {
      hide ReadOn, ParseBody, SameReading, SameFuture;
      ghost var info0, pos0, code0, data := State(), mr.br.pos, mr.br.unreadMarker, mr.br.data;
      SameReadingSelf(info0, pos0, code0, data);
      while true
        invariant Valid() && mr.br.data == data
        invariant SameReading(State(), mr.br.pos, mr.br.unreadMarker, info0, pos0, code0, data)
        decreases |data| - mr.br.pos, mr.br.unreadMarker
      {
        ghost var info1, pos1 := State(), mr.br.pos;
        SameReadingNow(info1, pos1, mr.br.unreadMarker, info0, pos0, code0, data);
        if mr.br.unreadMarker == 0 {
          var found := FindMarker();
          if found == Refused {
            return Error;
          }
          SameReadingTrans(State(), mr.br.pos, mr.br.unreadMarker, info1, pos1, 0, info0, pos0, code0, data);
          if found == Starved {
            return Suspends;
          }
          continue;
        }
        var code := mr.br.unreadMarker;
        ReadBody(info1, data, pos1, code);
        var done := Process(code);
        if done == Refused {
          return Error;
        }
        if done == Starved {
          BodyWaits(State(), info1, data, pos1, code);
          SameReadingTrans(State(), pos1, code, info1, pos1, code, info0, pos0, code0, data);
          SameReadingNow(State(), pos1, code, info1, pos1, code, data);
          return Suspends;
        }
        mr.br.unreadMarker := 0;
        if code == SOS {
          return ReachedSos;
        }
        if code == EOI {
          return ReachedEoi;
        }
        BodyRead(info1, data, pos1, code);
        SameReadingTrans(State(), mr.br.pos, 0, info1, pos1, code, info0, pos0, code0, data);
      }
      assert false;
      r := Error;
    }

    /** Reading markers from a source that delivers its data in chunks of any size: the outcome is that of having
        all of them at once. */
    method ReadHeader(chunks: seq<seq<Byte>>) returns (r: Status, ghost used: nat)
      requires Valid()
      modifies this, mr, mr.br
      ensures used <= |chunks| && mr.br.data == old(mr.br.data) + Joined(chunks[..used])
      ensures Reads(r, old(State()), old(mr.br.pos), old(mr.br.unreadMarker)) && (r == Suspends ==> used == |chunks|)
    {
      hide ReadOn, SameReading, State;
      ghost var info0, pos0, code0 := State(), mr.br.pos, mr.br.unreadMarker;
      Shape();
      used := 0;
      NoChunks(old(mr.br.data), chunks);
      r := ReadMarkers();
      var i := 0;
      while r == Suspends && i < |chunks|
        invariant used == i <= |chunks| && mr.br.data == old(mr.br.data) + Joined(chunks[..used])
        invariant pos0 <= |mr.br.data| && info0.Ok() && Reads(r, info0, pos0, code0)
      {
        Shape();
        JoinedPrefix(chunks, i);
        MoreArrived(State(), mr.br.pos, mr.br.unreadMarker, info0, pos0, code0, mr.br.data, chunks[i]);
        mr.br.data := mr.br.data + chunks[i];
        i := i + 1;
        used := i;
        Shape();
        ghost var info1, pos1, code1 := State(), mr.br.pos, mr.br.unreadMarker;
        r := ReadMarkers();
        Chain(r, info1, pos1, code1, info0, pos0, code0);
      }
    }

    lemma Chain(r: Status, info1: Info, pos1: nat, code1: Byte, info0: Info, pos0: nat, code0: Byte)
      requires info1.Ok() && info0.Ok() && pos1 <= |mr.br.data| && pos0 <= |mr.br.data| && Reads(r, info1, pos1, code1)
      requires SameReading(info1, pos1, code1, info0, pos0, code0, mr.br.data)
      ensures Reads(r, info0, pos0, code0)
    {
      hide ReadOn, SameReading, State;
      SameReadingNow(info1, pos1, code1, info0, pos0, code0, mr.br.data);
      if r == Suspends {
        Shape();
        SameReadingTrans(State(), mr.br.pos, mr.br.unreadMarker, info1, pos1, code1, info0, pos0, code0, mr.br.data);
      }
    }
  }

  lemma NoCounts()
    ensures Total([]) == 0
  {
  }

  lemma BytesNone(s: seq<Byte>)
    ensures Bytes(0, s) == Got([], s)
  {
  }

  lemma StoredTable(bits: seq<Byte>, huffval: seq<Byte>, count: nat, work: seq<Byte>)
    requires |bits| == 17 && bits[0] == 0 && count <= |huffval| == |work| && huffval == huffval[..count] + work[count..]
    ensures HuffTable(bits, huffval) == TableOf(bits[1..], huffval[..count], work)
  {
    assert bits == [0] + bits[1..];
  }

  lemma FreshNone()
    ensures Fresh([]) == []
  {
  }

  lemma FrameCompsNone(s: seq<Byte>)
    ensures ParseFrameComps(0, s) == Got([], s)
  {
  }

  lemma NoteIs(comps: seq<Component>, ci: nat, c: ScanComp)
    requires ci < |comps|
    ensures Note(comps, ci, c) == comps[ci := comps[ci].(dcTbl := c.td, acTbl := c.ta)]
  {
  }

  lemma NoChunks(data: seq<Byte>, chunks: seq<seq<Byte>>)
    ensures data + Joined(chunks[..0]) == data
  {
  }

  lemma BareBody(info: Info, code: Byte, s: seq<Byte>)
    requires info.Ok() && code != 0
    ensures code == EOI || Bare(code) ==> ParseBody(info, code, s) == Got(info, s)
    ensures !(code == SOI || IsSof(code) || code in {SOS, EOI, DHT, DQT, DRI} || Bare(code) || Skippable(code)) ==>
        ParseBody(info, code, s) == Bad
  {
    hide ParseSoi, ParseSof, ParseSos, ParseDht, ParseDqt, ParseDri, Skip;
  }

  lemma ReadBody(info: Info, data: seq<Byte>, pos: nat, code: Byte)
    requires info.Ok() && pos <= |data| && code != 0
    ensures var p := ParseBody(info, code, data[pos..]);
      && (p.Wait? ==> ReadOn(info, data, pos, code) == Waits)
      && (p.Bad? ==> ReadOn(info, data, pos, code) == Fails)
      && (p.Got? && code == SOS ==> ReadOn(info, data, pos, code) == AtSos(p.value, |data| - |p.rest|))
      && (p.Got? && code == EOI ==> ReadOn(info, data, pos, code) == AtEoi(p.value, |data| - |p.rest|))
  {
    hide ParseBody, RestEnd;
  }

  lemma StillEmpty(data: seq<Byte>, pos: nat)
    requires pos <= |data|
    ensures RestEnd(data, pos).Empty? ==> RestEnd(data, RestEnd(data, pos).pos).Empty?
  {
    RestArrives(data, [], pos);
    assert data + [] == data;
  }
}
