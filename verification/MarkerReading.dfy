/** Reading one marker after another until a scan starts or the image ends, as a function of the data. */
module MarkerReading {
  import opened BitOutput
  import opened BitInput
  import opened Arrival
  import opened MarkerSyntax
  import opened MarkerParsing
  import opened MarkerReplay

  /** How read_markers ends.  `Waits`: it would go on with more data. */
  datatype Reached = Waits | Fails | AtSos(info: Info, pos: nat) | AtEoi(info: Info, pos: nat)

  function Bounded(r: Reached, n: nat): bool { (r.AtSos? || r.AtEoi?) ==> r.info.Ok() && r.pos <= n }

  /** From state `info`, at `pos`, where `code` is the marker whose parameters come next (0 if a marker is to be
      found). */
  function ReadOn(info: Info, data: seq<Byte>, pos: nat, code: Byte): (r: Reached)
    requires info.Ok() && pos <= |data|
    ensures Bounded(r, |data|)
    decreases |data| - pos, code
  {
    if code == 0 then
      if !info.sawSoi then
        // The very first marker must be SOI, with nothing before it.
        if |data| - pos < 2 then Waits
        else if data[pos] != 0xFF || data[pos + 1] != SOI then Fails
        else ReadOn(info, data, pos + 2, SOI)
      else
        var n := RestEnd(data, pos);
        if n.Empty? then Waits
        else MarkerCode(data, pos); ReadOn(info, data, n.pos, n.m)
    else
      match ParseBody(info, code, data[pos..])
      case Wait => Waits
      case Bad => Fails
      case Got(info', rest) =>
        var pos' := |data| - |rest|;
        if code == SOS then AtSos(info', pos')
        else if code == EOI then AtEoi(info', pos')
        else ReadOn(info', data, pos', 0)
  }

  lemma {:induction false} MarkerCode(data: seq<Byte>, pos: nat)
    requires pos <= |data|
    ensures RestEnd(data, pos).Marker? ==> RestEnd(data, pos).m != 0 && RestEnd(data, pos).pos > pos
    decreases |data| - pos
  {
    hide SkipFF;
    var n := NextByte(data, pos);
    if n.Data? {
      MarkerCode(data, n.pos);
    }
  }

  lemma OneSlice(data: seq<Byte>, pos: nat, more: seq<Byte>)
    requires pos <= |data|
    ensures (data + more)[pos..] == data[pos..] + more
  {
  }

  /** What has been found out stays so when more data come. */
  lemma {:induction false} ReadOnMore(info: Info, data: seq<Byte>, pos: nat, code: Byte, more: seq<Byte>)
    requires info.Ok() && pos <= |data|
    ensures !ReadOn(info, data, pos, code).Waits? ==>
        ReadOn(info, data + more, pos, code) == ReadOn(info, data, pos, code)
    decreases |data| - pos, code
  {
    hide ParseBody, RestEnd, Info.Ok;
    if code == 0 {
      if !info.sawSoi {
        if |data| - pos >= 2 && data[pos] == 0xFF && data[pos + 1] == SOI {
          ReadOnMore(info, data, pos + 2, SOI, more);
        }
      } else {
        RestArrives(data, more, pos);
        MarkerCode(data, pos);
        var n := RestEnd(data, pos);
        if n.Marker? {
          ReadOnMore(info, data, n.pos, n.m, more);
        }
      }
    } else {
      BodyStep(info, data, pos, code, more);
      var p := ParseBody(info, code, data[pos..]);
      if p.Got? && code != SOS && code != EOI {
        ReadOnMore(p.value, data, |data| - |p.rest|, 0, more);
      }
    }
  }

  lemma BodyStep(info: Info, data: seq<Byte>, pos: nat, code: Byte, more: seq<Byte>)
    requires info.Ok() && pos <= |data|
    ensures var p := ParseBody(info, code, data[pos..]);
      !p.Wait? ==> ParseBody(info, code, (data + more)[pos..]) == Longer(p, more)
  {
    hide ParseBody;
    OneSlice(data, pos, more);
    BodyMore(info, code, data[pos..], more);
  }

  /** Whatever comes behind `data`, reading on from one situation is as good as from the other. */
  ghost predicate SameReading(info: Info, pos: nat, code: Byte, info0: Info, pos0: nat, code0: Byte, data: seq<Byte>)
    requires info.Ok() && info0.Ok() && pos <= |data| && pos0 <= |data|
  {
    forall more: seq<Byte> :: ReadOn(info, data + more, pos, code) == ReadOn(info0, data + more, pos0, code0)
  }

  lemma SameReadingNow(info: Info, pos: nat, code: Byte, info0: Info, pos0: nat, code0: Byte, data: seq<Byte>)
    requires info.Ok() && info0.Ok() && pos <= |data| && pos0 <= |data|
        && SameReading(info, pos, code, info0, pos0, code0, data)
    ensures ReadOn(info, data, pos, code) == ReadOn(info0, data, pos0, code0)
  {
    hide ReadOn;
    assert data + [] == data;
  }

  lemma SameReadingSelf(info: Info, pos: nat, code: Byte, data: seq<Byte>)
    requires info.Ok() && pos <= |data|
    ensures SameReading(info, pos, code, info, pos, code, data)
  {
    hide ReadOn;
  }

  lemma SameReadingTrans(a: Info, p: nat, c: Byte, b: Info, q: nat, d: Byte, info0: Info, pos0: nat, code0: Byte,
        data: seq<Byte>)
    requires a.Ok() && b.Ok() && info0.Ok() && p <= |data| && q <= |data| && pos0 <= |data|
    requires SameReading(a, p, c, b, q, d, data) && SameReading(b, q, d, info0, pos0, code0, data)
    ensures SameReading(a, p, c, info0, pos0, code0, data)
  {
    hide ReadOn;
  }

  /** The start of the file has been found. */
  lemma FirstFound(info: Info, data: seq<Byte>, pos: nat)
    requires info.Ok() && pos + 2 <= |data| && !info.sawSoi && data[pos] == 0xFF && data[pos + 1] == SOI
    ensures SameReading(info, pos + 2, SOI, info, pos, 0, data)
  {
    hide ParseBody, RestEnd;
    forall more: seq<Byte>
      ensures ReadOn(info, data + more, pos + 2, SOI) == ReadOn(info, data + more, pos, 0)
    {
    }
  }

  /** A marker has been found, or data without one have been passed over. */
  lemma NextFound(info: Info, data: seq<Byte>, pos: nat)
    requires info.Ok() && pos <= |data| && info.sawSoi
    ensures var n := RestEnd(data, pos);
      SameReading(info, n.pos, if n.Marker? then n.m else 0, info, pos, 0, data)
  {
    hide ParseBody, RestEnd;
    var n := RestEnd(data, pos);
    MarkerCode(data, pos);
    forall more: seq<Byte>
      ensures ReadOn(info, data + more, n.pos, if n.Marker? then n.m else 0) == ReadOn(info, data + more, pos, 0)
    {
      RestArrives(data, more, pos);
      MarkerCode(data + more, pos);
    }
  }

  /** Parameters have been read. */
  lemma BodyRead(info: Info, data: seq<Byte>, pos: nat, code: Byte)
    requires info.Ok() && pos <= |data| && code !in {0, SOS, EOI} && ParseBody(info, code, data[pos..]).Got?
    ensures var p := ParseBody(info, code, data[pos..]);
      SameReading(p.value, |data| - |p.rest|, 0, info, pos, code, data)
  {
    hide ParseBody, RestEnd;
    var p := ParseBody(info, code, data[pos..]);
    forall more: seq<Byte>
      ensures ReadOn(p.value, data + more, |data| - |p.rest|, 0) == ReadOn(info, data + more, pos, code)
    {
      BodyStep(info, data, pos, code, more);
    }
  }

  /** Parameters are to be read again later. */
  lemma BodyWaits(info': Info, info: Info, data: seq<Byte>, pos: nat, code: Byte)
    requires info.Ok() && info'.Ok() && pos <= |data| && code != 0 && SameFuture(info', info, code, data[pos..])
    ensures SameReading(info', pos, code, info, pos, code, data)
  {
    hide ParseBody, RestEnd;
    forall more: seq<Byte>
      ensures ReadOn(info', data + more, pos, code) == ReadOn(info, data + more, pos, code)
    {
      OneSlice(data, pos, more);
      assert ParseBody(info', code, data[pos..] + more) == ParseBody(info, code, data[pos..] + more);
    }
  }

  lemma MoreArrived(info: Info, pos: nat, code: Byte, info0: Info, pos0: nat, code0: Byte, data: seq<Byte>,
        chunk: seq<Byte>)
    requires info.Ok() && info0.Ok() && pos <= |data| && pos0 <= |data|
        && SameReading(info, pos, code, info0, pos0, code0, data)
    ensures SameReading(info, pos, code, info0, pos0, code0, data + chunk)
  {
    hide ReadOn;
    forall more: seq<Byte>
      ensures ReadOn(info, data + chunk + more, pos, code) == ReadOn(info0, data + chunk + more, pos0, code0)
    {
      assert data + chunk + more == data + (chunk + more);
    }
  }
}
