/** Data that arrives later: what a bit reader that has got as far as some of the data finds when there
    is more of it. */
module Arrival {
  import opened Bits
  import opened BitOutput
  import opened BitInput

  lemma {:induction false} SkipExtends(data: seq<Byte>, more: seq<Byte>, pos: nat)
    requires pos <= |data| && SkipFF(data, pos) < |data|
    ensures SkipFF(data + more, pos) == SkipFF(data, pos)
    decreases |data| - pos
  {
    if pos < |data| && data[pos] == 0xFF {
      SkipExtends(data, more, pos + 1);
    }
  }

  lemma NextExtends(data: seq<Byte>, more: seq<Byte>, pos: nat)
    requires pos <= |data| && !NextByte(data, pos).Empty?
    ensures NextByte(data + more, pos) == NextByte(data, pos)
  {
    hide SkipFF;
    if data[pos] == 0xFF {
      SkipExtends(data, more, pos + 1);
    }
  }

  /** The bytes of all the data that follow those that have arrived. */
  function LaterBytes(all: seq<Byte>, end: Next): seq<Byte>
    requires end.pos <= |all|
  {
    if end.Empty? then RestBytes(all, end.pos) else []
  }

  function LaterEnd(all: seq<Byte>, end: Next): Next
    requires end.pos <= |all|
  {
    if end.Empty? then RestEnd(all, end.pos) else end
  }

  lemma {:induction false} RestArrives(data: seq<Byte>, more: seq<Byte>, pos: nat)
    requires pos <= |data|
    ensures RestBytes(data + more, pos) == RestBytes(data, pos) + LaterBytes(data + more, RestEnd(data, pos))
    ensures RestEnd(data + more, pos) == LaterEnd(data + more, RestEnd(data, pos))
    decreases |data| - pos
  {
    hide NextByte;
    var n := NextByte(data, pos);
    if !n.Empty? {
      NextExtends(data, more, pos);
      if n.Data? {
        RestArrives(data, more, n.pos);
      }
    }
  }

  lemma {:induction false} UnpackConcat(a: seq<Byte>, b: seq<Byte>)
    ensures Unpack(a + b) == Unpack(a) + Unpack(b)
    decreases |a|
  {
    hide ToBits;
    if a == [] {
      assert a + b == b;
    } else {
      assert (a + b)[1..] == a[1..] + b;
      UnpackConcat(a[1..], b);
    }
  }

  /** The bits of all the data that follow those that have arrived. */
  ghost function LaterBits(all: seq<Byte>, end: Next): BitSeq
    requires end.pos <= |all|
  {
    Unpack(LaterBytes(all, end))
  }

  /** More data only adds bits at the end of those that can be read, the same wherever the reader is. */
  lemma ToReadArrives(data: seq<Byte>, more: seq<Byte>, pos: nat, buffer: int, bits: nat, marker: Byte)
    requires pos <= |data|
    ensures Ahead(data, pos, marker).pos <= |data|
    ensures ToRead(data + more, pos, buffer, bits, marker)
        == ToRead(data, pos, buffer, bits, marker) + LaterBits(data + more, Ahead(data, pos, marker))
    ensures Ahead(data + more, pos, marker) == LaterEnd(data + more, Ahead(data, pos, marker))
  {
    hide RestBytes, RestEnd, Unpack, ToBits;
    if marker == 0 {
      RestArrives(data, more, pos);
      UnpackConcat(RestBytes(data, pos), LaterBytes(data + more, RestEnd(data, pos)));
    } else {
      NoBytes();
    }
  }

  lemma NoBytes()
    ensures Unpack([]) == []
  {
  }

  /** How far a reader has got. */
  datatype Spot = Spot(pos: nat, buffer: int, bits: nat, marker: Byte) {
    ghost function ToRead(data: seq<Byte>): BitSeq
      requires pos <= |data|
    {
      BitInput.ToRead(data, pos, buffer, bits, marker)
    }
  }
}
