/** Finding the next marker in the data, and checking that it is the restart marker that is due. */
module RestartMarkers {
  import opened Bits
  import opened BitOutput
  import opened BitInput
  import opened Segments

  /** How much of the data next_marker skips before a marker: two bytes for each stuffed 0xFF. */
  function Skipped(data: seq<Byte>, pos: nat): nat
    requires pos <= |data|
  {
    |Stuff(RestBytes(data, pos))|
  }

  lemma SkipStep(data: seq<Byte>, pos: nat)
    requires pos <= |data|
    ensures var n := NextByte(data, pos);
      if n.Data? then Skipped(data, pos) == |Stuffed(n.b)| + Skipped(data, n.pos)
                      && RestEnd(data, pos) == RestEnd(data, n.pos)
      else Skipped(data, pos) == 0 && RestEnd(data, pos) == n
  {
    hide NextByte;
    var n := NextByte(data, pos);
    if n.Data? {
      assert ([n.b] + RestBytes(data, n.pos))[1..] == RestBytes(data, n.pos);
    }
  }

  datatype Outcome = Done | Suspended | Mismatch

  /** The marker reader of the decompressor, on the same source as the bit reader. */
  class MarkerReader {
    const br: BitReader
    var nextRestartNum: nat
    var discarded: nat
    /** Whether skipped data have been reported. */
    var extraneous: bool

    ghost predicate Valid()
      reads this, br
    {
      br.Valid() && nextRestartNum < 8
    }

    constructor (br: BitReader)
      requires br.Valid()
      ensures Valid() && this.br == br && nextRestartNum == 0 && discarded == 0 && !extraneous
    {
      this.br, nextRestartNum, discarded, extraneous := br, 0, 0, false;
    }

    /** next_marker: it finds the marker that ends the data before it, and stays before a marker that has
        not arrived completely. */
    method NextMarker() returns (ok: bool)
      requires Valid()
      modifies br`pos, br`unreadMarker, this`discarded, this`extraneous
      ensures Valid() && ok == RestEnd(br.data, old(br.pos)).Marker?
      ensures br.pos == RestEnd(br.data, old(br.pos)).pos
      ensures ok ==> br.unreadMarker == RestEnd(br.data, old(br.pos)).m && discarded == 0
      ensures ok ==> extraneous == (old(extraneous) || old(discarded) + Skipped(br.data, old(br.pos)) != 0)
      ensures !ok ==>
          br.unreadMarker == old(br.unreadMarker) && discarded == old(discarded) + Skipped(br.data, old(br.pos))
              && extraneous == old(extraneous)
    {
      hide RestBytes, RestEnd, Stuff, SkipFF, Skipped;
      while true
        invariant br.Valid() && br.pos >= old(br.pos) && br.unreadMarker == old(br.unreadMarker)
            && extraneous == old(extraneous)
        invariant RestEnd(br.data, br.pos) == RestEnd(br.data, old(br.pos))
        invariant discarded + Skipped(br.data, br.pos) == old(discarded) + Skipped(br.data, old(br.pos))
        decreases |br.data| - br.pos
      {
        SkipStep(br.data, br.pos);
        if br.pos == |br.data| {
          return false;
        }
        var c := br.data[br.pos];
        if c != 0xFF {
          discarded := discarded + 1;
          br.pos := br.pos + 1;
          continue;
        }
        var q := PassFF(br.data, br.pos + 1);
        if q == |br.data| {
          return false;
        }
        c := br.data[q];
        if c != 0 {
          br.pos := q + 1;
          br.unreadMarker := c;
          break;
        }
        discarded := discarded + 2;
        br.pos := q + 1;
      }
      if discarded != 0 {
        extraneous := true;
        discarded := 0;
      }
      ok := true;
    }

    /** read_restart_marker.  What to do about another marker is up to the source manager. */
    method ReadRestartMarker() returns (r: Outcome)
      requires Valid()
      modifies br`pos, br`unreadMarker, this
      ensures Valid()
      ensures var e := Ahead(br.data, old(br.pos), old(br.unreadMarker));
        && br.pos == e.pos
        && (r == Suspended <==> !e.Marker?)
        && (r == Done <==> e.Marker? && e.m == RST0 + old(nextRestartNum))
        && (r == Done ==> br.unreadMarker == 0 && nextRestartNum == (old(nextRestartNum) + 1) % 8)
        && (r != Done ==> nextRestartNum == old(nextRestartNum))
        && (r == Suspended ==> br.unreadMarker == old(br.unreadMarker) == 0)
      ensures old(br.unreadMarker) == 0 && r == Suspended ==>
        discarded == old(discarded) + Skipped(br.data, old(br.pos)) && extraneous == old(extraneous)
      ensures old(br.unreadMarker) == 0 && r != Suspended ==>
        discarded == 0 && extraneous == (old(extraneous) || old(discarded) + Skipped(br.data, old(br.pos)) != 0)
      ensures old(br.unreadMarker) != 0 ==> discarded == old(discarded) && extraneous == old(extraneous)
    {
      hide RestBytes, RestEnd, Stuff, Skipped;
      if br.unreadMarker == 0 {
        var ok := NextMarker();
        if !ok {
          return Suspended;
        }
      }
      if br.unreadMarker != RST0 + nextRestartNum {
        return Mismatch;
      }
      br.unreadMarker := 0;
      nextRestartNum := (nextRestartNum + 1) % 8;
      r := Done;
    }
  }

  /** Pass any number of 0xFF bytes. */
  method PassFF(data: seq<Byte>, pos: nat) returns (q: nat)
    requires pos <= |data|
    ensures q == SkipFF(data, pos)
  {
    q := pos;
    while q < |data| && data[q] == 0xFF
      invariant pos <= q <= |data| && SkipFF(data, q) == SkipFF(data, pos)
    {
      q := q + 1;
    }
  }
}
