/** Rows of intervals: what a band of a region covers on each of its scan lines. */
module Spans {

  datatype Span = Span(x1: int, x2: int)

  /** Sorted and nonempty, with a gap between any two. */
  predicate Row(s: seq<Span>)
  {
    && (forall i {:trigger s[i]} | 0 <= i < |s| :: s[i].x1 < s[i].x2)
    && forall i, j | 0 <= i < j < |s| :: s[i].x2 < s[j].x1
  }

  predicate At(b: Span, x: int) { b.x1 <= x < b.x2 }

  predicate In(s: seq<Span>, x: int)
  {
    exists i | 0 <= i < |s| :: At(s[i], x)
  }

  datatype Op = Union | Intersect | Subtract {
    predicate Holds(a: bool, b: bool) {
      match this
      case Union => a || b
      case Intersect => a && b
      case Subtract => a && !b
    }
  }

  /** `s` is the result of the operation on the points before `lo`, and covers none from there on. */
  ghost predicate Before(op: Op, s: seq<Span>, a: seq<Span>, b: seq<Span>, lo: int)
  {
    forall x :: In(s, x) <==> (x < lo && op.Holds(In(a, x), In(b, x)))
  }

  /** `s` is the result of the operation. */
  ghost predicate Is(op: Op, s: seq<Span>, a: seq<Span>, b: seq<Span>)
  {
    forall x :: In(s, x) <==> op.Holds(In(a, x), In(b, x))
  }

  lemma InSnoc(s: seq<Span>, p: Span, x: int)
    ensures In(s + [p], x) <==> (In(s, x) || At(p, x))
  {
    var s' := s + [p];
    if In(s, x) {
      var i :| 0 <= i < |s| && At(s[i], x);
      assert At(s'[i], x);
    }
    if At(p, x) {
      assert At(s'[|s|], x);
    }
  }

  lemma RowSnoc(s: seq<Span>, p: Span)
    requires Row(s) && p.x1 < p.x2 && (s != [] ==> s[|s| - 1].x2 < p.x1)
    ensures Row(s + [p])
  {
    if s != [] {
      forall i | 0 <= i < |s|
        ensures s[i].x2 < p.x1
      {
        if i < |s| - 1 {
          assert s[i].x2 < s[|s| - 1].x1;
        }
      }
    }
  }

  lemma Apart(s: seq<Span>, i: nat, k: nat)
    requires Row(s) && i < |s| && k < |s|
    ensures i < k ==> s[i].x2 < s[k].x1
    ensures k < i ==> s[k].x2 < s[i].x1
    ensures s[i].x1 < s[i].x2
  {
  }

  /** In a row, the points from one interval's start to the next one's are covered just by it. */
  lemma InAround(s: seq<Span>, i: nat, x: int)
    requires Row(s) && i < |s| && s[i].x1 <= x && (i + 1 < |s| ==> x < s[i + 1].x1)
    ensures In(s, x) <==> x < s[i].x2
  {
    hide Row;
    forall k | 0 <= k < |s|
      ensures At(s[k], x) <==> (k == i && x < s[i].x2)
    {
      Apart(s, i, k);
      Apart(s, if i + 1 < |s| then i + 1 else i, k);
    }
  }

  /** Points between two intervals, or before the first one, are not covered. */
  lemma NotIn(s: seq<Span>, i: nat, x: int)
    requires Row(s) && i <= |s| && (i < |s| ==> x < s[i].x1) && (i > 0 ==> s[i - 1].x2 <= x)
    ensures !In(s, x)
  {
    hide Row;
    forall k | 0 <= k < |s|
      ensures !At(s[k], x)
    {
      Apart(s, if i < |s| then i else k, k);
      Apart(s, if i > 0 then i - 1 else k, k);
    }
  }

  // ---------------------------------------------------------------- uniqueness

  /** A row is determined by the points it covers. */
  lemma {:induction false} RowUnique(s: seq<Span>, r: seq<Span>)
    requires Row(s) && Row(r) && forall x :: In(s, x) <==> In(r, x)
    ensures s == r
    decreases |s|
  {
    EmptyRow(s);
    EmptyRow(r);
    if s != [] && r != [] {
      FirstSame(s, r);
      forall x
        ensures In(s[1..], x) <==> In(r[1..], x)
      {
        InTail(s, x);
        InTail(r, x);
      }
      RowUnique(s[1..], r[1..]);
      assert s == [s[0]] + s[1..] && r == [r[0]] + r[1..];
    }
  }

  lemma EmptyRow(s: seq<Span>)
    requires Row(s)
    ensures s == [] ==> forall x :: !In(s, x)
    ensures s != [] ==> In(s, s[0].x1)
  {
    if s != [] {
      assert At(s[0], s[0].x1);
    }
  }

  lemma InTail(s: seq<Span>, x: int)
    requires Row(s) && s != []
    ensures In(s[1..], x) <==> (In(s, x) && x >= s[0].x2)
  {
    if In(s[1..], x) {
      var i :| 0 <= i < |s[1..]| && At(s[1..][i], x);
      assert At(s[i + 1], x) && s[0].x2 < s[i + 1].x1;
    }
    if In(s, x) && x >= s[0].x2 {
      var i :| 0 <= i < |s| && At(s[i], x);
      assert At(s[1..][i - 1], x);
    }
  }

  lemma FirstSame(s: seq<Span>, r: seq<Span>)
    requires Row(s) && Row(r) && s != [] && r != [] && forall x :: In(s, x) <==> In(r, x)
    ensures s[0] == r[0]
  {
    assert At(s[0], s[0].x1) && In(s, s[0].x1) && In(r, s[0].x1);
    assert At(r[0], r[0].x1) && In(r, r[0].x1) && In(s, r[0].x1);
    StartsFirst(s, r[0].x1);
    StartsFirst(r, s[0].x1);
    NotLonger(s, r);
    NotLonger(r, s);
  }

  lemma NotLonger(s: seq<Span>, r: seq<Span>)
    requires Row(s) && Row(r) && s != [] && r != [] && s[0].x1 == r[0].x1 && forall x :: In(s, x) <==> In(r, x)
    ensures s[0].x2 <= r[0].x2
  {
    var y := if r[0].x2 < s[0].x2 then r[0].x2 else s[0].x1;
    InAround(s, 0, y);
    InAround(r, 0, y);
  }

  lemma StartsFirst(s: seq<Span>, x: int)
    requires Row(s) && s != [] && In(s, x)
    ensures s[0].x1 <= x
  {
    var i :| 0 <= i < |s| && At(s[i], x);
    if i > 0 {
      assert s[0].x2 < s[i].x1;
    }
  }
}
