/** The three ways of combining the rows of two overlapping bands, one interval at a time. */
module SpanOps {
  import opened Spans

  // ---------------------------------------------------------------- union

  /** `s` covers the first `i` intervals of `a` and the first `j` of `b`; it ends with one that
      starts no later than those still to come. */
  ghost predicate Merged(s: seq<Span>, a: seq<Span>, i: nat, b: seq<Span>, j: nat)
  {
    && Row(s) && Row(a) && Row(b) && i <= |a| && j <= |b|
    && (forall x :: In(s, x) <==> (In(a[..i], x) || In(b[..j], x)))
    && (s != [] && i < |a| ==> s[|s| - 1].x1 <= a[i].x1)
    && (s != [] && j < |b| ==> s[|s| - 1].x1 <= b[j].x1)
  }

  /** An interval joined to the last one of a row if they touch, otherwise added to it. */
  function Merge(s: seq<Span>, p: Span): (r: seq<Span>)
  {
    if s != [] && s[|s| - 1].x2 >= p.x1 then
      if s[|s| - 1].x2 < p.x2 then s[|s| - 1 := Span(s[|s| - 1].x1, p.x2)] else s
    else s + [p]
  }

  /** The last interval of a row grows, or a new one is added. */
  lemma MergeCovers(s: seq<Span>, p: Span)
    requires Row(s) && p.x1 < p.x2 && (s != [] ==> s[|s| - 1].x1 <= p.x1)
    ensures Row(Merge(s, p)) && Merge(s, p) != [] && Merge(s, p)[|Merge(s, p)| - 1].x1 <= p.x1
    ensures forall x :: In(Merge(s, p), x) <==> (In(s, x) || At(p, x))
  {
    hide Row, In;
    if s != [] && s[|s| - 1].x2 >= p.x1 {
      GrowLast(s, p);
    } else {
      RowSnoc(s, p);
      forall x
        ensures In(s + [p], x) <==> (In(s, x) || At(p, x))
      {
        InSnoc(s, p, x);
      }
    }
  }

  lemma GrowLast(s: seq<Span>, p: Span)
    requires Row(s) && s != [] && p.x1 < p.x2 && s[|s| - 1].x1 <= p.x1 <= s[|s| - 1].x2
    ensures Row(Merge(s, p)) && Merge(s, p) != [] && Merge(s, p)[|Merge(s, p)| - 1].x1 <= p.x1
    ensures forall x :: In(Merge(s, p), x) <==> (In(s, x) || At(p, x))
  {
    hide Row, In;
    var n := |s| - 1;
    var q := Span(s[n].x1, if s[n].x2 < p.x2 then p.x2 else s[n].x2);
    assert s == s[..n] + [s[n]] && Merge(s, p) == s[..n] + [q];
    PrefixRow(s, n);
    Apart(s, if n > 0 then n - 1 else n, n);
    RowSnoc(s[..n], q);
    forall x
      ensures In(s[..n] + [q], x) <==> (In(s, x) || At(p, x))
    {
      InSnoc(s[..n], s[n], x);
      InSnoc(s[..n], q, x);
    }
  }

  lemma PrefixRow(s: seq<Span>, n: nat)
    requires Row(s) && n <= |s|
    ensures Row(s[..n]) && Row(s[n..])
  {
  }

  lemma MergeFirst(s: seq<Span>, a: seq<Span>, i: nat, b: seq<Span>, j: nat)
    requires Merged(s, a, i, b, j) && i < |a| && (j < |b| ==> a[i].x1 <= b[j].x1)
    ensures Merged(Merge(s, a[i]), a, i + 1, b, j)
  {
    hide Row, Merge;
    Apart(a, i, if i + 1 < |a| then i + 1 else i);
    MergeCovers(s, a[i]);
    assert a[..i + 1] == a[..i] + [a[i]];
    forall x
      ensures In(Merge(s, a[i]), x) <==> (In(a[..i + 1], x) || In(b[..j], x))
    {
      InSnoc(a[..i], a[i], x);
    }
  }

  lemma MergedSwap(s: seq<Span>, a: seq<Span>, i: nat, b: seq<Span>, j: nat)
    requires Merged(s, a, i, b, j)
    ensures Merged(s, b, j, a, i)
  {
    hide Row, In;
  }

  lemma MergedNone(a: seq<Span>, b: seq<Span>)
    requires Row(a) && Row(b)
    ensures Merged([], a, 0, b, 0)
  {
  }

  lemma MergedAll(s: seq<Span>, a: seq<Span>, b: seq<Span>)
    requires Merged(s, a, |a|, b, |b|)
    ensures Row(s) && Is(Union, s, a, b)
  {
    hide Row, In;
    assert a[..|a|] == a && b[..|b|] == b;
  }

  // ---------------------------------------------------------------- intersection

  /** Everything to the left of the later start of the next two intervals is settled. */
  ghost predicate Met(s: seq<Span>, a: seq<Span>, i: nat, b: seq<Span>, j: nat)
  {
    && Row(s) && Row(a) && Row(b) && i <= |a| && j <= |b|
    && (if i < |a| && j < |b| then
          Before(Intersect, s, a, b, Max(a[i].x1, b[j].x1)) && (s != [] ==> s[|s| - 1].x2 < Max(a[i].x1, b[j].x1))
        else Is(Intersect, s, a, b))
  }

  function Max(a: int, b: int): int { if a > b then a else b }
  function Min(a: int, b: int): int { if a < b then a else b }

  lemma NoRow()
    ensures Row([])
    ensures forall x :: !In([], x)
  {
  }

  lemma MetNone(a: seq<Span>, b: seq<Span>)
    requires Row(a) && Row(b)
    ensures Met([], a, 0, b, 0)
  {
    hide Row, In;
    NoRow();
    forall x
      ensures (if a != [] && b != [] then x < Max(a[0].x1, b[0].x1) else true) ==> !(In(a, x) && In(b, x))
    {
      if a != [] && x < a[0].x1 {
        NotIn(a, 0, x);
      }
      if b != [] && x < b[0].x1 {
        NotIn(b, 0, x);
      }
    }
  }

  /** What the two next intervals have in common. */
  function Common(s: seq<Span>, p: Span, q: Span): seq<Span>
  {
    if Max(p.x1, q.x1) < Min(p.x2, q.x2) then s + [Span(Max(p.x1, q.x1), Min(p.x2, q.x2))] else s
  }

  /** Points from the later start of two intervals on, as far as nothing further counts. */
  lemma BothAt(a: seq<Span>, i: nat, b: seq<Span>, j: nat, i': nat, j': nat, x: int)
    requires Row(a) && Row(b) && i < |a| && j < |b| && Max(a[i].x1, b[j].x1) <= x
    requires i' == (if a[i].x2 <= b[j].x2 then i + 1 else i) && j' == (if b[j].x2 <= a[i].x2 then j + 1 else j)
    requires i' < |a| && j' < |b| ==> x < Max(a[i'].x1, b[j'].x1)
    ensures (In(a, x) && In(b, x)) <==> x < Min(a[i].x2, b[j].x2)
  {
    hide Row;
    if x < Min(a[i].x2, b[j].x2) {
      assert At(a[i], x) && At(b[j], x);
    } else {
      if i' == i + 1 && (i + 1 < |a| ==> x < a[i + 1].x1) {
        InAround(a, i, x);
      } else {
        InAround(b, j, x);
      }
    }
  }

  lemma MeetAt(s: seq<Span>, a: seq<Span>, i: nat, b: seq<Span>, j: nat, i': nat, j': nat, x: int)
    requires Met(s, a, i, b, j) && i < |a| && j < |b|
    requires i' == (if a[i].x2 <= b[j].x2 then i + 1 else i) && j' == (if b[j].x2 <= a[i].x2 then j + 1 else j)
    ensures In(Common(s, a[i], b[j]), x)
        <==> ((i' < |a| && j' < |b| ==> x < Max(a[i'].x1, b[j'].x1)) && In(a, x) && In(b, x))
  {
    hide Row, In;
    Apart(a, i, if i + 1 < |a| then i + 1 else i);
    Apart(b, j, if j + 1 < |b| then j + 1 else j);
    InSnoc(s, Span(Max(a[i].x1, b[j].x1), Min(a[i].x2, b[j].x2)), x);
    if Max(a[i].x1, b[j].x1) <= x && (i' < |a| && j' < |b| ==> x < Max(a[i'].x1, b[j'].x1)) {
      BothAt(a, i, b, j, i', j', x);
    }
  }

  lemma MeetStep(s: seq<Span>, a: seq<Span>, i: nat, b: seq<Span>, j: nat)
    requires Met(s, a, i, b, j) && i < |a| && j < |b|
    ensures var i', j' := if a[i].x2 <= b[j].x2 then i + 1 else i, if b[j].x2 <= a[i].x2 then j + 1 else j;
      Met(Common(s, a[i], b[j]), a, i', b, j')
  {
    hide Row, In;
    var i', j' := if a[i].x2 <= b[j].x2 then i + 1 else i, if b[j].x2 <= a[i].x2 then j + 1 else j;
    Apart(a, i, if i + 1 < |a| then i + 1 else i);
    Apart(b, j, if j + 1 < |b| then j + 1 else j);
    var p := Span(Max(a[i].x1, b[j].x1), Min(a[i].x2, b[j].x2));
    if p.x1 < p.x2 {
      RowSnoc(s, p);
    }
    var s' := Common(s, a[i], b[j]);
    forall x
      ensures In(s', x) <==> ((i' < |a| && j' < |b| ==> x < Max(a[i'].x1, b[j'].x1)) && In(a, x) && In(b, x))
    {
      MeetAt(s, a, i, b, j, i', j', x);
    }
  }

  // ---------------------------------------------------------------- subtraction

  /** Everything left of the fence `x1` is settled, and the intervals of `b` before `j` lie there. */
  ghost predicate Cut(s: seq<Span>, a: seq<Span>, i: nat, b: seq<Span>, j: nat, x1: int)
  {
    && Row(s) && Row(a) && Row(b) && i <= |a| && j <= |b|
    && (if i < |a| then
          && a[i].x1 <= x1 < a[i].x2 && Before(Subtract, s, a, b, x1)
          && (s != [] ==> s[|s| - 1].x2 < x1) && (j > 0 ==> b[j - 1].x2 <= x1)
        else Is(Subtract, s, a, b))
  }

  lemma CutNone(a: seq<Span>, b: seq<Span>)
    requires Row(a) && Row(b) && a != []
    ensures Cut([], a, 0, b, 0, a[0].x1)
  {
    hide Row, In;
    NoRow();
    Apart(a, 0, 0);
    forall x | x < a[0].x1
      ensures !In(a, x)
    {
      NotIn(a, 0, x);
    }
  }

  /** The same within interval `i`, where the row may touch the fence. */
  ghost predicate Fenced(s: seq<Span>, a: seq<Span>, i: nat, b: seq<Span>, j: nat, x1: int)
  {
    && Row(s) && Row(a) && Row(b) && i < |a| && j <= |b| && a[i].x1 <= x1 <= a[i].x2
    && Before(Subtract, s, a, b, x1) && (s != [] ==> s[|s| - 1].x2 <= x1) && (j > 0 ==> b[j - 1].x2 <= x1)
  }

  lemma CutFenced(s: seq<Span>, a: seq<Span>, i: nat, b: seq<Span>, j: nat, x1: int)
    requires Cut(s, a, i, b, j, x1) && i < |a|
    ensures Fenced(s, a, i, b, j, x1)
  {
    hide Row, In;
  }

  /** Moving on to the next minuend. */
  lemma NextMinuend(s: seq<Span>, a: seq<Span>, i: nat, b: seq<Span>, j: nat, x: int)
    requires i < |a| && Fenced(s, a, i, b, j, a[i].x2) && (i + 1 < |a| ==> x == a[i + 1].x1)
    ensures Cut(s, a, i + 1, b, j, x)
  {
    hide Row, In;
    Apart(a, i, if i + 1 < |a| then i + 1 else i);
    if i + 1 < |a| {
      Apart(a, i + 1, i + 1);
    }
    forall y
      ensures In(s, y) <==> ((i + 1 < |a| ==> y < x) && Subtract.Holds(In(a, y), In(b, y)))
    {
      if a[i].x2 <= y && (i + 1 < |a| ==> y < x) {
        NotIn(a, i + 1, y);
      }
    }
  }

  /** Subtrahend already passed. */
  lemma CutMissed(s: seq<Span>, a: seq<Span>, i: nat, b: seq<Span>, j: nat, x1: int)
    requires Cut(s, a, i, b, j, x1) && i < |a| && j < |b| && b[j].x2 <= x1
    ensures Cut(s, a, i, b, j + 1, x1)
  {
    hide Row, In;
  }

  /** Subtrahend covers the minuend from the fence on, up to its own end or the minuend's. */
  lemma CutAway(s: seq<Span>, a: seq<Span>, i: nat, b: seq<Span>, j: nat, x1: int, x: int)
    requires Fenced(s, a, i, b, j, x1) && j < |b| && b[j].x1 <= x1 < b[j].x2 && x1 < a[i].x2
    requires i + 1 < |a| ==> x == a[i + 1].x1
    ensures if b[j].x2 >= a[i].x2 then Cut(s, a, i + 1, b, j, x) else Cut(s, a, i, b, j + 1, b[j].x2)
  {
    hide Row, In;
    var x2 := Min(b[j].x2, a[i].x2);
    forall y
      ensures In(s, y) <==> (y < x2 && Subtract.Holds(In(a, y), In(b, y)))
    {
      if x1 <= y < x2 {
        Covered(b, j, y);
      }
    }
    if b[j].x2 >= a[i].x2 {
      NextMinuend(s, a, i, b, j, x);
    }
  }

  lemma Covered(b: seq<Span>, j: nat, y: int)
    requires j < |b| && b[j].x1 <= y < b[j].x2
    ensures In(b, y)
  {
    assert At(b[j], y);
  }

  /** The minuend shows from the fence up to `x2`. */
  lemma CutKeeps(s: seq<Span>, a: seq<Span>, i: nat, b: seq<Span>, j: nat, x1: int, x2: int)
    requires Cut(s, a, i, b, j, x1) && i < |a| && x1 < x2 <= a[i].x2 && (j < |b| ==> x2 <= b[j].x1)
    ensures Fenced(s + [Span(x1, x2)], a, i, b, j, x2)
  {
    hide Row, In;
    RowSnoc(s, Span(x1, x2));
    forall y
      ensures In(s + [Span(x1, x2)], y) <==> (y < x2 && Subtract.Holds(In(a, y), In(b, y)))
    {
      InSnoc(s, Span(x1, x2), y);
      if x1 <= y < x2 {
        Covered(a, i, y);
        NotIn(b, j, y);
      }
    }
  }
}
