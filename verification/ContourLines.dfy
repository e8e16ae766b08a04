/**
  Contour lines: segments are chained into lines, lines are merged, reversed and condensed. Displacements are
  never lost or invented, and a line's vectors lead from its start to its end up to the tolerance of each join.
*/
module ContourLines {

  const DIFFERENCE: real := 0.0005

  datatype Vector = Vector(dx: real, dy: real)

  datatype Point = Point(x: real, y: real)

  datatype Segment = Segment(p1: Point, p2: Point)

  datatype Option<+T> = None | Some(value: T)

  /** EQ. */
  predicate Eq(a: real, b: real)
  {
    a - b < DIFFERENCE && b - a < DIFFERENCE
  }

  /** operator == on points. */
  predicate Same(p: Point, q: Point)
  {
    Eq(p.x, q.x) && Eq(p.y, q.y)
  }

  function Displacement(s: Segment): Vector
  {
    Vector(s.p2.x - s.p1.x, s.p2.y - s.p1.y)
  }

  function Plus(a: Vector, b: Vector): Vector
  {
    Vector(a.dx + b.dx, a.dy + b.dy)
  }

  function Minus(a: Vector): Vector
  {
    Vector(-a.dx, -a.dy)
  }

  /** A vector up to its sign. */
  function Canon(v: Vector): Vector
  {
    if v.dx > 0.0 || (v.dx == 0.0 && v.dy >= 0.0) then v else Minus(v)
  }

  function Total(vs: seq<Vector>): Vector
  {
    if vs == [] then Vector(0.0, 0.0) else Plus(Total(vs[..|vs| - 1]), vs[|vs| - 1])
  }

  /** The vectors up to sign, with multiplicities. */
  function Bag(vs: seq<Vector>): multiset<Vector>
  {
    if vs == [] then multiset{} else Bag(vs[..|vs| - 1]) + multiset{Canon(vs[|vs| - 1])}
  }

  /** The same vectors walked backwards. */
  function Flipped(vs: seq<Vector>): seq<Vector>
  {
    if vs == [] then [] else [Minus(vs[|vs| - 1])] + Flipped(vs[..|vs| - 1])
  }

  lemma {:induction false} AppendOne(vs: seq<Vector>, v: Vector)
    ensures Total(vs + [v]) == Plus(Total(vs), v) && Bag(vs + [v]) == Bag(vs) + multiset{Canon(v)}
    ensures Flipped(vs + [v]) == [Minus(v)] + Flipped(vs)
  {
    assert (vs + [v])[..|vs|] == vs;
  }

  lemma {:induction false} FlippedOne(vs: seq<Vector>, v: Vector)
    ensures Flipped(vs + [v]) == [Minus(v)] + Flipped(vs)
  {
    assert (vs + [v])[..|vs|] == vs;
  }

  lemma {:induction false} FlippedNone()
    ensures Flipped([]) == []
  {
  }

  lemma {:induction false} AppendTotal(vs: seq<Vector>, ws: seq<Vector>)
    ensures Total(vs + ws) == Plus(Total(vs), Total(ws))
    decreases |ws|
  {
    hide Bag, Flipped;
    if ws == [] {
      assert vs + ws == vs;
    } else {
      var n := |ws| - 1;
      AppendTotal(vs, ws[..n]);
      assert vs + ws == (vs + ws[..n]) + [ws[n]];
      AppendOne(vs + ws[..n], ws[n]);
    }
  }

  lemma {:induction false} AppendBag(vs: seq<Vector>, ws: seq<Vector>)
    ensures Bag(vs + ws) == Bag(vs) + Bag(ws)
    decreases |ws|
  {
    hide Total, Flipped, Canon, Bag;
    if ws == [] {
      AppendNone(vs, ws);
    } else {
      var n := |ws| - 1;
      AppendBag(vs, ws[..n]);
      AppendBagStep(vs, ws[..n], ws[n]);
      assert ws == ws[..n] + [ws[n]];
    }
  }

  lemma {:induction false} AppendNone(vs: seq<Vector>, ws: seq<Vector>)
    requires ws == []
    ensures Bag(vs + ws) == Bag(vs) + Bag(ws)
  {
    assert vs + ws == vs;
    assert Bag(ws) == multiset{};
  }

  lemma {:induction false} AppendBagStep(vs: seq<Vector>, w: seq<Vector>, v: Vector)
    requires Bag(vs + w) == Bag(vs) + Bag(w)
    ensures Bag(vs + (w + [v])) == Bag(vs) + Bag(w + [v])
  {
    hide Total, Flipped, Canon, Bag;
    assert vs + (w + [v]) == (vs + w) + [v];
    AppendOne(vs + w, v);
    AppendOne(w, v);
    SumAssoc(Bag(vs), Bag(w), multiset{Canon(v)});
  }

  lemma {:induction false} SumAssoc(a: multiset<Vector>, b: multiset<Vector>, c: multiset<Vector>)
    ensures (a + b) + c == a + (b + c)
  {
  }

  lemma {:induction false} CanonMinus(v: Vector)
    ensures Canon(Minus(v)) == Canon(v)
  {
  }

  lemma {:induction false} OneVector(v: Vector)
    ensures Total([v]) == v && Bag([v]) == multiset{Canon(v)}
  {
    AppendOne([], v);
    assert [] + [v] == [v];
  }

  lemma {:induction false} FlippedTotal(vs: seq<Vector>)
    ensures |Flipped(vs)| == |vs| && Total(Flipped(vs)) == Minus(Total(vs))
    decreases |vs|
  {
    hide Bag;
    if vs != [] {
      var w, v := vs[..|vs| - 1], vs[|vs| - 1];
      FlippedTotal(w);
      AppendTotal([Minus(v)], Flipped(w));
      OneVector(Minus(v));
    }
  }

  lemma {:induction false} FlippedBag(vs: seq<Vector>)
    ensures Bag(Flipped(vs)) == Bag(vs)
    decreases |vs|
  {
    hide Total, Canon;
    if vs != [] {
      var w, v := vs[..|vs| - 1], vs[|vs| - 1];
      FlippedBag(w);
      AppendBag([Minus(v)], Flipped(w));
      OneVector(Minus(v));
      CanonMinus(v);
    }
  }

  // ---------------------------------------------------------------- condensing

  /** Whether condense treats two successive vectors as collinear; its slopes share the second one's denominator. */
  predicate Condensable(a: Vector, b: Vector, difference: real)
  {
    if b.dx != 0.0 && a.dx != 0.0 then Close(b.dy / b.dx, a.dy / b.dx, difference)
    else if b.dy != 0.0 && a.dy != 0.0 then Close(b.dx / b.dy, a.dx / b.dy, difference)
    else false
  }

  predicate Close(m1: real, m2: real, difference: real)
  {
    m1 - m2 < difference && m2 - m1 < difference
  }

  /** What condense makes of `vs[i..]` once everything before `i` is done. */
  function Condensed(vs: seq<Vector>, i: nat, difference: real): seq<Vector>
    requires i < |vs|
    decreases |vs| - i
  {
    if i + 1 == |vs| then vs
    else if Condensable(vs[i], vs[i + 1], difference)
    then Condensed(vs[..i] + [Plus(vs[i], vs[i + 1])] + vs[i + 2..], i, difference)
    else Condensed(vs, i + 1, difference)
  }

  /**
    What the test comes to: both vectors are divided by the second one's component, so that it compares their other
    components, not their slopes.
  */
  lemma {:induction false} CondensableCompares(a: Vector, b: Vector, difference: real)
    requires difference > 0.0
    ensures a.dx != 0.0 && b.dx != 0.0 ==>
              (Condensable(a, b, difference) <==> Abs(b.dy - a.dy) < difference * Abs(b.dx))
    ensures !(a.dx != 0.0 && b.dx != 0.0) && a.dy != 0.0 && b.dy != 0.0 ==>
              (Condensable(a, b, difference) <==> Abs(b.dx - a.dx) < difference * Abs(b.dy))
    ensures !(a.dx != 0.0 && b.dx != 0.0) && !(a.dy != 0.0 && b.dy != 0.0) ==> !Condensable(a, b, difference)
  {
    hide Close;
    if a.dx != 0.0 && b.dx != 0.0 {
      QuotientsCompare(a.dy, b.dy, b.dx, difference);
    } else if a.dy != 0.0 && b.dy != 0.0 {
      QuotientsCompare(a.dx, b.dx, b.dy, difference);
    }
  }

  function Abs(x: real): real
  {
    if x < 0.0 then -x else x
  }

  lemma {:induction false} QuotientsCompare(x: real, y: real, d: real, e: real)
    requires d != 0.0 && e > 0.0
    ensures Close(y / d, x / d, e) <==> Abs(y - x) < e * Abs(d)
  {
    var p, q := y / d, x / d;
    assert p * d == y && q * d == x;
    assert (p - q) * d == p * d - q * d && (q - p) * d == q * d - p * d;
    if d > 0.0 {
      ScaleCompare(p - q, e, d);
      ScaleCompare(q - p, e, d);
    } else {
      ScaleCompare(p - q, e, -d);
      ScaleCompare(q - p, e, -d);
    }
  }

  lemma {:induction false} ScaleCompare(x: real, y: real, d: real)
    requires d > 0.0
    ensures x < y <==> x * d < y * d
  {
  }

  /** So vectors of different slopes can be taken for one, and vectors of one slope be kept apart. */
  lemma {:induction false} NotTheSlopes()
    ensures Condensable(Vector(1.0, 1.0), Vector(2.0, 1.0), 0.000000001)
    ensures !Condensable(Vector(1.0, 1.0), Vector(2.0, 2.0), 0.000000001)
  {
  }

  /** Vectors are added to `acc` as long as the test allows; then the next one starts anew. */
  function Greedy(acc: Vector, rest: seq<Vector>, difference: real): seq<Vector>
    decreases |rest|
  {
    if rest == [] then [acc]
    else if Condensable(acc, rest[0], difference) then Greedy(Plus(acc, rest[0]), rest[1..], difference)
    else [acc] + Greedy(rest[0], rest[1..], difference)
  }

  /** Erasing in place comes to that. */
  lemma {:induction false} CondensedIsGreedy(vs: seq<Vector>, i: nat, difference: real)
    requires i < |vs|
    ensures Condensed(vs, i, difference) == vs[..i] + Greedy(vs[i], vs[i + 1..], difference)
    decreases |vs| - i
  {
    hide Condensable;
    if i + 1 == |vs| {
      assert vs == vs[..i] + [vs[i]];
    } else if Condensable(vs[i], vs[i + 1], difference) {
      var next := vs[..i] + [Plus(vs[i], vs[i + 1])] + vs[i + 2..];
      CondensedIsGreedy(next, i, difference);
      assert next[..i] == vs[..i] && next[i + 1..] == vs[i + 1..][1..];
    } else {
      CondensedIsGreedy(vs, i + 1, difference);
      assert vs[..i + 1] == vs[..i] + [vs[i]] && vs[i + 2..] == vs[i + 1..][1..];
    }
  }

  lemma {:induction false} JoinTwo(vs: seq<Vector>, i: nat)
    requires i + 1 < |vs|
    ensures Total(vs[..i] + [Plus(vs[i], vs[i + 1])] + vs[i + 2..]) == Total(vs)
  {
    var a, b := vs[..i], vs[i + 2..];
    assert vs == ((a + [vs[i]]) + [vs[i + 1]]) + b;
    AppendTotal((a + [vs[i]]) + [vs[i + 1]], b);
    AppendOne(a + [vs[i]], vs[i + 1]);
    AppendOne(a, vs[i]);
    AppendTotal(a + [Plus(vs[i], vs[i + 1])], b);
    AppendOne(a, Plus(vs[i], vs[i + 1]));
  }

  /** Condensing never changes where a line leads. */
  lemma {:induction false} CondensedTotal(vs: seq<Vector>, i: nat, difference: real)
    requires i < |vs|
    ensures Total(Condensed(vs, i, difference)) == Total(vs) && 1 <= |Condensed(vs, i, difference)| <= |vs|
    decreases |vs| - i
  {
    if i + 1 < |vs| {
      if Condensable(vs[i], vs[i + 1], difference) {
        JoinTwo(vs, i);
        CondensedTotal(vs[..i] + [Plus(vs[i], vs[i + 1])] + vs[i + 2..], i, difference);
      } else {
        CondensedTotal(vs, i + 1, difference);
      }
    }
  }

  // ---------------------------------------------------------------- lines as values

  /** A line; `pieces` is the number of segments it was made from. */
  datatype Line = Line(start: Point, end: Point, vectors: seq<Vector>, pieces: nat)

  /** Off by less than `n` times the tolerance, and by nothing at all if `n` is zero. */
  predicate Near(gap: real, n: nat)
  {
    if n == 0 then gap == 0.0 else -(DIFFERENCE * n as real) < gap < DIFFERENCE * n as real
  }

  /** The vectors lead from start to end, up to the tolerance of `n` joins in each coordinate. */
  predicate Within(l: Line, n: nat)
  {
    Near(l.start.x + Total(l.vectors).dx - l.end.x, n) && Near(l.start.y + Total(l.vectors).dy - l.end.y, n)
  }

  /** A line of `pieces` segments has at most that many vectors, and one join less. */
  predicate Leads(l: Line)
  {
    1 <= |l.vectors| <= l.pieces && Within(l, l.pieces - 1)
  }

  function Joined(a: Line, b: Line): Line
  {
    Line(a.start, b.end, a.vectors + b.vectors, a.pieces + b.pieces)
  }

  function Turned(a: Line): Line
  {
    Line(a.end, a.start, Flipped(a.vectors), a.pieces)
  }

  /** A line with one more segment. */
  function Extended(a: Line, s: Segment): Line
  {
    Line(if a.vectors == [] then s.p1 else a.start, s.p2, a.vectors + [Displacement(s)], a.pieces + 1)
  }

  /** One more join adds less than the tolerance. */
  lemma {:induction false} NearSum(a: real, n: nat, b: real, m: nat, e: real)
    requires Near(a, n) && Near(b, m) && -DIFFERENCE < e < DIFFERENCE
    ensures Near(a + b + e, n + m + 1)
  {
    assert DIFFERENCE * (n + m + 1) as real == DIFFERENCE * n as real + DIFFERENCE * m as real + DIFFERENCE;
  }

  lemma {:induction false} NearMore(a: real, n: nat, m: nat)
    requires Near(a, n) && n <= m
    ensures Near(a, m)
  {
    if n < m {
      assert DIFFERENCE * m as real == DIFFERENCE * n as real + DIFFERENCE * (m - n) as real;
    }
  }

  lemma {:induction false} WithinMore(l: Line, n: nat, m: nat)
    requires Within(l, n) && n <= m
    ensures Within(l, m)
  {
    hide Near;
    NearMore(l.start.x + Total(l.vectors).dx - l.end.x, n, m);
    NearMore(l.start.y + Total(l.vectors).dy - l.end.y, n, m);
  }

  lemma {:induction false} JoinedLeads(a: Line, b: Line)
    requires Leads(a) && Leads(b) && Same(a.end, b.start)
    ensures Leads(Joined(a, b))
  {
    hide Near;
    var s, t := Total(a.vectors), Total(b.vectors);
    AppendTotal(a.vectors, b.vectors);
    NearSum(a.start.x + s.dx - a.end.x, a.pieces - 1, b.start.x + t.dx - b.end.x, b.pieces - 1, a.end.x - b.start.x);
    NearSum(a.start.y + s.dy - a.end.y, a.pieces - 1, b.start.y + t.dy - b.end.y, b.pieces - 1, a.end.y - b.start.y);
  }

  lemma {:induction false} TurnedLeads(a: Line)
    requires Leads(a)
    ensures Leads(Turned(a))
  {
    FlippedTotal(a.vectors);
  }

  lemma {:induction false} FirstLeads(a: Line, s: Segment)
    ensures a.vectors == [] && a.pieces == 0 ==> Leads(Extended(a, s))
  {
    OneVector(Displacement(s));
    assert [] + [Displacement(s)] == [Displacement(s)];
  }

  lemma {:induction false} ExtendedLeads(a: Line, s: Segment)
    requires Leads(a) && Same(s.p1, a.end)
    ensures Leads(Extended(a, s))
  {
    OneVector(Displacement(s));
    JoinedLeads(a, Line(s.p1, s.p2, [Displacement(s)], 1));
  }

  // ---------------------------------------------------------------- class CContour

  class Contour {
    /** Empty until the first vector is added. */
    var vectors: seq<Vector>
    var start: Point
    var end: Point
    /** How many segments made this line. */
    ghost var pieces: nat

    ghost function Value(): Line
      reads this
    {
      Line(start, end, vectors, pieces)
    }

    /** What operations on lines that fit together keep. */
    ghost predicate Valid()
      reads this
    {
      Leads(Value())
    }

    constructor ()
      ensures vectors == [] && pieces == 0
    {
      vectors, pieces := [], 0;
      start, end := Point(0.0, 0.0), Point(0.0, 0.0);
    }

    /** CContour::add_vector. */
    method AddVector(p1: Point, p2: Point)
      modifies this
      ensures Value() == Extended(old(Value()), Segment(p1, p2))
      ensures old(vectors) == [] && old(pieces) == 0 ==> Valid()
      ensures old(Valid()) && Same(p1, old(end)) ==> Valid()
    {
      var v := Vector(p2.x - p1.x, p2.y - p1.y);
      hide Leads, Same;
      FirstLeads(Value(), Segment(p1, p2));
      if Valid() && Same(p1, end) {
        ExtendedLeads(Value(), Segment(p1, p2));
      }
      if vectors == [] {
        start := p1;
      }
      vectors := vectors + [v];
      end := p2;
      pieces := pieces + 1;
    }

    /** CContour::reverse. */
    method Reverse()
      modifies this
      ensures Value() == Turned(old(Value()))
      ensures old(Valid()) ==> Valid()
    {
      hide Leads, Flipped;
      if Valid() {
        TurnedLeads(Value());
      }
      FlippedNone();
      var t := end;
      end := start;
      start := t;
      var tmp := [];
      var k := 0;
      while k < |vectors|
        invariant k <= |vectors| && tmp == Flipped(vectors[..k])
        modifies {}
      {
        assert vectors[..k + 1] == vectors[..k] + [vectors[k]];
        FlippedOne(vectors[..k], vectors[k]);
        tmp := [Minus(vectors[k])] + tmp;
        k := k + 1;
      }
      assert vectors[..k] == vectors;
      vectors := tmp;
    }

    /** CContour::merge: the other line's vectors behind one's own. */
    method Merge(c: Contour)
      requires c != this && vectors != [] && c.vectors != []
      modifies this
      ensures Value() == Joined(old(Value()), c.Value())
      ensures old(Valid()) && c.Valid() && Same(old(end), c.start) ==> Valid()
    {
      if Valid() && c.Valid() && Same(end, c.start) {
        JoinedLeads(Value(), c.Value());
      }
      vectors := vectors + c.vectors;
      end := c.end;
      pieces := pieces + c.pieces;
    }

    /** CContour::condense. */
    method Condense(difference: real)
      requires vectors != []
      modifies this`vectors
      ensures vectors == Condensed(old(vectors), 0, difference) && vectors != []
      ensures Total(vectors) == Total(old(vectors))
      ensures old(Valid()) ==> Valid()
    {
      CondensedTotal(vectors, 0, difference);
      var i := 0;
      while i + 1 < |vectors|
        invariant i < |vectors| && Condensed(vectors, i, difference) == Condensed(old(vectors), 0, difference)
        decreases |vectors| - i
      {
        if Condensable(vectors[i], vectors[i + 1], difference) {
          vectors := vectors[..i] + [Plus(vectors[i], vectors[i + 1])] + vectors[i + 2..];
        } else {
          i := i + 1;
        }
      }
    }
  }

  // ---------------------------------------------------------------- several lines

  /** What lines are made of: their vectors up to sign, and the number of segments that were joined. */
  datatype Content = Content(bag: multiset<Vector>, pieces: nat)

  const NOTHING := Content(multiset{}, 0)

  function Both(a: Content, b: Content): Content
  {
    Content(a.bag + b.bag, a.pieces + b.pieces)
  }

  function OfLine(l: Line): Content
  {
    Content(Bag(l.vectors), l.pieces)
  }

  function All(ls: seq<Line>): Content
  {
    if ls == [] then NOTHING else Both(All(ls[..|ls| - 1]), OfLine(ls[|ls| - 1]))
  }

  lemma {:induction false} BothAssoc(a: Content, b: Content, c: Content)
    ensures Both(Both(a, b), c) == Both(a, Both(b, c))
  {
    SumAssoc(a.bag, b.bag, c.bag);
  }

  lemma {:induction false} BothSwap(a: Content, b: Content, c: Content)
    ensures Both(Both(a, b), c) == Both(Both(a, c), b)
  {
    SumSwap(a.bag, b.bag, c.bag);
  }

  lemma {:induction false} AllOne(ls: seq<Line>, l: Line)
    ensures All(ls + [l]) == Both(All(ls), OfLine(l))
  {
    assert (ls + [l])[..|ls|] == ls;
  }

  lemma {:induction false} AllAppend(a: seq<Line>, b: seq<Line>)
    ensures All(a + b) == Both(All(a), All(b))
    decreases |b|
  {
    hide All, OfLine, Both;
    if b == [] {
      AllNone(a, b);
    } else {
      var n := |b| - 1;
      AllAppend(a, b[..n]);
      AllStep(a, b[..n], b[n]);
      assert b == b[..n] + [b[n]];
    }
  }

  lemma {:induction false} AllNone(a: seq<Line>, b: seq<Line>)
    requires b == []
    ensures All(a + b) == Both(All(a), All(b))
  {
    assert a + b == a;
    assert All(b) == NOTHING;
  }

  lemma {:induction false} AllStep(a: seq<Line>, b: seq<Line>, l: Line)
    requires All(a + b) == Both(All(a), All(b))
    ensures All(a + (b + [l])) == Both(All(a), All(b + [l]))
  {
    hide All, OfLine, Both;
    assert a + (b + [l]) == (a + b) + [l];
    AllOne(a + b, l);
    AllOne(b, l);
    BothAssoc(All(a), All(b), OfLine(l));
  }

  /** One line taken out. */
  lemma {:induction false} AllWithout(ls: seq<Line>, j: nat)
    requires j < |ls|
    ensures All(ls) == Both(All(ls[..j] + ls[j + 1..]), OfLine(ls[j]))
  {
    hide All, OfLine, Both;
    var a, b := ls[..j], ls[j + 1..];
    assert ls == (a + [ls[j]]) + b;
    AllAppend(a + [ls[j]], b);
    AllOne(a, ls[j]);
    AllAppend(a, b);
    BothSwap(All(a), OfLine(ls[j]), All(b));
  }

  lemma {:induction false} SumSwap(a: multiset<Vector>, b: multiset<Vector>, c: multiset<Vector>)
    ensures (a + b) + c == (a + c) + b
  {
  }

  /** Two lines replaced by one with the content of both. */
  lemma {:induction false} AllJoined(ls: seq<Line>, i: nat, j: nat, l: Line)
    requires i < j < |ls| && OfLine(l) == Both(OfLine(ls[i]), OfLine(ls[j]))
    ensures var ls' := ls[i := l][..j] + ls[j + 1..];
            |ls'| == |ls| - 1 && All(ls') == All(ls)
  {
    hide All, OfLine, Both;
    var without := ls[..j] + ls[j + 1..];
    var ls' := ls[i := l][..j] + ls[j + 1..];
    AllWithout(ls, j);
    AllWithout(without, i);
    AllWithout(ls', i);
    assert ls'[..i] + ls'[i + 1..] == without[..i] + without[i + 1..];
    assert without[i] == ls[i] && ls'[i] == l;
    BothAssoc(All(without[..i] + without[i + 1..]), OfLine(ls[i]), OfLine(ls[j]));
  }

  function Displacements(raw: seq<Segment>): (vs: seq<Vector>)
    ensures |vs| == |raw| && forall i :: 0 <= i < |raw| ==> vs[i] == Displacement(raw[i])
  {
    seq(|raw|, i requires 0 <= i < |raw| => Displacement(raw[i]))
  }

  /** What the displacements of segments amount to. */
  function BagOf(raw: seq<Segment>): multiset<Vector>
  {
    Bag(Displacements(raw))
  }

  function OfSegments(raw: seq<Segment>): Content
  {
    Content(BagOf(raw), |raw|)
  }

  lemma {:induction false} BagWithout(vs: seq<Vector>, i: nat)
    requires i < |vs|
    ensures Bag(vs) == Bag(vs[..i] + vs[i + 1..]) + multiset{Canon(vs[i])}
  {
    hide Bag, Canon;
    var a, b := vs[..i], vs[i + 1..];
    assert vs == (a + [vs[i]]) + b;
    AppendBag(a + [vs[i]], b);
    AppendBag(a, b);
    AppendOne(a, vs[i]);
    SumSwap(Bag(a), multiset{Canon(vs[i])}, Bag(b));
  }

  /** One segment taken out. */
  lemma {:induction false} SegmentsWithout(raw: seq<Segment>, i: nat)
    requires i < |raw|
    ensures BagOf(raw) == BagOf(raw[..i] + raw[i + 1..]) + multiset{Canon(Displacement(raw[i]))}
  {
    hide Bag, Canon;
    var vs := Displacements(raw);
    BagWithout(vs, i);
    assert vs[..i] + vs[i + 1..] == Displacements(raw[..i] + raw[i + 1..]);
  }

  // ---------------------------------------------------------------- sorting

  /** What operator < on points, and on segments by their first points, compares. */
  function Key(s: Segment): real
  {
    s.p1.x * 4294967295.0 + s.p1.y
  }

  predicate Ordered(ss: seq<Segment>)
  {
    forall i, j :: 0 <= i < j < |ss| ==> Key(ss[i]) <= Key(ss[j])
  }

  lemma {:induction false} MultisetWithout(b: seq<Segment>, i: nat)
    requires i < |b|
    ensures multiset(b) == multiset(b[..i] + b[i + 1..]) + multiset{b[i]}
  {
    assert b == (b[..i] + [b[i]]) + b[i + 1..];
  }

  /** Two arrangements of the same segments, without the last one of the first. */
  lemma {:induction false} WithoutLast(a: seq<Segment>, b: seq<Segment>) returns (i: nat)
    requires multiset(a) == multiset(b) && a != []
    ensures i < |b| && b[i] == a[|a| - 1] && multiset(a[..|a| - 1]) == multiset(b[..i] + b[i + 1..])
  {
    var s := a[|a| - 1];
    assert s in multiset(a);
    assert s in b;
    i :| i < |b| && b[i] == s;
    MultisetWithout(b, i);
    MultisetWithout(a, |a| - 1);
    assert a[..|a| - 1] + a[|a| - 1 + 1..] == a[..|a| - 1];
    SameWithoutOne(multiset(a[..|a| - 1]), multiset(b[..i] + b[i + 1..]), s);
  }

  lemma {:induction false} SameWithoutOne(a: multiset<Segment>, b: multiset<Segment>, s: Segment)
    requires a + multiset{s} == b + multiset{s}
    ensures a == b
  {
    assert a == (a + multiset{s}) - multiset{s};
    assert b == (b + multiset{s}) - multiset{s};
  }

  /** Rearranging segments keeps what they amount to. */
  lemma {:induction false} RearrangedBag(a: seq<Segment>, b: seq<Segment>)
    requires multiset(a) == multiset(b)
    ensures BagOf(a) == BagOf(b) && |a| == |b|
    decreases |a|
  {
    hide BagOf, Canon;
    SameSize(a, b);
    if a == [] {
      assert a == b;
    } else {
      var i := WithoutLast(a, b);
      RearrangedBag(a[..|a| - 1], b[..i] + b[i + 1..]);
      SegmentsWithout(a, |a| - 1);
      SegmentsWithout(b, i);
      assert a[..|a| - 1] + a[|a| - 1 + 1..] == a[..|a| - 1];
    }
  }

  lemma {:induction false} SameSize(a: seq<Segment>, b: seq<Segment>)
    requires multiset(a) == multiset(b)
    ensures |a| == |b|
  {
    assert |multiset(a)| == |a| && |multiset(b)| == |b|;
  }

  lemma {:induction false} Inserted(sorted: seq<Segment>, i: nat, s: Segment)
    requires i <= |sorted| && Ordered(sorted)
    requires i == 0 || Key(sorted[i - 1]) <= Key(s)
    requires forall k :: i <= k < |sorted| ==> Key(s) < Key(sorted[k])
    ensures Ordered(sorted[..i] + [s] + sorted[i..])
  {
    hide Key;
    var r := sorted[..i] + [s] + sorted[i..];
    forall k, l | 0 <= k < l < |r|
      ensures Key(r[k]) <= Key(r[l])
    {
      if k < i {
        assert Key(sorted[k]) <= Key(sorted[i - 1]);
      }
    }
  }

  lemma {:induction false} InsertedBag(sorted: seq<Segment>, i: nat, s: Segment)
    requires i <= |sorted|
    ensures multiset(sorted[..i] + [s] + sorted[i..]) == multiset(sorted) + multiset{s}
  {
    assert sorted == sorted[..i] + sorted[i..];
  }

  method Insert(s: Segment, sorted: seq<Segment>) returns (r: seq<Segment>)
    requires Ordered(sorted)
    ensures Ordered(r) && multiset(r) == multiset(sorted) + multiset{s}
  {
    hide Key, Ordered;
    var i := |sorted|;
    while 0 < i && Key(s) < Key(sorted[i - 1])
      invariant 0 <= i <= |sorted| && forall k :: i <= k < |sorted| ==> Key(s) < Key(sorted[k])
    {
      i := i - 1;
    }
    Inserted(sorted, i, s);
    InsertedBag(sorted, i, s);
    r := sorted[..i] + [s] + sorted[i..];
  }

  /** std::sort. Its callers know no more than this: it leaves open how segments with equal keys are ordered. */
  method Sort(raw: seq<Segment>) returns (sorted: seq<Segment>)
    ensures Ordered(sorted) && multiset(sorted) == multiset(raw)
  {
    hide Key, Ordered;
    sorted := [];
    NothingOrdered();
    var n := 0;
    while n < |raw|
      invariant n <= |raw| && Ordered(sorted) && multiset(sorted) == multiset(raw[..n])
    {
      assert raw[..n + 1] == raw[..n] + [raw[n]];
      sorted := Insert(raw[n], sorted);
      n := n + 1;
    }
    assert raw[..n] == raw;
  }

  lemma {:induction false} NothingOrdered()
    ensures Ordered([])
  {
  }

  /** The values of line objects. */
  ghost function Values(cs: seq<Contour>): (ls: seq<Line>)
    reads cs
    ensures |ls| == |cs| && forall i :: 0 <= i < |cs| ==> ls[i] == cs[i].Value()
  {
    if cs == [] then [] else Values(cs[..|cs| - 1]) + [cs[|cs| - 1].Value()]
  }

  predicate Distinct(cs: seq<Contour>)
  {
    forall i, j :: 0 <= i < j < |cs| ==> cs[i] != cs[j]
  }

  ghost predicate ValidLines(cs: seq<Contour>)
    reads cs
  {
    Distinct(cs) && forall i :: 0 <= i < |cs| ==> cs[i].Valid()
  }

  // ---------------------------------------------------------------- chaining, as a function of the segments

  /** A line takes up segments that start where it ends, each time the first such one; and what is left. */
  function ChainFrom(l: Line, rest: seq<Segment>, it: nat): (r: (Line, seq<Segment>))
    ensures |r.1| <= |rest|
    decreases |rest|, |rest| - it
  {
    if it >= |rest| then (l, rest)
    else if Same(rest[it].p1, l.end) then ChainFrom(Extended(l, rest[it]), rest[..it] + rest[it + 1..], 0)
    else ChainFrom(l, rest, it + 1)
  }

  /** The line that starts with the first segment. */
  function ChainOf(raw: seq<Segment>): (r: (Line, seq<Segment>))
    requires raw != []
    ensures |r.1| < |raw|
  {
    ChainFrom(Line(raw[0].p1, raw[0].p2, [Displacement(raw[0])], 1), raw[1..], 0)
  }

  /** All lines that segments are chained into. */
  function ChainsOf(raw: seq<Segment>): seq<Line>
    decreases |raw|
  {
    if raw == [] then [] else [ChainOf(raw).0] + ChainsOf(ChainOf(raw).1)
  }

  // ---------------------------------------------------------------- merging, as a function of the lines

  /** Some end of one line is some end of the other. */
  predicate Meet(a: Line, b: Line)
  {
    Same(a.end, b.start) || Same(b.end, a.start) || Same(a.end, b.end) || Same(a.start, b.start)
  }

  datatype Join = Apart | Into(line: Line, restart: bool)

  /** What merge makes of a line and a later one; only lines joined at their starts do not restart the search. */
  function JoinOf(a: Line, b: Line): Join
  {
    if Same(a.end, b.start) then Into(Joined(a, b), true)
    else if Same(b.end, a.start) then Into(Joined(b, a), true)
    else if Same(a.end, b.end) then Into(Joined(a, Turned(b)), true)
    else if Same(a.start, b.start) then Into(Joined(Turned(a), b), false)
    else Apart
  }

  /** Line `it` is replaced, line `jt` erased. */
  function Replaced(ls: seq<Line>, it: nat, jt: nat, l: Line): (r: seq<Line>)
    requires it < jt < |ls|
    ensures |r| == |ls| - 1
    ensures forall k :: 0 <= k < |r| ==> r[k] == (if k == it then l else if k < jt then ls[k] else ls[k + 1])
  {
    ls[it := l][..jt] + ls[jt + 1..]
  }

  /**
    The lines left; for each the index up to which later lines had been passed over when it was last joined without
    starting anew, which is the next index if there was no such join; and how many joins were made at two starts.
  */
  datatype Merged = Merged(lines: seq<Line>, bars: seq<nat>, atStarts: nat)

  /** The two loops of merge, from lines `it` and `jt` on. */
  function MergeFrom(ls: seq<Line>, it: nat, jt: nat, bars: seq<nat>, bar: nat, atStarts: nat): Merged
    requires it < jt <= |ls| || it == |ls|
    decreases |ls|, |ls| - it, |ls| - jt
  {
    if it >= |ls| then Merged(ls, bars, atStarts)
    else if jt >= |ls| then MergeFrom(ls, it + 1, it + 2, bars + [bar], it + 2, atStarts)
    else
      match JoinOf(ls[it], ls[jt])
      case Apart => MergeFrom(ls, it, jt + 1, bars, bar, atStarts)
      case Into(l, true) => MergeFrom(Replaced(ls, it, jt, l), it, it + 1, bars, it + 1, atStarts)
      case Into(l, false) => MergeFrom(Replaced(ls, it, jt, l), it, jt, bars, jt, atStarts + 1)
  }

  function MergeOf(ls: seq<Line>): Merged
  {
    MergeFrom(ls, 0, 1, [], 1, 0)
  }

  /** The ends of a joined line are ends of the two lines. */
  lemma {:induction false} JoinEnds(a: Line, b: Line, x: Line)
    requires JoinOf(a, b).Into? && Meet(x, JoinOf(a, b).line)
    ensures Meet(x, a) || Meet(x, b)
  {
  }

  lemma {:induction false} JoinIffMeet(a: Line, b: Line)
    ensures JoinOf(a, b).Into? <==> Meet(a, b)
  {
  }

  /** What is known of the lines before `it`: only lines that were passed over may still meet them. */
  predicate Settled(ls: seq<Line>, it: nat, bars: seq<nat>)
  {
    it == |bars| && it <= |ls| && forall a, b :: 0 <= a < it && a < b < |ls| && Meet(ls[a], ls[b]) ==> b < bars[a]
  }

  /** Line `it` has been compared with the lines from `bar` to `jt` as it is now. */
  predicate Compared(ls: seq<Line>, it: nat, jt: nat, bar: nat)
  {
    it < |ls| ==> it < bar && jt <= |ls| && forall b :: bar <= b < jt ==> !Meet(ls[it], ls[b])
  }

  lemma {:induction false} SettledJoin(ls: seq<Line>, it: nat, jt: nat, bars: seq<nat>)
    requires Settled(ls, it, bars) && it < jt < |ls| && JoinOf(ls[it], ls[jt]).Into?
    ensures Settled(Replaced(ls, it, jt, JoinOf(ls[it], ls[jt]).line), it, bars)
  {
    hide Meet, JoinOf;
    var l := JoinOf(ls[it], ls[jt]).line;
    var r := Replaced(ls, it, jt, l);
    forall a, b | 0 <= a < it && a < b < |r| && Meet(r[a], r[b])
      ensures b < bars[a]
    {
      if b == it {
        JoinEnds(ls[it], ls[jt], ls[a]);
      }
    }
  }

  lemma {:induction false} ReplacedAt(ls: seq<Line>, it: nat, jt: nat, l: Line)
    requires it < jt < |ls|
    ensures var r := Replaced(ls, it, jt, l);
            && |r| == |ls| - 1
            && forall k :: 0 <= k < |r| ==> r[k] == (if k == it then l else if k < jt then ls[k] else ls[k + 1])
  {
  }

  lemma {:induction false} SettledRow(ls: seq<Line>, it: nat, bars: seq<nat>, bar: nat)
    requires Settled(ls, it, bars) && it < |ls| && Compared(ls, it, |ls|, bar)
    ensures Settled(ls, it + 1, bars + [bar]) && Compared(ls, it + 1, it + 2, it + 2)
  {
    hide Meet;
  }

  /** When merging is done two lines meet only if the later one had been passed over. */
  lemma {:induction false} MergedSettled(ls: seq<Line>, it: nat, jt: nat, bars: seq<nat>, bar: nat, atStarts: nat)
    requires it < jt <= |ls| || it == |ls|
    requires Settled(ls, it, bars) && Compared(ls, it, jt, bar)
    ensures var m := MergeFrom(ls, it, jt, bars, bar, atStarts);
            Settled(m.lines, |m.lines|, m.bars) && |m.lines| <= |ls| && atStarts <= m.atStarts
    decreases |ls|, |ls| - it, |ls| - jt
  {
    hide Meet, JoinOf, Replaced, Settled;
    if it >= |ls| {
      SettledAll(ls, it, bars);
    } else if jt >= |ls| {
      SettledRow(ls, it, bars, bar);
      MergedSettled(ls, it + 1, it + 2, bars + [bar], it + 2, atStarts);
    } else {
      JoinIffMeet(ls[it], ls[jt]);
      match JoinOf(ls[it], ls[jt])
      case Apart => MergedSettled(ls, it, jt + 1, bars, bar, atStarts);
      case Into(l, restart) =>
        SettledJoin(ls, it, jt, bars);
        ReplacedAt(ls, it, jt, l);
        if restart {
          MergedSettled(Replaced(ls, it, jt, l), it, it + 1, bars, it + 1, atStarts);
        } else {
          MergedSettled(Replaced(ls, it, jt, l), it, jt, bars, jt, atStarts + 1);
        }
    }
  }

  lemma {:induction false} SettledAll(ls: seq<Line>, it: nat, bars: seq<nat>)
    requires Settled(ls, it, bars) && |ls| <= it
    ensures it == |ls|
  {
  }

  /** Without joins at two starts nothing has been passed over. */
  predicate Firm(bars: seq<nat>)
  {
    forall a :: 0 <= a < |bars| ==> bars[a] == a + 1
  }

  lemma {:induction false} MergedFirm(ls: seq<Line>, it: nat, jt: nat, bars: seq<nat>, bar: nat, atStarts: nat)
    requires it < jt <= |ls| || it == |ls|
    requires (it < |ls| ==> it == |bars| && bar == it + 1) && Firm(bars)
    requires MergeFrom(ls, it, jt, bars, bar, atStarts).atStarts == atStarts
    ensures Firm(MergeFrom(ls, it, jt, bars, bar, atStarts).bars)
    decreases |ls|, |ls| - it, |ls| - jt
  {
    hide Meet, JoinOf, Replaced;
    if it < |ls| {
      if jt >= |ls| {
        MergedFirm(ls, it + 1, it + 2, bars + [bar], it + 2, atStarts);
      } else {
        match JoinOf(ls[it], ls[jt])
        case Apart => MergedFirm(ls, it, jt + 1, bars, bar, atStarts);
        case Into(l, restart) =>
          ReplacedAt(ls, it, jt, l);
          if restart {
            MergedFirm(Replaced(ls, it, jt, l), it, it + 1, bars, it + 1, atStarts);
          } else {
            StartsCount(Replaced(ls, it, jt, l), it, jt, bars, jt, atStarts + 1);
          }
      }
    }
  }

  lemma {:induction false} StartsCount(ls: seq<Line>, it: nat, jt: nat, bars: seq<nat>, bar: nat, atStarts: nat)
    requires it < jt <= |ls| || it == |ls|
    ensures var m := MergeFrom(ls, it, jt, bars, bar, atStarts);
            atStarts <= m.atStarts && |m.lines| <= |ls|
    decreases |ls|, |ls| - it, |ls| - jt
  {
    hide JoinOf, Replaced;
    if it < |ls| {
      if jt >= |ls| {
        StartsCount(ls, it + 1, it + 2, bars + [bar], it + 2, atStarts);
      } else {
        match JoinOf(ls[it], ls[jt])
        case Apart => StartsCount(ls, it, jt + 1, bars, bar, atStarts);
        case Into(l, restart) =>
          ReplacedAt(ls, it, jt, l);
          if restart {
            StartsCount(Replaced(ls, it, jt, l), it, it + 1, bars, it + 1, atStarts);
          } else {
            StartsCount(Replaced(ls, it, jt, l), it, jt, bars, jt, atStarts + 1);
          }
      }
    }
  }

  /** No two of the lines meet. */
  predicate NoneMeet(ls: seq<Line>)
  {
    forall a, b :: 0 <= a < b < |ls| ==> !Meet(ls[a], ls[b])
  }

  /** Which of the remaining lines can meet: none if no two were joined at their starts, else lines passed over. */
  lemma {:induction false} WhichStillMeet(ls: seq<Line>)
    ensures var m := MergeOf(ls);
            && |m.bars| == |m.lines|
            && (forall a, b :: 0 <= a < b < |m.lines| && Meet(m.lines[a], m.lines[b]) ==> b < m.bars[a])
            && (m.atStarts == 0 ==> NoneMeet(m.lines))
  {
    hide Meet, MergeFrom;
    if ls == [] {
      NothingMerged();
    } else {
      MergedSettled(ls, 0, 1, [], 1, 0);
      if MergeOf(ls).atStarts == 0 {
        MergedFirm(ls, 0, 1, [], 1, 0);
      }
    }
  }

  lemma {:induction false} FewLines(ls: seq<Line>)
    requires |ls| < 2
    ensures MergeOf(ls).lines == ls
  {
    if |ls| == 1 {
      assert MergeFrom(ls, 0, 1, [], 1, 0) == MergeFrom(ls, 1, 2, [1], 2, 0);
    }
  }

  lemma {:induction false} MergeStep(ls: seq<Line>, it: nat, jt: nat, bars: seq<nat>, bar: nat, atStarts: nat)
    requires it < jt < |ls|
    ensures MergeFrom(ls, it, jt, bars, bar, atStarts)
         == match JoinOf(ls[it], ls[jt])
            case Apart => MergeFrom(ls, it, jt + 1, bars, bar, atStarts)
            case Into(l, true) => MergeFrom(Replaced(ls, it, jt, l), it, it + 1, bars, it + 1, atStarts)
            case Into(l, false) => MergeFrom(Replaced(ls, it, jt, l), it, jt, bars, jt, atStarts + 1)
  {
  }

  lemma {:induction false} RowDone(ls: seq<Line>, it: nat, bars: seq<nat>, bar: nat, atStarts: nat)
    requires it < |ls|
    ensures MergeFrom(ls, it, |ls|, bars, bar, atStarts)
         == MergeFrom(ls, it + 1, it + 2, bars + [bar], it + 2, atStarts)
  {
  }

  lemma {:induction false} NoneLeft(ls: seq<Line>, it: nat, bars: seq<nat>, atStarts: nat)
    requires it == |ls|
    ensures MergeFrom(ls, it, it + 1, bars, it + 1, atStarts) == Merged(ls, bars, atStarts)
  {
  }

  lemma {:induction false} NothingMerged()
    ensures MergeFrom([], 0, 1, [], 1, 0) == Merged([], [], 0)
  {
  }

  /** As long as no two starts are the same, no join is made at two starts. */
  predicate StartsDiffer(ls: seq<Line>)
  {
    forall a, b :: 0 <= a < b < |ls| ==> !Same(ls[a].start, ls[b].start)
  }

  lemma {:induction false} StartsDifferJoin(ls: seq<Line>, it: nat, jt: nat)
    requires StartsDiffer(ls) && it < jt < |ls| && JoinOf(ls[it], ls[jt]).Into?
    ensures JoinOf(ls[it], ls[jt]).restart && StartsDiffer(Replaced(ls, it, jt, JoinOf(ls[it], ls[jt]).line))
  {
    hide Same;
    var l := JoinOf(ls[it], ls[jt]).line;
    assert l.start == ls[it].start || l.start == ls[jt].start;
    SameSymmetric();
    var r := Replaced(ls, it, jt, l);
    forall a, b | 0 <= a < b < |r|
      ensures !Same(r[a].start, r[b].start)
    {
      var x := if a == it && l.start == ls[jt].start then jt else if a < jt then a else a + 1;
      var y := if b == it && l.start == ls[jt].start then jt else if b < jt then b else b + 1;
      assert r[a].start == ls[x].start && r[b].start == ls[y].start && x != y;
    }
  }

  lemma {:induction false} SameSymmetric()
    ensures forall p, q :: Same(p, q) <==> Same(q, p)
  {
  }

  lemma {:induction false} MergedWithoutStarts(ls: seq<Line>, it: nat, jt: nat, bars: seq<nat>, bar: nat, atStarts: nat)
    requires (it < jt <= |ls| || it == |ls|) && StartsDiffer(ls)
    ensures MergeFrom(ls, it, jt, bars, bar, atStarts).atStarts == atStarts
    decreases |ls|, |ls| - it, |ls| - jt
  {
    hide JoinOf, Replaced, StartsDiffer;
    if it < |ls| {
      if jt >= |ls| {
        MergedWithoutStarts(ls, it + 1, it + 2, bars + [bar], it + 2, atStarts);
      } else {
        match JoinOf(ls[it], ls[jt])
        case Apart => MergedWithoutStarts(ls, it, jt + 1, bars, bar, atStarts);
        case Into(l, restart) =>
          StartsDifferJoin(ls, it, jt);
          ReplacedAt(ls, it, jt, l);
          MergedWithoutStarts(Replaced(ls, it, jt, l), it, it + 1, bars, it + 1, atStarts);
      }
    }
  }

  /** Lines that all start at different points are merged until no two meet. */
  lemma {:induction false} DifferentStartsMerge(ls: seq<Line>)
    requires StartsDiffer(ls)
    ensures NoneMeet(MergeOf(ls).lines)
  {
    hide NoneMeet, MergeFrom, Meet;
    WhichStillMeet(ls);
    if ls == [] {
      NothingMerged();
    } else {
      MergedWithoutStarts(ls, 0, 1, [], 1, 0);
    }
  }

  lemma {:induction false} UnmergedApart(ls: seq<Line>, it: nat, jt: nat, bars: seq<nat>, bar: nat, atStarts: nat,
      a: nat, b: nat)
    requires it < jt <= |ls| || it == |ls|
    requires |MergeFrom(ls, it, jt, bars, bar, atStarts).lines| == |ls|
    requires a < b < |ls| && (it < a || (it == a && jt <= b))
    ensures !Meet(ls[a], ls[b])
    decreases |ls|, |ls| - it, |ls| - jt
  {
    hide JoinOf, Replaced, Meet;
    if jt >= |ls| {
      UnmergedApart(ls, it + 1, it + 2, bars + [bar], it + 2, atStarts, a, b);
    } else {
      JoinIffMeet(ls[it], ls[jt]);
      match JoinOf(ls[it], ls[jt])
      case Apart =>
        if !(a == it && b == jt) {
          UnmergedApart(ls, it, jt + 1, bars, bar, atStarts, a, b);
        }
      case Into(l, restart) =>
        ReplacedAt(ls, it, jt, l);
        if restart {
          StartsCount(Replaced(ls, it, jt, l), it, it + 1, bars, it + 1, atStarts);
        } else {
          StartsCount(Replaced(ls, it, jt, l), it, jt, bars, jt, atStarts + 1);
        }
    }
  }

  lemma {:induction false} ApartUnmerged(ls: seq<Line>, it: nat, jt: nat, bars: seq<nat>, bar: nat, atStarts: nat)
    requires (it < jt <= |ls| || it == |ls|) && NoneMeet(ls)
    ensures MergeFrom(ls, it, jt, bars, bar, atStarts).lines == ls
    decreases |ls|, |ls| - it, |ls| - jt
  {
    hide JoinOf, Replaced, Meet;
    if it < |ls| {
      if jt >= |ls| {
        ApartUnmerged(ls, it + 1, it + 2, bars + [bar], it + 2, atStarts);
      } else {
        JoinIffMeet(ls[it], ls[jt]);
        ApartUnmerged(ls, it, jt + 1, bars, bar, atStarts);
      }
    }
  }

  /** Nothing disappears exactly if no two lines meet. */
  lemma {:induction false} MergesIffMeet(ls: seq<Line>)
    ensures |MergeOf(ls).lines| == |ls| <==> NoneMeet(ls)
    ensures NoneMeet(ls) ==> MergeOf(ls).lines == ls
  {
    hide Meet, MergeFrom;
    if ls == [] {
      NothingMerged();
    } else {
      if NoneMeet(ls) {
        ApartUnmerged(ls, 0, 1, [], 1, 0);
      }
      if |MergeOf(ls).lines| == |ls| {
        forall a, b | 0 <= a < b < |ls|
          ensures !Meet(ls[a], ls[b])
        {
          UnmergedApart(ls, 0, 1, [], 1, 0, a, b);
        }
      }
    }
  }

  /** Lines, condensed or not, of which two meet only if the later one had been passed over. */
  predicate StillMeet(ls: seq<Line>, m: Merged)
  {
    && |ls| == |m.bars| && (m.atStarts == 0 ==> NoneMeet(ls))
    && forall a, b :: 0 <= a < b < |ls| && Meet(ls[a], ls[b]) ==> b < m.bars[a]
  }

  /** What consolidate does with the lines there were and those made of the segments; `c` is the number gained. */
  predicate Gathered(before: seq<Line>, made: seq<Line>, c: int, chains: seq<Line>, ls: seq<Line>)
  {
    var m := MergeOf(before + made);
    && chains == m.lines && c <= |made| && (c == |made| <==> NoneMeet(before + made)) && StillMeet(ls, m)
  }

  lemma {:induction false} GatheredAndCondensed(before: seq<Line>, made: seq<Line>, c: int, chains: seq<Line>,
      ls: seq<Line>, difference: real)
    requires chains == MergeOf(before + made).lines && c == |chains| - |before| && |ls| == |chains|
    requires forall k :: 0 <= k < |ls| ==> ls[k] == CondensedLine(chains[k], difference)
    ensures Gathered(before, made, c, chains, ls)
  {
    hide MergeFrom, NoneMeet, StillMeet, CondensedLine;
    MergesIffMeet(before + made);
    StillMeetCondensed(before + made, ls, difference);
    MergedFewer(before + made);
  }

  lemma {:induction false} MergedFewer(ls: seq<Line>)
    ensures |MergeOf(ls).lines| <= |ls|
  {
    if ls == [] {
      NothingMerged();
    } else {
      StartsCount(ls, 0, 1, [], 1, 0);
    }
  }

  lemma {:induction false} StillMeetCondensed(chained: seq<Line>, ls: seq<Line>, difference: real)
    requires |ls| == |MergeOf(chained).lines|
    requires forall k :: 0 <= k < |ls| ==> ls[k] == CondensedLine(MergeOf(chained).lines[k], difference)
    ensures StillMeet(ls, MergeOf(chained))
  {
    hide MergeFrom, Meet, Condensed;
    var m := MergeOf(chained);
    WhichStillMeet(chained);
    forall a, b | 0 <= a < b < |ls|
      ensures Meet(ls[a], ls[b]) <==> Meet(m.lines[a], m.lines[b])
    {
      MeetByEnds(ls[a], ls[b], m.lines[a], m.lines[b]);
    }
  }

  lemma {:induction false} MeetByEnds(a: Line, b: Line, x: Line, y: Line)
    requires a.start == x.start && a.end == x.end && b.start == y.start && b.end == y.end
    ensures Meet(a, b) <==> Meet(x, y)
  {
  }

  function Straight(p: Point, q: Point): Line
  {
    Line(p, q, [Displacement(Segment(p, q))], 1)
  }

  /** Three lines of which the first and the third start together: the second was passed over and is not joined. */
  lemma {:induction false} StillMeeting()
    ensures var a, b, c, d := Point(0.0, 0.0), Point(1.0, 0.0), Point(5.0, 5.0), Point(6.0, 6.0);
            var m := MergeOf([Straight(a, b), Straight(c, d), Straight(a, c)]);
            |m.lines| == 2 && Meet(m.lines[0], m.lines[1]) && m.bars == [2, 2]
  {
    var a, b, c, d := Point(0.0, 0.0), Point(1.0, 0.0), Point(5.0, 5.0), Point(6.0, 6.0);
    var x, y, z := Straight(a, b), Straight(c, d), Straight(a, c);
    var l := Joined(Turned(x), z);
    assert JoinOf(x, y) == Apart && JoinOf(x, z) == Into(l, false) && JoinOf(l, y).Into?;
    JoinIffMeet(l, y);
    assert Meet(l, y);
    hide *;
    PassedOver(x, y, z, l);
    assert MergeOf([x, y, z]).lines[0] == l && MergeOf([x, y, z]).lines[1] == y;
  }

  lemma {:induction false} PassedOver(x: Line, y: Line, z: Line, l: Line)
    requires JoinOf(x, y) == Apart && JoinOf(x, z) == Into(l, false)
    ensures MergeOf([x, y, z]) == Merged([l, y], [2, 2], 1)
  {
    hide JoinOf, MergeFrom;
    var ls, r := [x, y, z], [l, y];
    assert Replaced(ls, 0, 2, l) == r;
    MergeStep(ls, 0, 1, [], 1, 0);
    MergeStep(ls, 0, 2, [], 1, 0);
    RowDone(r, 0, [], 2, 1);
    RowDone(r, 1, [2], 2, 1);
    NoneLeft(r, 2, [2] + [2], 1);
    assert [] + [2] == [2] && [2] + [2] == [2, 2];
  }

  // ---------------------------------------------------------------- class CContourLevel

  class ContourLevel {
    var raw: Option<seq<Segment>>
    var lines: seq<Contour>

    /** Every line leads from its start to its end, within one join less than the segments it is made of. */
    ghost predicate Valid()
      reads this, lines
    {
      ValidLines(lines)
    }

    constructor ()
      ensures Valid() && raw == None && lines == []
    {
      raw, lines := None, [];
    }

    /** One line of the list takes over another's vectors. */
    method MergeTwo(x: nat, y: nat)
      requires Valid() && x < |lines| && y < |lines| && x != y && Same(lines[x].end, lines[y].start)
      modifies lines[x]
      ensures Valid() && Values(lines) == old(Values(lines))[x := Joined(old(lines[x].Value()), old(lines[y].Value()))]
    {
      hide Within, Same;
      ghost var ls := Values(lines);
      lines[x].Merge(lines[y]);
      assert Values(lines) == ls[x := lines[x].Value()];
    }

    /** The result stands at `it`, and `jt` is erased. */
    method Absorb(it: nat, jt: nat, x: nat, y: nat)
      requires Valid() && it < jt < |lines| && ((x == it && y == jt) || (x == jt && y == it))
      requires Same(lines[x].end, lines[y].start)
      modifies this`lines, lines[x]
      ensures Valid() && |lines| == old(|lines|) - 1
      ensures lines == Picked(old(lines), it, jt, x) && forall i :: 0 <= i < |lines| ==> lines[i] in old(lines)
      ensures All(Values(lines)) == old(All(Values(lines)))
      ensures Values(lines)
              == Replaced(old(Values(lines)), it, jt, Joined(old(lines[x].Value()), old(lines[y].Value())))
    {
      hide All, OfLine, Both, ValidLines, Values;
      ghost var ls := Values(lines);
      ValuesAre(lines);
      MergeTwo(x, y);
      JoinedContent(ls[x], ls[y]);
      AllJoined(ls, it, jt, Joined(ls[x], ls[y]));
      PickedLines(lines, it, jt, x);
      PickedJoined(ls, it, jt, x, Joined(ls[x], ls[y]));
      lines := Picked(lines, it, jt, x);
    }

    /** A line of the list is walked backwards. */
    method Turn(k: nat)
      requires Valid() && k < |lines|
      modifies lines[k]
      ensures Valid() && lines[k].Value() == Turned(old(lines[k].Value()))
      ensures Values(lines) == old(Values(lines))[k := Turned(old(lines[k].Value()))]
      ensures All(Values(lines)) == old(All(Values(lines)))
    {
      hide All, Bag, Within;
      ghost var ls := Values(lines);
      FlippedBag(lines[k].vectors);
      lines[k].Reverse();
      assert Values(lines) == ls[k := lines[k].Value()];
      AllSame(ls, k, lines[k].Value());
    }

    /** One comparison of CContourLevel::merge; `restart` tells that the search goes back to the line behind `it`. */
    method TryJoin(it: nat, jt: nat) returns (joined: bool, restart: bool)
      requires Valid() && it < jt < |lines|
      modifies this`lines, lines
      ensures Valid() && (forall i :: 0 <= i < |lines| ==> lines[i] in old(lines))
      ensures All(Values(lines)) == old(All(Values(lines)))
      ensures if joined then |lines| == old(|lines|) - 1 else lines == old(lines) && Values(lines) == old(Values(lines))
      ensures match old(JoinOf(lines[it].Value(), lines[jt].Value()))
              case Apart => !joined && !restart
              case Into(l, again) =>
                joined && restart == again && Values(lines) == Replaced(old(Values(lines)), it, jt, l)
    {
      hide All, Values, Valid, Replaced, Same;
      ValuesAre(lines);
      TwoLines(it, jt);
      joined, restart := true, true;
      if Same(lines[it].end, lines[jt].start) {
        Absorb(it, jt, it, jt);
      } else if Same(lines[jt].end, lines[it].start) {
        Absorb(it, jt, jt, it);
      } else if Same(lines[it].end, lines[jt].end) {
        Turn(jt);
        Absorb(it, jt, it, jt);
        ReplacedAfter(old(Values(lines)), it, jt, jt, Turned(old(lines[jt].Value())),
            Joined(old(lines[it].Value()), Turned(old(lines[jt].Value()))));
      } else if Same(lines[it].start, lines[jt].start) {
        Turn(it);
        Absorb(it, jt, it, jt);
        ReplacedAfter(old(Values(lines)), it, jt, it, Turned(old(lines[it].Value())),
            Joined(Turned(old(lines[it].Value())), old(lines[jt].Value())));
        restart := false;
      } else {
        joined, restart := false, false;
      }
    }

    /** CContourLevel::merge; the number of lines that disappeared. */
    method Merge() returns (c: nat)
      requires Valid()
      modifies this`lines, lines
      ensures Valid() && |lines| + c == old(|lines|) && forall i :: 0 <= i < |lines| ==> lines[i] in old(lines)
      ensures All(Values(lines)) == old(All(Values(lines)))
      ensures Values(lines) == MergeOf(old(Values(lines))).lines
      ensures c == 0 <==> NoneMeet(old(Values(lines)))
    {
      hide All, Values, ValidLines, JoinOf, Replaced, MergeFrom, NoneMeet;
      ghost var ls := Values(lines);
      ValuesAre(lines);
      MergesIffMeet(ls);
      c := 0;
      if |lines| < 2 {
        FewLines(ls);
        return;
      }
      var it := 0;
      ghost var bars: seq<nat>, atStarts: nat := [], 0;
      while it < |lines|
        invariant Valid() && |lines| + c == old(|lines|) && forall i :: 0 <= i < |lines| ==> lines[i] in old(lines)
        invariant All(Values(lines)) == old(All(Values(lines))) && |Values(lines)| == |lines|
        invariant it <= |lines| && MergeFrom(Values(lines), it, it + 1, bars, it + 1, atStarts) == MergeOf(ls)
        decreases |lines| - it
      {
        var n; ghost var bar;
        n, bar, atStarts := MergeRow(it, bars, atStarts, MergeOf(ls));
        c := c + n;
        bars := bars + [bar];
        it := it + 1;
      }
      NoneLeft(Values(lines), it, bars, atStarts);
      ValuesAre(lines);
    }

    /** Its inner loop: everything that meets line `it`, as it grows, is joined to it. */
    method MergeRow(it: nat, ghost bars: seq<nat>, ghost atStarts: nat, ghost m: Merged)
        returns (c: nat, ghost bar: nat, ghost atStarts': nat)
      requires Valid() && it < |lines| == |Values(lines)|
      requires MergeFrom(Values(lines), it, it + 1, bars, it + 1, atStarts) == m
      modifies this`lines, lines
      ensures Valid() && |lines| + c == old(|lines|) && forall i :: 0 <= i < |lines| ==> lines[i] in old(lines)
      ensures All(Values(lines)) == old(All(Values(lines))) && it < |lines| == |Values(lines)|
      ensures MergeFrom(Values(lines), it + 1, it + 2, bars + [bar], it + 2, atStarts') == m
    {
      hide All, Values, ValidLines, JoinOf, Replaced, MergeFrom;
      c, bar, atStarts' := 0, it + 1, atStarts;
      var jt := it + 1;
      while jt < |lines|
        invariant Valid() && |lines| + c == old(|lines|) && forall i :: 0 <= i < |lines| ==> lines[i] in old(lines)
        invariant All(Values(lines)) == old(All(Values(lines))) && it < jt <= |lines| == |Values(lines)|
        invariant MergeFrom(Values(lines), it, jt, bars, bar, atStarts') == m
        decreases |lines|, |lines| - jt
      {
        ValuesAre(lines);
        MergeStep(Values(lines), it, jt, bars, bar, atStarts');
        var joined, restart := TryJoin(it, jt);
        ValuesAre(lines);
        if joined {
          c := c + 1;
          if restart {
            jt, bar := it + 1, it + 1;
          } else {
            bar, atStarts' := jt, atStarts' + 1;
          }
        } else {
          jt := jt + 1;
        }
      }
      RowDone(Values(lines), it, bars, bar, atStarts');
    }

    /** The first loop of CContourLevel::consolidate for one line: it takes every segment that goes on where it ends. */
    method Chain(raw0: seq<Segment>) returns (contour: Contour, rest: seq<Segment>)
      requires raw0 != []
      ensures fresh(contour) && contour.Valid() && |rest| < |raw0|
      ensures contour.pieces == |contour.vectors|
      ensures Both(OfLine(contour.Value()), OfSegments(rest)) == OfSegments(raw0)
      ensures forall i :: 0 <= i < |rest| ==> !Same(rest[i].p1, contour.end)
      ensures (contour.Value(), rest) == ChainOf(raw0)
    {
      hide BagOf, Bag, Within, Same;
      contour := new Contour();
      rest := raw0[1..];
      contour.AddVector(raw0[0].p1, raw0[0].p2);
      FirstOfRaw(raw0);
      assert contour.Value() == Line(raw0[0].p1, raw0[0].p2, [Displacement(raw0[0])], 1);
      var it := 0;
      while it < |rest|
        invariant ChainFrom(contour.Value(), rest, it) == ChainOf(raw0)
        invariant contour.Valid() && fresh(contour) && it <= |rest| < |raw0| && contour.pieces == |contour.vectors|
        invariant contour.pieces + |rest| == |raw0|
        invariant Bag(contour.vectors) + BagOf(rest) == BagOf(raw0)
        invariant forall i :: 0 <= i < it ==> !Same(rest[i].p1, contour.end)
        decreases |rest|, |rest| - it
        modifies contour
      {
        if Same(rest[it].p1, contour.end) {
          TakeSegment(contour.vectors, rest, it);
          contour.AddVector(rest[it].p1, rest[it].p2);
          rest := rest[..it] + rest[it + 1..];
          it := 0;
        } else {
          it := it + 1;
        }
      }
    }

    /** That loop for all segments. */
    method ChainAll(raw0: seq<Segment>) returns (c: nat)
      requires Valid()
      modifies this`lines
      ensures Valid() && |lines| == old(|lines|) + c && (raw0 != [] ==> c > 0)
      ensures forall i :: 0 <= i < |lines| ==> lines[i] in old(lines) || fresh(lines[i])
      ensures All(Values(lines)) == Both(old(All(Values(lines))), OfSegments(raw0))
      ensures Values(lines) == old(Values(lines)) + ChainsOf(raw0)
    {
      hide All, Both, OfLine, OfSegments, Values, ValidLines, ChainOf;
      var raw := raw0;
      c := 0;
      NothingLeft(All(Values(lines)), raw);
      while raw != []
        invariant Values(lines) + ChainsOf(raw) == old(Values(lines)) + ChainsOf(raw0)
        invariant Valid() && |lines| == old(|lines|) + c && (raw == raw0 || c > 0)
        invariant forall i :: 0 <= i < |lines| ==> lines[i] in old(lines) || fresh(lines[i])
        invariant Both(All(Values(lines)), OfSegments(raw)) == Both(old(All(Values(lines))), OfSegments(raw0))
        decreases |raw|
      {
        ghost var before := raw;
        ghost var a := All(Values(lines));
        var contour;
        contour, raw := Chain(raw);
        OneMore(lines, contour);
        ChainsStep(Values(lines), before);
        BothAssoc(a, OfLine(contour.Value()), OfSegments(raw));
        lines := lines + [contour];
        c := c + 1;
      }
      NothingLeft(All(Values(lines)), raw);
    }

    lemma {:induction false} ChainsStep(ls: seq<Line>, raw: seq<Segment>)
      requires raw != []
      ensures (ls + [ChainOf(raw).0]) + ChainsOf(ChainOf(raw).1) == ls + ChainsOf(raw)
    {
    }

    lemma {:induction false} NothingLeft(a: Content, raw: seq<Segment>)
      ensures raw == [] ==> Both(a, OfSegments(raw)) == a
    {
    }

    lemma {:induction false} TakeSegment(vs: seq<Vector>, rest: seq<Segment>, it: nat)
      requires it < |rest|
      ensures Bag(vs + [Displacement(rest[it])]) + BagOf(rest[..it] + rest[it + 1..]) == Bag(vs) + BagOf(rest)
    {
      hide Bag, BagOf, Canon;
      var left := BagOf(rest[..it] + rest[it + 1..]);
      AppendOne(vs, Displacement(rest[it]));
      SegmentsWithout(rest, it);
      SumSwap(Bag(vs), multiset{Canon(Displacement(rest[it]))}, left);
      SumAssoc(Bag(vs), left, multiset{Canon(Displacement(rest[it]))});
    }

    /** The last loop of CContourLevel::consolidate. */
    method CondenseAll(difference: real)
      requires Valid()
      modifies lines
      ensures Valid() && forall k :: 0 <= k < |lines| ==>
                lines[k].Value() == CondensedLine(old(Values(lines))[k], difference)
    {
      hide ValidLines, CondensedLine, Contour.Value;
      ghost var ls := Values(lines);
      ValuesAre(lines);
      var k := 0;
      while k < |lines|
        invariant k <= |lines| && Valid()
        invariant forall i :: 0 <= i < k ==> lines[i].Value() == CondensedLine(ls[i], difference)
        invariant forall i :: k <= i < |lines| ==> lines[i].Value() == ls[i]
        modifies lines
      {
        CondenseAt(k, difference);
        k := k + 1;
      }
    }

    method CondenseAt(k: nat, difference: real)
      requires Valid() && k < |lines|
      modifies lines
      ensures Valid() && lines[k].Value() == CondensedLine(old(lines[k].Value()), difference)
      ensures forall i :: 0 <= i < |lines| && i != k ==> lines[i].Value() == old(lines[i].Value())
    {
      hide Condensed, Within;
      lines[k].Condense(difference);
    }

    /**
      CContourLevel::consolidate: segments become lines. `chains` are the lines before they are condensed: they
      hold exactly the displacements of the segments, and of the lines there were, up to sign. Each line, before and
      after, leads from start to end within one join less than it had vectors; lines condensed earlier
      bring in as many joins as they had lost vectors.
    */
    method Consolidate(difference: real)
        returns (c: int, ghost chains: seq<Line>, ghost sorted: seq<Segment>)
      requires Valid()
      modifies this, lines
      ensures Valid() && raw == None && |lines| == old(|lines|) + c
      ensures old(raw) == None ==> c == 0 && lines == old(lines) && forall k :: 0 <= k < |lines| ==> unchanged(lines[k])
      ensures old(raw).Some? ==>
                && All(chains) == Both(old(All(Values(lines))), old(OfSegments(raw.value))) && |chains| == |lines|
                && forall k :: 0 <= k < |lines| ==> lines[k].Value() == CondensedLine(chains[k], difference)
      ensures old(raw).Some? ==> forall k :: 0 <= k < |lines| ==>
                && 1 <= |chains[k].vectors| && Within(chains[k], |chains[k].vectors| - 1 + old(Lost(Values(lines))))
                && Within(lines[k].Value(), |chains[k].vectors| - 1 + old(Lost(Values(lines))))
      ensures old(raw).Some? ==>
                && Ordered(sorted) && multiset(sorted) == multiset(old(raw.value))
                && Gathered(old(Values(lines)), ChainsOf(sorted), c, chains, Values(lines))
    {
      hide All, Both, OfSegments, ValidLines, CondensedLine, Values, Within, AllLead, Lost, Contour.Value, Ordered,
          Gathered, ChainsOf, MergeFrom;
      if raw == None {
        return 0, [], [];
      }
      ghost var before, segments := Values(lines), raw.value;
      ValidLead(lines);
      c, sorted := Gather();
      chains := Values(lines);
      ValuesAre(lines);
      ValidLead(lines);
      ChainsWithin(before, segments, chains, difference);
      CondenseAll(difference);
      ValuesAre(lines);
      GatheredAndCondensed(before, ChainsOf(sorted), c, chains, Values(lines), difference);
    }

    /** Its first half: the segments, sorted, are chained, and the lines merged. */
    method Gather() returns (c: int, ghost sorted: seq<Segment>)
      requires Valid() && raw.Some?
      modifies this, lines
      ensures Valid() && raw == None && |lines| == old(|lines|) + c
      ensures forall i :: 0 <= i < |lines| ==> lines[i] in old(lines) || fresh(lines[i])
      ensures All(Values(lines)) == Both(old(All(Values(lines))), old(OfSegments(raw.value)))
      ensures Ordered(sorted) && multiset(sorted) == multiset(old(raw.value))
      ensures Values(lines) == MergeOf(old(Values(lines)) + ChainsOf(sorted)).lines
      ensures |Values(lines)| == |lines| && c == |Values(lines)| - |old(Values(lines))|
    {
      hide All, Both, OfSegments, Values, ValidLines, Ordered, ChainsOf, MergeFrom, NoneMeet;
      ValuesAre(lines);
      var segments := Sort(raw.value);
      sorted := segments;
      SameContent(sorted, raw.value);
      c := ChainAll(segments);
      raw := None;
      var merged := Merge();
      c := c - merged;
      ValuesAre(lines);
    }

    lemma {:induction false} SameContent(a: seq<Segment>, b: seq<Segment>)
      requires multiset(a) == multiset(b)
      ensures OfSegments(a) == OfSegments(b)
    {
      hide BagOf;
      RearrangedBag(a, b);
    }

    lemma {:induction false} FirstOfRaw(raw: seq<Segment>)
      requires raw != []
      ensures Bag([] + [Displacement(raw[0])]) + BagOf(raw[1..]) == BagOf(raw)
    {
      hide BagOf, Canon;
      AppendOne([], Displacement(raw[0]));
      SegmentsWithout(raw, 0);
      assert raw[..0] + raw[1..] == raw[1..];
      SumComm(BagOf(raw[1..]), multiset{Canon(Displacement(raw[0]))});
    }

    lemma {:induction false} TwoLines(it: nat, jt: nat)
      requires Valid() && it < jt < |lines|
      ensures lines[it] != lines[jt]
    {
    }
  }

  /** condense, as seen from outside. */
  function CondensedLine(l: Line, difference: real): Line
  {
    if l.vectors == [] then l else l.(vectors := Condensed(l.vectors, 0, difference))
  }

  lemma {:induction false} OneMore(cs: seq<Contour>, c: Contour)
    requires ValidLines(cs) && c.Valid() && c !in cs
    ensures ValidLines(cs + [c]) && All(Values(cs + [c])) == Both(All(Values(cs)), OfLine(c.Value()))
    ensures Values(cs + [c]) == Values(cs) + [c.Value()]
  {
    hide All, Both, OfLine, Contour.Valid;
    ValuesAre(cs);
    ValuesAre(cs + [c]);
    assert Values(cs + [c]) == Values(cs) + [c.Value()];
    AllOne(Values(cs), c.Value());
  }

  lemma {:induction false} ValuesAre(cs: seq<Contour>)
    ensures |Values(cs)| == |cs| && forall i :: 0 <= i < |cs| ==> Values(cs)[i] == cs[i].Value()
  {
  }

  /** A list in which entry `x` has been put to `it`, without the entry at `jt`. */
  function Picked<T>(s: seq<T>, it: nat, jt: nat, x: nat): (r: seq<T>)
    requires it < jt < |s| && (x == it || x == jt)
    ensures |r| == |s| - 1
    ensures forall k :: 0 <= k < |r| ==> r[k] == (if k == it then s[x] else if k < jt then s[k] else s[k + 1])
  {
    s[it := s[x]][..jt] + s[jt + 1..]
  }

  lemma {:induction false} PickedLines(cs: seq<Contour>, it: nat, jt: nat, x: nat)
    requires ValidLines(cs) && it < jt < |cs| && (x == it || x == jt)
    ensures var cs' := Picked(cs, it, jt, x);
            ValidLines(cs') && Values(cs') == Picked(Values(cs), it, jt, x) && forall k :: 0 <= k < |cs'| ==>
                cs'[k] in cs
  {
    hide Contour.Valid, Picked, Values, Contour.Value;
    var cs' := Picked(cs, it, jt, x);
    PickedAt(cs, it, jt, x);
    PickedDistinct(cs, it, jt, x);
    ValuesAre(cs);
    ValuesAre(cs');
    PickedAt(Values(cs), it, jt, x);
    var ls' := Picked(Values(cs), it, jt, x);
    forall k | 0 <= k < |cs'|
      ensures Values(cs')[k] == ls'[k] && cs'[k] in cs && cs'[k].Valid()
    {
      var from := if k == it then x else if k < jt then k else k + 1;
      assert cs'[k] == cs[from];
    }
  }

  lemma {:induction false} PickedAt<T>(s: seq<T>, it: nat, jt: nat, x: nat)
    requires it < jt < |s| && (x == it || x == jt)
    ensures var r := Picked(s, it, jt, x);
            |r| == |s| - 1 && forall k :: 0 <= k < |r| ==> r[k] == s[if k == it then x else if k < jt then k else k + 1]
  {
  }

  lemma {:induction false} PickedDistinct(cs: seq<Contour>, it: nat, jt: nat, x: nat)
    requires Distinct(cs) && it < jt < |cs| && (x == it || x == jt)
    ensures Distinct(Picked(cs, it, jt, x))
  {
    hide Picked;
    PickedAt(cs, it, jt, x);
  }

  /** Where the joined line stands before the list is changed makes no difference. */
  lemma {:induction false} PickedJoined(ls: seq<Line>, it: nat, jt: nat, x: nat, l: Line)
    requires it < jt < |ls| && (x == it || x == jt)
    ensures Picked(ls[x := l], it, jt, x) == ls[it := l][..jt] + ls[jt + 1..]
  {
  }

  lemma {:induction false} ReplacedAfter(ls: seq<Line>, it: nat, jt: nat, k: nat, l': Line, l: Line)
    requires it < jt < |ls| && (k == it || k == jt)
    ensures Replaced(ls[k := l'], it, jt, l) == Replaced(ls, it, jt, l)
  {
  }

  lemma {:induction false} JoinedContent(a: Line, b: Line)
    ensures OfLine(Joined(a, b)) == Both(OfLine(a), OfLine(b)) == Both(OfLine(b), OfLine(a))
  {
    hide Bag;
    AppendBag(a.vectors, b.vectors);
    SumComm(Bag(a.vectors), Bag(b.vectors));
  }

  lemma {:induction false} SumComm(a: multiset<Vector>, b: multiset<Vector>)
    ensures a + b == b + a
  {
  }

  lemma {:induction false} AllSame(ls: seq<Line>, k: nat, l: Line)
    requires k < |ls| && OfLine(l) == OfLine(ls[k])
    ensures All(ls[k := l]) == All(ls)
  {
    hide All, OfLine, Both;
    AllWithout(ls, k);
    AllWithout(ls[k := l], k);
    assert ls[k := l][..k] + ls[k := l][k + 1..] == ls[..k] + ls[k + 1..];
  }

  // ---------------------------------------------------------------- how many joins

  /** How many vectors lines have lost because they were condensed: none before that. */
  function Lost(ls: seq<Line>): nat
  {
    if ls == [] then 0 else Lost(ls[..|ls| - 1]) + LostBy(ls[|ls| - 1])
  }

  function LostBy(l: Line): nat
  {
    if |l.vectors| < l.pieces then l.pieces - |l.vectors| else 0
  }

  predicate AllLead(ls: seq<Line>)
  {
    forall k :: 0 <= k < |ls| ==> Leads(ls[k])
  }

  lemma {:induction false} BagSize(vs: seq<Vector>)
    ensures |Bag(vs)| == |vs|
    decreases |vs|
  {
    hide Canon;
    if vs != [] {
      BagSize(vs[..|vs| - 1]);
    }
  }

  lemma {:induction false} LostOfAll(ls: seq<Line>)
    requires AllLead(ls)
    ensures Lost(ls) == All(ls).pieces - |All(ls).bag|
    decreases |ls|
  {
    hide Bag, Within;
    if ls != [] {
      LostOfAll(ls[..|ls| - 1]);
      BagSize(ls[|ls| - 1].vectors);
    }
  }

  lemma {:induction false} LostByOne(ls: seq<Line>, k: nat)
    requires k < |ls|
    ensures LostBy(ls[k]) <= Lost(ls)
    decreases |ls|
  {
    hide LostBy;
    if k < |ls| - 1 {
      LostByOne(ls[..|ls| - 1], k);
    }
  }

  /** Chaining and merging lose no vectors. */
  lemma {:induction false} LostSame(before: seq<Line>, raw: seq<Segment>, chains: seq<Line>)
    requires AllLead(before) && AllLead(chains) && All(chains) == Both(All(before), OfSegments(raw))
    ensures Lost(chains) == Lost(before)
  {
    hide All, AllLead, Bag;
    LostOfAll(before);
    LostOfAll(chains);
    BagSize(Displacements(raw));
  }

  lemma {:induction false} CondensedWithin(l: Line, vectors: nat, lost: nat, difference: real)
    requires Leads(l) && |l.vectors| == vectors && LostBy(l) <= lost
    ensures Within(l, vectors - 1 + lost) && Within(CondensedLine(l, difference), vectors - 1 + lost)
  {
    hide Near, Condensed;
    WithinMore(l, l.pieces - 1, vectors - 1 + lost);
    CondensedTotal(l.vectors, 0, difference);
  }

  /** The bound of consolidate, from the contents before and after. */
  lemma {:induction false} ChainsWithin(before: seq<Line>, raw: seq<Segment>, chains: seq<Line>, difference: real)
    requires AllLead(before) && AllLead(chains) && All(chains) == Both(All(before), OfSegments(raw))
    ensures forall k :: 0 <= k < |chains| ==>
              && 1 <= |chains[k].vectors| && Within(chains[k], |chains[k].vectors| - 1 + Lost(before))
              && Within(CondensedLine(chains[k], difference), |chains[k].vectors| - 1 + Lost(before))
  {
    hide All, Both, OfSegments, Lost, Within, CondensedLine;
    LostSame(before, raw, chains);
    forall k | 0 <= k < |chains|
      ensures && 1 <= |chains[k].vectors| && Within(chains[k], |chains[k].vectors| - 1 + Lost(before))
              && Within(CondensedLine(chains[k], difference), |chains[k].vectors| - 1 + Lost(before))
    {
      LostByOne(chains, k);
      CondensedWithin(chains[k], |chains[k].vectors|, Lost(before), difference);
    }
  }

  lemma {:induction false} ValidLead(cs: seq<Contour>)
    requires ValidLines(cs)
    ensures AllLead(Values(cs))
  {
    hide Leads;
  }
}
