/**
  Levels that meet vertices of the triangulation: how many segments end at a centre or grid point on the level, from the
  heights around it alone. Together with the crossings of cut sides these are all ends there are.
*/
module ContourVertex {
  import opened ContourLines
  import opened ContourMap

  /** Height above the level. */
  function NodeHeight(r: Raster, level: real, n: Node): real
  {
    match n
    case Centre(i, j) => Box(r, level, i, j, 0).h
    case Grid(i, j) => r.value(i, j) - level
  }

  function NodeSign(r: Raster, level: real, n: Node): int
  {
    Sign(NodeHeight(r, level, n))
  }

  lemma {:induction false} HeightsOfTriangle(r: Raster, level: real, t: Triangle)
    requires 1 <= t.m <= 4
    ensures V1(r, level, t).h == NodeHeight(r, level, Nodes(t).0)
    ensures V2(r, level, t).h == NodeHeight(r, level, Nodes(t).1)
    ensures V3(r, level, t).h == NodeHeight(r, level, Nodes(t).2)
  {
  }

  lemma {:induction false} NodesApart(n: Node, n': Node)
    ensures NodePoint(n) == NodePoint(n') <==> n == n'
  {
    BetweenIntegers(n.i, n'.i);
    BetweenIntegers(n'.i, n.i);
  }

  predicate HasNode(t: Triangle, n: Node)
  {
    1 <= t.m <= 4 && (n == Nodes(t).0 || n == Nodes(t).1 || n == Nodes(t).2)
  }

  // ---------------------------------------------------------------- one triangle

  /** Both strictly on one side of the level. */
  predicate OneSide(s: int, s': int)
  {
    s == s' != 0
  }

  /**
    How many segments of a triangle end at its vertex `n` on the level: one unless the other two are on one side. At the
    centre there is none either where both others are on the level: the side of the cell is drawn.
  */
  function EndsShare(r: Raster, level: real, t: Triangle, n: Node): nat
  {
    if !HasNode(t, n) then 0
    else
      var (n1, n2, n3) := Nodes(t);
      var (s1, s2, s3) := (NodeSign(r, level, n1), NodeSign(r, level, n2), NodeSign(r, level, n3));
      if n == n1 then Once(!OneSide(s2, s3)) else if n == n2 then Once(s1 != s3) else Once(!OneSide(s1, s2))
  }

  lemma {:induction false} TriangleEndsAtNode(r: Raster, level: real, t: Triangle, n: Node)
    requires 1 <= t.m <= 4
    ensures EndsAt(TriangleLines(r, level, t.i, t.j, t.m), NodePoint(n))
         == if NodeHeight(r, level, n) == 0.0 then EndsShare(r, level, t, n) else 0
  {
    hide Cross, TriangleLine, Box, Crossing, SideEnds, Inside, NodePoint, NodeHeight, NodeOf;
    var (v1, v2, v3) := (V1(r, level, t), V2(r, level, t), V3(r, level, t));
    var c := NodePoint(n);
    TriangleEndsAt(r, level, t, c);
    NodesOfTriangle(r, level, t);
    HeightsOfTriangle(r, level, t);
    NodesApart(n, Nodes(t).0);
    NodesApart(n, Nodes(t).1);
    NodesApart(n, Nodes(t).2);
    NodesDiffer(t);
    NodesApart(Nodes(t).0, Nodes(t).1);
    NodesApart(Nodes(t).1, Nodes(t).2);
    NodesApart(Nodes(t).0, Nodes(t).2);
    CrossingsOutside(r, level, t, n);
    if v1.h != 0.0 && v2.h != 0.0 && v3.h != 0.0 {
      LineJoinsCuts(v1, v2, v3);
    }
    LineFromHeights(v1, v2, v3);
    LineEnds(v1, v2, v3, TriangleLine(v1, v2, v3), c);
  }

  lemma {:induction false} NodesDiffer(t: Triangle)
    requires 1 <= t.m <= 4
    ensures Nodes(t).0 != Nodes(t).1 && Nodes(t).1 != Nodes(t).2 && Nodes(t).0 != Nodes(t).2
  {
  }

  /** No crossing of a side of the triangle is a vertex. */
  lemma {:induction false} CrossingsOutside(r: Raster, level: real, t: Triangle, n: Node)
    requires 1 <= t.m <= 4
    ensures var (v1, v2, v3) := (V1(r, level, t), V2(r, level, t), V3(r, level, t));
            && (Cut(v1, v2) ==> Cross(v1, v2) != NodePoint(n)) && (Cut(v2, v3) ==> Cross(v2, v3) != NodePoint(n))
            && (Cut(v3, v1) ==> Cross(v3, v1) != NodePoint(n))
  {
    hide Cross, Box, Crossing, SideEnds, Inside, NodePoint, Cut;
    var (v1, v2, v3) := (V1(r, level, t), V2(r, level, t), V3(r, level, t));
    var (e1, e2, e3) := Sides(t);
    TriangleCrossings(r, level, t);
    NodeOutside(n, e1);
    NodeOutside(n, e2);
    NodeOutside(n, e3);
    if Cut(v1, v2) {
      CrossingInside(r, level, e1);
    }
    if Cut(v2, v3) {
      CrossingInside(r, level, e2);
    }
    if Cut(v3, v1) {
      CrossingInside(r, level, e3);
    }
  }

  /** The ends of a line that is what the heights say, at a point that is no crossing. */
  lemma {:induction false} LineEnds(v1: Vertex, v2: Vertex, v3: Vertex, l: Option<Segment>, c: Point)
    requires At(v1) != At(v2) && At(v2) != At(v3) && At(v1) != At(v3)
    requires (Cut(v1, v2) ==> Cross(v1, v2) != c) && (Cut(v2, v3) ==> Cross(v2, v3) != c)
             && (Cut(v3, v1) ==> Cross(v3, v1) != c)
    requires l == TriangleLine(v1, v2, v3)
    ensures var n := match l case Some(s) => EndsOf(s, c) case None => 0;
            && (c == At(v1) ==> n == if v1.h == 0.0 then Once(!OneSide(Sign(v2.h), Sign(v3.h))) else 0)
            && (c == At(v2) ==> n == if v2.h == 0.0 then Once(Sign(v1.h) != Sign(v3.h)) else 0)
            && (c == At(v3) ==> n == if v3.h == 0.0 then Once(!OneSide(Sign(v1.h), Sign(v2.h))) else 0)
            && (c != At(v1) && c != At(v2) && c != At(v3) ==> n == 0)
  {
    hide Cross, At, TriangleLine;
    if v1.h != 0.0 && v2.h != 0.0 && v3.h != 0.0 {
      LineJoinsCuts(v1, v2, v3);
    }
    LineFromHeights(v1, v2, v3);
  }

  // ---------------------------------------------------------------- one cell

  /** What the four triangles of a cell contribute. */
  function CellShare(r: Raster, level: real, i: int, j: int, n: Node): nat
  {
    EndsShare(r, level, Triangle(i, j, 1), n) + EndsShare(r, level, Triangle(i, j, 2), n)
    + EndsShare(r, level, Triangle(i, j, 3), n) + EndsShare(r, level, Triangle(i, j, 4), n)
  }

  lemma {:induction false} CellEndsAtNode(r: Raster, levels: seq<real>, k: nat, i: int, j: int, n: Node)
    requires k < |levels| && Increasing(levels) && NodeHeight(r, levels[k], n) == 0.0
    ensures EndsAt(CellEmits(r, levels, k, i, j), NodePoint(n)) == CellShare(r, levels[k], i, j, n)
  {
    hide TriangleLines, EndsShare, NodePoint, NodeHeight, EndsAt;
    var level, c := levels[k], NodePoint(n);
    if Passes(r, levels, k, i, j) {
      var l1, l2, l3, l4 := TriangleLines(r, level, i, j, 1), TriangleLines(r, level, i, j, 2),
                            TriangleLines(r, level, i, j, 3), TriangleLines(r, level, i, j, 4);
      TriangleEndsAtNode(r, level, Triangle(i, j, 1), n);
      TriangleEndsAtNode(r, level, Triangle(i, j, 2), n);
      TriangleEndsAtNode(r, level, Triangle(i, j, 3), n);
      TriangleEndsAtNode(r, level, Triangle(i, j, 4), n);
      EndsAppend(l1, l2, c);
      EndsAppend(l1 + l2, l3, c);
      EndsAppend(l1 + l2 + l3, l4, c);
    } else {
      NothingAtSkipped(r, levels, k, i, j, n);
    }
  }

  /** A cell with a vertex on the level passes the guards. */
  lemma {:induction false} NothingAtSkipped(r: Raster, levels: seq<real>, k: nat, i: int, j: int, n: Node)
    requires k < |levels| && Increasing(levels) && NodeHeight(r, levels[k], n) == 0.0 && !Passes(r, levels, k, i, j)
    ensures EndsAt([], NodePoint(n)) == 0 == CellShare(r, levels[k], i, j, n)
  {
    hide Low, High, NodePoint;
    var level := levels[k];
    assert levels[0] <= level <= levels[|levels| - 1];
    CornersBetween(r, level, i, j);
    forall m | 1 <= m <= 4
      ensures !HasNode(Triangle(i, j, m), n)
    {
      HeightsOfTriangle(r, level, Triangle(i, j, m));
    }
  }

  lemma {:induction false} OtherCells(r: Raster, level: real, i: int, j: int, n: Node)
    requires (i != n.i && i != n.i - 1) || (j != n.j && j != n.j - 1)
    ensures CellShare(r, level, i, j, n) == 0
  {
  }

  // ---------------------------------------------------------------- the whole list

  function InRange(a: int, lo: int, hi: int, n: nat): nat
  {
    if lo <= a < hi then n else 0
  }

  /** At a vertex only the cells around it contribute to a row. */
  lemma {:induction false} RowEndsAtNode(r: Raster, levels: seq<real>, k: nat, j: int, i: int, n: Node)
    requires k < |levels| && Increasing(levels) && NodeHeight(r, levels[k], n) == 0.0
    ensures EndsAt(RowEmits(r, levels, k, j, i), NodePoint(n))
         == InRange(n.i - 1, r.lowerY, i, CellShare(r, levels[k], n.i - 1, j, n))
            + InRange(n.i, r.lowerY, i, CellShare(r, levels[k], n.i, j, n))
    decreases i - r.lowerY
  {
    hide CellEmits, NodeHeight, NodePoint, CellShare, Increasing;
    if r.lowerY < i {
      RowEndsAtNode(r, levels, k, j, i - 1, n);
      CellEndsAtNode(r, levels, k, i - 1, j, n);
      EndsAppend(RowEmits(r, levels, k, j, i - 1), CellEmits(r, levels, k, i - 1, j), NodePoint(n));
      if i - 1 != n.i && i - 1 != n.i - 1 {
        OtherCells(r, levels[k], i - 1, j, n);
      }
    }
  }

  /** What a row contributes. */
  function RowShare(r: Raster, level: real, j: int, n: Node): nat
  {
    InRange(n.i - 1, r.lowerY, r.upperY, CellShare(r, level, n.i - 1, j, n))
    + InRange(n.i, r.lowerY, r.upperY, CellShare(r, level, n.i, j, n))
  }

  lemma {:induction false} ListEndsAtNode(r: Raster, levels: seq<real>, k: nat, j: int, n: Node)
    requires k < |levels| && Increasing(levels) && NodeHeight(r, levels[k], n) == 0.0
    ensures EndsAt(Emits(r, levels, k, j), NodePoint(n))
         == InRange(n.j - 1, j, r.upperX, RowShare(r, levels[k], n.j - 1, n))
            + InRange(n.j, j, r.upperX, RowShare(r, levels[k], n.j, n))
    decreases r.upperX - j
  {
    hide RowEmits, NodeHeight, NodePoint, CellShare, Increasing;
    if j < r.upperX {
      ListEndsAtNode(r, levels, k, j + 1, n);
      RowEndsAtNode(r, levels, k, j, r.upperY, n);
      EndsAppend(Emits(r, levels, k, j + 1), RowEmits(r, levels, k, j, r.upperY), NodePoint(n));
      if j != n.j && j != n.j - 1 {
        OtherCells(r, levels[k], n.i - 1, j, n);
        OtherCells(r, levels[k], n.i, j, n);
      }
    }
  }

  // ---------------------------------------------------------------- around a vertex

  /** At the centre of a cell there is one end for each change of sign around its corners. */
  lemma {:induction false} EndsAtCentre(r: Raster, levels: seq<real>, k: nat, i: int, j: int)
    requires k < |levels| && Increasing(levels) && CellVisited(r, i, j)
    requires NodeHeight(r, levels[k], Centre(i, j)) == 0.0
    ensures var (s1, s2) := (NodeSign(r, levels[k], Grid(i, j)), NodeSign(r, levels[k], Grid(i + 1, j)));
            var (s3, s4) := (NodeSign(r, levels[k], Grid(i + 1, j + 1)), NodeSign(r, levels[k], Grid(i, j + 1)));
            EndsAt(Emits(r, levels, k, r.lowerX), NodePoint(Centre(i, j)))
            == Once(s1 != s2) + Once(s2 != s3) + Once(s3 != s4) + Once(s4 != s1)
  {
    hide Emits, NodeSign, NodeHeight, NodePoint;
    ListEndsAtNode(r, levels, k, r.lowerX, Centre(i, j));
    CentreShares(r, levels[k], i, j);
  }

  lemma {:induction false} CentreShares(r: Raster, level: real, i: int, j: int)
    ensures var (s1, s2) := (NodeSign(r, level, Grid(i, j)), NodeSign(r, level, Grid(i + 1, j)));
            var (s3, s4) := (NodeSign(r, level, Grid(i + 1, j + 1)), NodeSign(r, level, Grid(i, j + 1)));
            CellShare(r, level, i, j, Centre(i, j))
            == Once(s1 != s2) + Once(s2 != s3) + Once(s3 != s4) + Once(s4 != s1)
    ensures CellShare(r, level, i - 1, j, Centre(i, j)) == CellShare(r, level, i, j - 1, Centre(i, j)) == 0
    ensures CellShare(r, level, i - 1, j - 1, Centre(i, j)) == 0
  {
    hide NodeSign;
  }

  /** The eight vertices around a grid point, neighbours next to each other. */
  function Around(i: int, j: int, x: int): Node
    requires 0 <= x <= 8
  {
    if x == 0 || x == 8 then Grid(i + 1, j) else if x == 1 then Centre(i, j) else if x == 2 then Grid(i, j + 1)
    else if x == 3 then Centre(i - 1, j) else if x == 4 then Grid(i - 1, j) else if x == 5 then Centre(i - 1, j - 1)
    else if x == 6 then Grid(i, j - 1) else Centre(i, j - 1)
  }

  /** The end contributed by the triangle between two neighbours of a grid point. */
  function Pair(r: Raster, level: real, i: int, j: int, x: nat): nat
    requires x < 8
  {
    Once(!OneSide(NodeSign(r, level, Around(i, j, x)), NodeSign(r, level, Around(i, j, x + 1))))
  }

  function When(b: bool, n: nat): nat
  {
    if b then n else 0
  }

  /**
    At a grid point each visited cell around it contributes one end for every two neighbours of the grid point in
    it, next to each other, that are not on one side.
  */
  lemma {:induction false} EndsAtGrid(r: Raster, levels: seq<real>, k: nat, i: int, j: int)
    requires k < |levels| && Increasing(levels) && NodeHeight(r, levels[k], Grid(i, j)) == 0.0
    ensures EndsAt(Emits(r, levels, k, r.lowerX), NodePoint(Grid(i, j)))
         == When(CellVisited(r, i, j), Pair(r, levels[k], i, j, 0) + Pair(r, levels[k], i, j, 1))
            + When(CellVisited(r, i - 1, j), Pair(r, levels[k], i, j, 2) + Pair(r, levels[k], i, j, 3))
            + When(CellVisited(r, i - 1, j - 1), Pair(r, levels[k], i, j, 4) + Pair(r, levels[k], i, j, 5))
            + When(CellVisited(r, i, j - 1), Pair(r, levels[k], i, j, 6) + Pair(r, levels[k], i, j, 7))
  {
    hide Emits, Pair, NodeHeight, NodePoint, CellShare;
    ListEndsAtNode(r, levels, k, r.lowerX, Grid(i, j));
    GridShares(r, levels[k], i, j);
  }

  lemma {:induction false} GridShares(r: Raster, level: real, i: int, j: int)
    ensures CellShare(r, level, i, j, Grid(i, j)) == Pair(r, level, i, j, 0) + Pair(r, level, i, j, 1)
    ensures CellShare(r, level, i - 1, j, Grid(i, j)) == Pair(r, level, i, j, 2) + Pair(r, level, i, j, 3)
    ensures CellShare(r, level, i - 1, j - 1, Grid(i, j)) == Pair(r, level, i, j, 4) + Pair(r, level, i, j, 5)
    ensures CellShare(r, level, i, j - 1, Grid(i, j)) == Pair(r, level, i, j, 6) + Pair(r, level, i, j, 7)
  {
    hide NodeSign;
  }

  /** The vertices next to one another one. */
  predicate Adjacent(n: Node, n': Node)
  {
    match n
    case Centre(i, j) => n' == Grid(i, j) || n' == Grid(i + 1, j) || n' == Grid(i + 1, j + 1) || n' == Grid(i, j + 1)
    case Grid(i, j) => exists x :: 0 <= x < 8 && n' == Around(i, j, x)
  }

  /** All cells around a vertex are visited. */
  predicate Surrounded(r: Raster, n: Node)
  {
    CellVisited(r, n.i, n.j)
    && (n.Grid? ==> CellVisited(r, n.i - 1, n.j) && CellVisited(r, n.i - 1, n.j - 1) && CellVisited(r, n.i, n.j - 1))
  }

  /** Lines pass through a vertex in the visited rectangle that has no neighbour on the level: its ends are paired. */
  lemma {:induction false} LinesPassVertex(r: Raster, levels: seq<real>, k: nat, n: Node)
    requires k < |levels| && Increasing(levels) && NodeHeight(r, levels[k], n) == 0.0 && Surrounded(r, n)
    requires forall n' :: Adjacent(n, n') ==> NodeHeight(r, levels[k], n') != 0.0
    ensures EndsAt(Emits(r, levels, k, r.lowerX), NodePoint(n)) % 2 == 0
  {
    hide Emits, NodePoint, NodeHeight, Adjacent;
    match n
    case Centre(i, j) => LinesPassCentre(r, levels, k, i, j);
    case Grid(i, j) => LinesPassGrid(r, levels, k, i, j);
  }

  lemma {:induction false} LinesPassCentre(r: Raster, levels: seq<real>, k: nat, i: int, j: int)
    requires k < |levels| && Increasing(levels) && NodeHeight(r, levels[k], Centre(i, j)) == 0.0
             && CellVisited(r, i, j)
    requires forall n' :: Adjacent(Centre(i, j), n') ==> NodeHeight(r, levels[k], n') != 0.0
    ensures EndsAt(Emits(r, levels, k, r.lowerX), NodePoint(Centre(i, j))) % 2 == 0
  {
    hide Emits, NodePoint, NodeHeight;
    var level, n := levels[k], Centre(i, j);
    EndsAtCentre(r, levels, k, i, j);
    assert Adjacent(n, Grid(i, j)) && Adjacent(n, Grid(i + 1, j));
    assert Adjacent(n, Grid(i + 1, j + 1)) && Adjacent(n, Grid(i, j + 1));
    EvenAround4(NodeSign(r, level, Grid(i, j)), NodeSign(r, level, Grid(i + 1, j)),
        NodeSign(r, level, Grid(i + 1, j + 1)), NodeSign(r, level, Grid(i, j + 1)));
  }

  lemma {:induction false} LinesPassGrid(r: Raster, levels: seq<real>, k: nat, i: int, j: int)
    requires k < |levels| && Increasing(levels) && NodeHeight(r, levels[k], Grid(i, j)) == 0.0
             && Surrounded(r, Grid(i, j))
    requires forall n' :: Adjacent(Grid(i, j), n') ==> NodeHeight(r, levels[k], n') != 0.0
    ensures EndsAt(Emits(r, levels, k, r.lowerX), NodePoint(Grid(i, j))) % 2 == 0
  {
    hide Emits, NodePoint, NodeHeight, Pair, Adjacent, Increasing, NodeSign;
    EndsAtGrid(r, levels, k, i, j);
    NeighboursOff(r, levels[k], i, j);
    EvenAround8(r, levels[k], i, j);
  }

  lemma {:induction false} NeighboursOff(r: Raster, level: real, i: int, j: int)
    requires forall n' :: Adjacent(Grid(i, j), n') ==> NodeHeight(r, level, n') != 0.0
    ensures forall x :: 0 <= x < 8 ==> NodeSign(r, level, Around(i, j, x)) != 0
  {
    hide NodeHeight, Around;
    forall x | 0 <= x < 8
      ensures NodeSign(r, level, Around(i, j, x)) != 0
    {
      assert Adjacent(Grid(i, j), Around(i, j, x));
    }
  }

  lemma {:induction false} EvenAround4(s1: int, s2: int, s3: int, s4: int)
    requires (s1 == 1 || s1 == -1) && (s2 == 1 || s2 == -1) && (s3 == 1 || s3 == -1) && (s4 == 1 || s4 == -1)
    ensures (Once(s1 != s2) + Once(s2 != s3) + Once(s3 != s4) + Once(s4 != s1)) % 2 == 0
  {
  }

  lemma {:induction false} EvenAround8(r: Raster, level: real, i: int, j: int)
    requires forall x :: 0 <= x < 8 ==> NodeSign(r, level, Around(i, j, x)) != 0
    ensures (Pair(r, level, i, j, 0) + Pair(r, level, i, j, 1) + Pair(r, level, i, j, 2) + Pair(r, level, i, j, 3)
             + Pair(r, level, i, j, 4) + Pair(r, level, i, j, 5) + Pair(r, level, i, j, 6) + Pair(r, level, i, j, 7))
            % 2 == 0
  {
    hide Around, NodeHeight;
    assert Around(i, j, 8) == Around(i, j, 0) by {
      SameVertex(i, j);
    }
    var s0, s4 := NodeSign(r, level, Around(i, j, 0)), NodeSign(r, level, Around(i, j, 4));
    assert (Pair(r, level, i, j, 0) + Pair(r, level, i, j, 1) + Pair(r, level, i, j, 2) + Pair(r, level, i, j, 3)) % 2
        == Once(s0 != s4);
    assert (Pair(r, level, i, j, 4) + Pair(r, level, i, j, 5) + Pair(r, level, i, j, 6) + Pair(r, level, i, j, 7)) % 2
        == Once(s0 != s4);
  }

  lemma {:induction false} SameVertex(i: int, j: int)
    ensures Around(i, j, 8) == Around(i, j, 0)
  {
  }

  // ---------------------------------------------------------------- there are no other ends

  /** Where a segment ends a side of a visited triangle is crossed, or a vertex of one is on the level. */
  lemma {:induction false} EveryEnd(r: Raster, levels: seq<real>, k: nat, c: Point) returns (t: Triangle)
    requires k < |levels| && EndsAt(Emits(r, levels, k, r.lowerX), c) > 0
    ensures Visited(r, t)
    ensures (exists e :: HasSide(t, e) && CrossedAt(r, levels[k], e, c))
            || (exists n :: HasNode(t, n) && MetAt(r, levels[k], n, c))
  {
    hide Emits, TriangleLines, CrossedAt, MetAt;
    var s := SegmentAt(Emits(r, levels, k, r.lowerX), c);
    var i, j := ListOrigin(r, levels, k, r.lowerX, s);
    var m := LineOfTriangle(r, levels[k], i, j, s);
    t := Triangle(i, j, m);
    TriangleEnd(r, levels[k], t, s, c);
  }

  predicate CrossedAt(r: Raster, level: real, e: Side, c: Point)
  {
    ValidSide(e) && SideCut(r, level, e) && c == Crossing(r, level, e)
  }

  predicate MetAt(r: Raster, level: real, n: Node, c: Point)
  {
    NodeHeight(r, level, n) == 0.0 && c == NodePoint(n)
  }

  lemma {:induction false} TriangleEnd(r: Raster, level: real, t: Triangle, s: Segment, c: Point)
    requires 1 <= t.m <= 4 && TriangleLines(r, level, t.i, t.j, t.m) == [s] && (s.p1 == c || s.p2 == c)
    ensures (exists e :: HasSide(t, e) && CrossedAt(r, level, e, c))
            || (exists n :: HasNode(t, n) && MetAt(r, level, n, c))
  {
    hide Cross, TriangleLine, Box, Crossing, SideEnds, NodePoint, NodeHeight, NodeOf;
    var (v1, v2, v3) := (V1(r, level, t), V2(r, level, t), V3(r, level, t));
    var (e1, e2, e3) := Sides(t);
    var (n1, n2, n3) := Nodes(t);
    NodesOfTriangle(r, level, t);
    HeightsOfTriangle(r, level, t);
    TriangleCrossings(r, level, t);
    EndIsOne(v1, v2, v3, s, c);
    assert Cut(v1, v2) && c == Cross(v1, v2) ==> HasSide(t, e1) && CrossedAt(r, level, e1, c);
    assert Cut(v2, v3) && c == Cross(v2, v3) ==> HasSide(t, e2) && CrossedAt(r, level, e2, c);
    assert Cut(v3, v1) && c == Cross(v3, v1) ==> HasSide(t, e3) && CrossedAt(r, level, e3, c);
    assert v1.h == 0.0 && c == At(v1) ==> HasNode(t, n1) && MetAt(r, level, n1, c);
    assert v2.h == 0.0 && c == At(v2) ==> HasNode(t, n2) && MetAt(r, level, n2, c);
    assert v3.h == 0.0 && c == At(v3) ==> HasNode(t, n3) && MetAt(r, level, n3, c);
  }

  lemma {:induction false} EndIsOne(v1: Vertex, v2: Vertex, v3: Vertex, s: Segment, c: Point)
    requires TriangleLine(v1, v2, v3) == Some(s) && (s.p1 == c || s.p2 == c)
    ensures (Cut(v1, v2) && c == Cross(v1, v2)) || (Cut(v2, v3) && c == Cross(v2, v3))
            || (Cut(v3, v1) && c == Cross(v3, v1)) || (v1.h == 0.0 && c == At(v1)) || (v2.h == 0.0 && c == At(v2))
            || (v3.h == 0.0 && c == At(v3))
  {
    hide Cross, At, TriangleLine;
    if v1.h != 0.0 && v2.h != 0.0 && v3.h != 0.0 {
      LineJoinsCuts(v1, v2, v3);
    }
    LineFromHeights(v1, v2, v3);
  }
}
