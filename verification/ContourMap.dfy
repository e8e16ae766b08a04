/**
  Contouring a raster: every cell is cut into four triangles around its centre, and a table of cases says which
  line a level draws through a triangle. Heights and coordinates are real numbers.
*/
module ContourMap {
  import opened ContourLines

  /** A raster with the bounds its callers see after truncation to integers. */
  datatype Raster = Raster(value: (int, int) -> real, lowerX: int, lowerY: int, upperX: int, upperY: int)

  /** A corner or centre: coordinates, and height relative to a level. */
  datatype Vertex = Vertex(x: real, y: real, h: real)

  const IM: seq<int> := [0, 1, 1, 0]
  const JM: seq<int> := [0, 0, 1, 1]

  function Corner(r: Raster, level: real, i: int, j: int, m: int): Vertex
    requires 1 <= m <= 4
  {
    Vertex((i + IM[m - 1]) as real, (j + JM[m - 1]) as real, r.value(i + IM[m - 1], j + JM[m - 1]) - level)
  }

  /** The four corners, and as number 0 the centre, whose height is their average. */
  function Box(r: Raster, level: real, i: int, j: int, m: int): Vertex
    requires 0 <= m <= 4
  {
    if m > 0 then Corner(r, level, i, j, m)
    else Vertex(0.5 * (i + i + 1) as real, 0.5 * (j + j + 1) as real,
                0.25 * (Corner(r, level, i, j, 1).h + Corner(r, level, i, j, 2).h
                        + Corner(r, level, i, j, 3).h + Corner(r, level, i, j, 4).h))
  }

  function Sign(h: real): int
  {
    if h > 0.0 then 1 else if h < 0.0 then -1 else 0
  }

  const CASTAB: seq<seq<seq<int>>> := [
    [[0, 0, 8], [0, 2, 5], [7, 6, 9]],
    [[0, 3, 4], [1, 3, 1], [4, 3, 0]],
    [[9, 6, 7], [5, 2, 0], [8, 0, 0]]
  ]

  function CaseValue(s1: int, s2: int, s3: int): (c: int)
    requires -1 <= s1 <= 1 && -1 <= s2 <= 1 && -1 <= s3 <= 1
    ensures 0 <= c <= 9
  {
    CASTAB[s1 + 1][s2 + 1][s3 + 1]
  }

  /** xsect and ysect: where the side between two vertices meets the level. */
  function Cross(p: Vertex, q: Vertex): Point
    requires q.h != p.h
  {
    Point((q.h * p.x - p.h * q.x) / (q.h - p.h), (q.h * p.y - p.h * q.y) / (q.h - p.h))
  }

  function At(v: Vertex): Point
  {
    Point(v.x, v.y)
  }

  /** What the table says can be drawn: sides that are cut have ends of different height. */
  lemma {:induction false} CasesFit(v1: Vertex, v2: Vertex, v3: Vertex)
    ensures var c := CaseValue(Sign(v1.h), Sign(v2.h), Sign(v3.h));
            && (c == 6 || c == 7 || c == 9 ==> v1.h != v2.h)
            && (c == 4 || c == 7 || c == 8 ==> v2.h != v3.h)
            && (c == 5 || c == 8 || c == 9 ==> v3.h != v1.h)
  {
  }

  /** The line through one triangle. */
  function TriangleLine(v1: Vertex, v2: Vertex, v3: Vertex): Option<Segment>
  {
    CasesFit(v1, v2, v3);
    match CaseValue(Sign(v1.h), Sign(v2.h), Sign(v3.h))
    case 1 => Some(Segment(At(v1), At(v2)))
    case 2 => Some(Segment(At(v2), At(v3)))
    case 3 => Some(Segment(At(v3), At(v1)))
    case 4 => Some(Segment(At(v1), Cross(v2, v3)))
    case 5 => Some(Segment(At(v2), Cross(v3, v1)))
    case 6 => Some(Segment(At(v3), Cross(v1, v2)))
    case 7 => Some(Segment(Cross(v1, v2), Cross(v2, v3)))
    case 8 => Some(Segment(Cross(v2, v3), Cross(v3, v1)))
    case 9 => Some(Segment(Cross(v3, v1), Cross(v1, v2)))
    case _ => None
  }

  // ---------------------------------------------------------------- one triangle

  /** A point of the side between two vertices where linear interpolation gives the level. */
  ghost predicate OnLevel(p: Vertex, q: Vertex, c: Point)
  {
    exists t: real :: 0.0 <= t <= 1.0 && Between(p, q, t, c)
  }

  predicate Between(p: Vertex, q: Vertex, t: real, c: Point)
  {
    c.x == Blend(p.x, q.x, t) && c.y == Blend(p.y, q.y, t) && Blend(p.h, q.h, t) == 0.0
  }

  function Product(a: real, b: real): real
  {
    a * b
  }

  /** Linear interpolation. */
  function Blend(p: real, q: real, t: real): real
  {
    p + Product(t, q - p)
  }

  /** The level separates two vertices. */
  predicate Cut(p: Vertex, q: Vertex)
  {
    (p.h < 0.0 && 0.0 < q.h) || (q.h < 0.0 && 0.0 < p.h)
  }

  /** The share of a cut side that lies before the crossing. */
  function Share(p: Vertex, q: Vertex): (t: real)
    requires Cut(p, q)
    ensures 0.0 < t < 1.0
  {
    ShareBounds(p.h, q.h);
    p.h / (p.h - q.h)
  }

  lemma {:induction false} ShareBounds(a: real, b: real)
    requires (a < 0.0 && 0.0 < b) || (b < 0.0 && 0.0 < a)
    ensures 0.0 < a / (a - b) < 1.0
  {
    if a > 0.0 {
      ProperFraction(a, a - b);
    } else {
      ProperFraction(-a, b - a);
      NegateBoth(a, a - b);
    }
  }

  lemma {:induction false} ProperFraction(n: real, d: real)
    requires 0.0 < n < d
    ensures 0.0 < n / d < 1.0
  {
    var t := n / d;
    assert t * d == n;
    SignOfProduct(t - 1.0, d);
    SignOfProduct(-t, d);
    assert (t - 1.0) * d == n - d;
    assert -t * d == -n;
  }

  lemma {:induction false} SignOfProduct(x: real, d: real)
    requires 0.0 < d
    ensures 0.0 <= x ==> 0.0 <= x * d
  {
  }

  lemma {:induction false} CrossCoordinate(a: real, b: real, x: real, y: real)
    requires a != b
    ensures (b * x - a * y) / (b - a) == x + a / (a - b) * (y - x)
  {
    var t := a / (a - b);
    assert t * (a - b) == a;
    assert (x + t * (y - x)) * (b - a) == x * (b - a) - (t * (a - b)) * (y - x);
    assert x * (b - a) - a * (y - x) == b * x - a * y;
    assert ((b * x - a * y) / (b - a)) * (b - a) == b * x - a * y;
  }

  lemma {:induction false} ShareReachesLevel(a: real, b: real)
    requires a != b
    ensures a + a / (a - b) * (b - a) == 0.0
  {
    var t := a / (a - b);
    assert t * (a - b) == a;
    assert t * (b - a) == -(t * (a - b));
  }

  /** The crossing divides the side in proportion to the heights. */
  lemma {:induction false} CrossIsBetween(p: Vertex, q: Vertex)
    requires Cut(p, q)
    ensures Between(p, q, Share(p, q), Cross(p, q)) && OnLevel(p, q, Cross(p, q))
  {
    hide OnLevel;
    CrossCoordinate(p.h, q.h, p.x, q.x);
    CrossCoordinate(p.h, q.h, p.y, q.y);
    ShareReachesLevel(p.h, q.h);
    ShareBounds(p.h, q.h);
    BetweenIsOnLevel(p, q, Share(p, q), Cross(p, q));
  }

  lemma {:induction false} BetweenIsOnLevel(p: Vertex, q: Vertex, t: real, c: Point)
    requires 0.0 <= t <= 1.0 && Between(p, q, t, c)
    ensures OnLevel(p, q, c)
  {
    hide Between;
  }

  /** Both triangles at a side compute the same point, to the last bit of a real number. */
  lemma {:induction false} CrossSymmetric(p: Vertex, q: Vertex)
    requires p.h != q.h
    ensures Cross(p, q) == Cross(q, p)
  {
    NegateBoth(q.h * p.x - p.h * q.x, q.h - p.h);
    NegateBoth(q.h * p.y - p.h * q.y, q.h - p.h);
  }

  lemma {:induction false} NegateBoth(a: real, b: real)
    requires b != 0.0
    ensures a / b == (-a) / (-b)
  {
    var t := a / b;
    assert t * b == a;
    assert t * (-b) == -a;
  }

  lemma {:induction false} VertexOnLevel(p: Vertex, q: Vertex)
    requires p.h == 0.0
    ensures OnLevel(p, q, At(p)) && OnLevel(q, p, At(p))
  {
    assert Between(p, q, 0.0, At(p));
    assert Between(q, p, 1.0, At(p));
  }

  /** Some side of the triangle carries the point, and the level passes there. */
  ghost predicate OnTriangle(v1: Vertex, v2: Vertex, v3: Vertex, c: Point)
  {
    OnLevel(v1, v2, c) || OnLevel(v2, v3, c) || OnLevel(v3, v1, c)
  }

  /** Whatever the level meets, both ends of a line lie on sides of the triangle, at the level's height. */
  lemma {:induction false} LineOnLevel(v1: Vertex, v2: Vertex, v3: Vertex)
    ensures var l := TriangleLine(v1, v2, v3);
            l.Some? ==> OnTriangle(v1, v2, v3, l.value.p1) && OnTriangle(v1, v2, v3, l.value.p2)
  {
    hide OnLevel, Between, Cross;
    if v1.h == 0.0 {
      VertexOnLevel(v1, v2);
    }
    if v2.h == 0.0 {
      VertexOnLevel(v2, v3);
    }
    if v3.h == 0.0 {
      VertexOnLevel(v3, v1);
    }
    if Cut(v1, v2) {
      CrossIsBetween(v1, v2);
    }
    if Cut(v2, v3) {
      CrossIsBetween(v2, v3);
    }
    if Cut(v3, v1) {
      CrossIsBetween(v3, v1);
    }
  }

  /**
    A level that meets no vertex: a line is drawn exactly if some side is cut; then exactly two sides are, and
    the line joins their crossings.
  */
  lemma {:induction false} LineJoinsCuts(v1: Vertex, v2: Vertex, v3: Vertex)
    requires v1.h != 0.0 && v2.h != 0.0 && v3.h != 0.0
    ensures var l := TriangleLine(v1, v2, v3);
            && (l.Some? <==> Cut(v1, v2) || Cut(v2, v3) || Cut(v3, v1))
            && !(Cut(v1, v2) && Cut(v2, v3) && Cut(v3, v1))
            && (Cut(v1, v2) && Cut(v2, v3) ==> l == Some(Segment(Cross(v1, v2), Cross(v2, v3))))
            && (Cut(v2, v3) && Cut(v3, v1) ==> l == Some(Segment(Cross(v2, v3), Cross(v3, v1))))
            && (Cut(v3, v1) && Cut(v1, v2) ==> l == Some(Segment(Cross(v3, v1), Cross(v1, v2))))
            && (Cut(v1, v2) ==> Cut(v2, v3) || Cut(v3, v1)) && (Cut(v2, v3) ==> Cut(v3, v1) || Cut(v1, v2))
            && (Cut(v3, v1) ==> Cut(v1, v2) || Cut(v2, v3))
  {
    hide Cross;
  }

  /** A line between two points, in either direction. */
  predicate Joins(l: Option<Segment>, a: Point, b: Point)
  {
    l == Some(Segment(a, b)) || l == Some(Segment(b, a))
  }

  /**
    From the heights alone, whatever the level meets: a vertex on the level is joined to the crossing of the side
    opposite, two vertices on the level to each other, and of three those that are corners of the cell; two crossings
    are joined as above. Nothing else is drawn.
  */
  lemma {:induction false} LineFromHeights(v1: Vertex, v2: Vertex, v3: Vertex)
    ensures var l := TriangleLine(v1, v2, v3);
            var (z1, z2, z3) := (v1.h == 0.0, v2.h == 0.0, v3.h == 0.0);
            && (z1 && Cut(v2, v3) ==> Joins(l, At(v1), Cross(v2, v3)))
            && (z2 && Cut(v3, v1) ==> Joins(l, At(v2), Cross(v3, v1)))
            && (z3 && Cut(v1, v2) ==> Joins(l, At(v3), Cross(v1, v2)))
            && (z1 && z2 && !z3 ==> Joins(l, At(v1), At(v2))) && (z2 && z3 && !z1 ==> Joins(l, At(v2), At(v3)))
            && (z3 && z1 ==> Joins(l, At(v3), At(v1)))
            && (l.Some? <==> Cut(v1, v2) || Cut(v2, v3) || Cut(v3, v1) || (z1 && z2) || (z2 && z3) || (z3 && z1))
  {
    hide Cross;
  }

  // ---------------------------------------------------------------- what is emitted

  /** The corner behind corner `m`. */
  function Third(m: int): int
  {
    if m != 4 then m + 1 else 1
  }

  /** The line that triangle `m` of a cell contributes. */
  function TriangleLines(r: Raster, level: real, i: int, j: int, m: int): seq<Segment>
    requires 1 <= m <= 4
  {
    match TriangleLine(Box(r, level, i, j, m), Box(r, level, i, j, 0), Box(r, level, i, j, Third(m)))
    case Some(s) => [s]
    case None => []
  }

  function CellLines(r: Raster, level: real, i: int, j: int): seq<Segment>
  {
    TriangleLines(r, level, i, j, 1) + TriangleLines(r, level, i, j, 2)
    + TriangleLines(r, level, i, j, 3) + TriangleLines(r, level, i, j, 4)
  }

  function Min(a: real, b: real): real
  {
    if a < b then a else b
  }

  function Max(a: real, b: real): real
  {
    if a > b then a else b
  }

  function Low(r: Raster, i: int, j: int): real
  {
    Min(Min(r.value(i, j), r.value(i, j + 1)), Min(r.value(i + 1, j), r.value(i + 1, j + 1)))
  }

  function High(r: Raster, i: int, j: int): real
  {
    Max(Max(r.value(i, j), r.value(i, j + 1)), Max(r.value(i + 1, j), r.value(i + 1, j + 1)))
  }

  /** The guards in front of a cell and a level. */
  predicate Passes(r: Raster, levels: seq<real>, k: nat, i: int, j: int)
    requires k < |levels|
  {
    High(r, i, j) >= levels[0] && Low(r, i, j) <= levels[|levels| - 1]
    && levels[k] >= Low(r, i, j) && levels[k] <= High(r, i, j)
  }

  function CellEmits(r: Raster, levels: seq<real>, k: nat, i: int, j: int): seq<Segment>
    requires k < |levels|
  {
    if Passes(r, levels, k, i, j) then CellLines(r, levels[k], i, j) else []
  }

  /** The cells of row `j` before `i`. */
  function RowEmits(r: Raster, levels: seq<real>, k: nat, j: int, i: int): seq<Segment>
    requires k < |levels|
    decreases i - r.lowerY
  {
    if i <= r.lowerY then [] else RowEmits(r, levels, k, j, i - 1) + CellEmits(r, levels, k, i - 1, j)
  }

  /** The rows from the last down to `j`. The loops run `i` up to the y bound and `j` up to the x bound. */
  function Emits(r: Raster, levels: seq<real>, k: nat, j: int): seq<Segment>
    requires k < |levels|
    decreases r.upperX - j
  {
    if j >= r.upperX then [] else Emits(r, levels, k, j + 1) + RowEmits(r, levels, k, j, r.upperY)
  }

  // ---------------------------------------------------------------- triangles and their sides

  datatype Triangle = Triangle(i: int, j: int, m: int)

  /** A side of a triangle: from corner `m` of a cell to its centre, or from a grid point along either axis. */
  datatype Side = Spoke(i: int, j: int, m: int) | Along(i: int, j: int) | Across(i: int, j: int)

  /** The sides between a triangle's first and second, second and third, third and first vertex. */
  function Sides(t: Triangle): (Side, Side, Side)
  {
    (Spoke(t.i, t.j, t.m), Spoke(t.i, t.j, Third(t.m)),
     if t.m == 1 then Along(t.i, t.j) else if t.m == 2 then Across(t.i + 1, t.j)
     else if t.m == 3 then Along(t.i, t.j + 1) else Across(t.i, t.j))
  }

  predicate HasSide(t: Triangle, e: Side)
  {
    1 <= t.m <= 4 && (e == Sides(t).0 || e == Sides(t).1 || e == Sides(t).2)
  }

  /** The two triangles on both sides of a side. */
  function Neighbours(e: Side): (Triangle, Triangle)
  {
    match e
    case Spoke(i, j, m) => (Triangle(i, j, m), Triangle(i, j, if m == 1 then 4 else m - 1))
    case Along(i, j) => (Triangle(i, j, 1), Triangle(i, j - 1, 3))
    case Across(i, j) => (Triangle(i, j, 4), Triangle(i - 1, j, 2))
  }

  predicate ValidSide(e: Side)
  {
    e.Spoke? ==> 1 <= e.m <= 4
  }

  /** The triangles tile the plane: every side has exactly two. */
  lemma {:induction false} TwoTrianglesAtASide(e: Side, t: Triangle)
    requires ValidSide(e)
    ensures Neighbours(e).0 != Neighbours(e).1
    ensures HasSide(t, e) <==> t == Neighbours(e).0 || t == Neighbours(e).1
  {
  }

  /** Where a side begins and ends. */
  function SideEnds(r: Raster, level: real, e: Side): (Vertex, Vertex)
    requires ValidSide(e)
  {
    match e
    case Spoke(i, j, m) => (Box(r, level, i, j, m), Box(r, level, i, j, 0))
    case Along(i, j) => (Corner(r, level, i, j, 1), Corner(r, level, i, j, 2))
    case Across(i, j) => (Corner(r, level, i, j, 1), Corner(r, level, i, j, 4))
  }

  predicate SideCut(r: Raster, level: real, e: Side)
    requires ValidSide(e)
  {
    Cut(SideEnds(r, level, e).0, SideEnds(r, level, e).1)
  }

  function Crossing(r: Raster, level: real, e: Side): Point
    requires ValidSide(e) && SideCut(r, level, e)
  {
    Cross(SideEnds(r, level, e).0, SideEnds(r, level, e).1)
  }

  function V1(r: Raster, level: real, t: Triangle): Vertex
    requires 1 <= t.m <= 4
  {
    Box(r, level, t.i, t.j, t.m)
  }

  function V2(r: Raster, level: real, t: Triangle): Vertex
  {
    Box(r, level, t.i, t.j, 0)
  }

  function V3(r: Raster, level: real, t: Triangle): Vertex
    requires 1 <= t.m <= 4
  {
    Box(r, level, t.i, t.j, Third(t.m))
  }

  /** A triangle's own way of computing a crossing gives the side's crossing. */
  lemma {:induction false} SidesAreVertices(r: Raster, level: real, t: Triangle)
    requires 1 <= t.m <= 4
    ensures SideEnds(r, level, Sides(t).0) == (V1(r, level, t), V2(r, level, t))
    ensures SideEnds(r, level, Sides(t).1) == (V3(r, level, t), V2(r, level, t))
    ensures SideEnds(r, level, Sides(t).2) == (V1(r, level, t), V3(r, level, t))
            || SideEnds(r, level, Sides(t).2) == (V3(r, level, t), V1(r, level, t))
  {
  }

  lemma {:induction false} TriangleCrossings(r: Raster, level: real, t: Triangle)
    requires 1 <= t.m <= 4
    ensures var (e1, e2, e3) := Sides(t);
            var (v1, v2, v3) := (V1(r, level, t), V2(r, level, t), V3(r, level, t));
            && (Cut(v1, v2) <==> SideCut(r, level, e1)) && (Cut(v2, v3) <==> SideCut(r, level, e2))
            && (Cut(v3, v1) <==> SideCut(r, level, e3))
            && (Cut(v1, v2) ==> Cross(v1, v2) == Crossing(r, level, e1))
            && (Cut(v2, v3) ==> Cross(v2, v3) == Crossing(r, level, e2))
            && (Cut(v3, v1) ==> Cross(v3, v1) == Crossing(r, level, e3))
  {
    hide Box, Cross;
    SidesAreVertices(r, level, t);
    var (v1, v2, v3) := (V1(r, level, t), V2(r, level, t), V3(r, level, t));
    if Cut(v2, v3) {
      CrossSymmetric(v2, v3);
    }
    if Cut(v3, v1) {
      CrossSymmetric(v3, v1);
    }
  }

  /** Twice the area spanned at `o`. */
  function Det(o: Vertex, p: Vertex, q: Vertex): real
  {
    (p.x - o.x) * (q.y - o.y) - (p.y - o.y) * (q.x - o.x)
  }

  lemma {:induction false} SameMultiples(a: real, b: real, px: real, py: real, qx: real, qy: real)
    requires a * px == b * qx && a * py == b * qy
    ensures a * (px * qy - py * qx) == 0.0
  {
    assert a * (px * qy - py * qx) == (a * px) * qy - (a * py) * qx;
    assert (b * qx) * qy - (b * qy) * qx == 0.0;
  }

  lemma {:induction false} NoZeroProduct(a: real, d: real)
    requires a * d == 0.0
    ensures a == 0.0 || d == 0.0
  {
  }

  /** Two sides with a common vertex are crossed at different points. */
  lemma {:induction false} CrossingsApart(o: Vertex, p: Vertex, q: Vertex)
    requires Cut(o, p) && Cut(o, q) && Det(o, p, q) != 0.0
    ensures Cross(o, p) != Cross(o, q)
  {
    hide Cross, OnLevel;
    CrossIsBetween(o, p);
    CrossIsBetween(o, q);
    if Cross(o, p) == Cross(o, q) {
      SameMultiples(Share(o, p), Share(o, q), p.x - o.x, p.y - o.y, q.x - o.x, q.y - o.y);
      NoZeroProduct(Share(o, p), Det(o, p, q));
    }
  }

  /** The triangles of a cell have an area. */
  lemma {:induction false} TriangleHasArea(r: Raster, level: real, t: Triangle)
    requires 1 <= t.m <= 4
    ensures Det(V1(r, level, t), V2(r, level, t), V3(r, level, t)) != 0.0
    ensures Det(V2(r, level, t), V3(r, level, t), V1(r, level, t)) != 0.0
    ensures Det(V3(r, level, t), V1(r, level, t), V2(r, level, t)) != 0.0
  {
    var (v1, v2, v3) := (V1(r, level, t), V2(r, level, t), V3(r, level, t));
    DetTurns(v1, v2, v3);
    DetTurns(v2, v3, v1);
    var dx, dy := v1.x - v2.x, v1.y - v2.y;
    var ex, ey := v3.x - v2.x, v3.y - v2.y;
    if t.m == 1 {
      assert dx == -0.5 && dy == -0.5 && ex == 0.5 && ey == -0.5;
    } else if t.m == 2 {
      assert dx == 0.5 && dy == -0.5 && ex == 0.5 && ey == 0.5;
    } else if t.m == 3 {
      assert dx == 0.5 && dy == 0.5 && ex == -0.5 && ey == 0.5;
    } else {
      assert dx == -0.5 && dy == 0.5 && ex == -0.5 && ey == -0.5;
    }
    assert Det(v2, v3, v1) == ex * dy - ey * dx;
  }

  lemma {:induction false} DetTurns(o: Vertex, p: Vertex, q: Vertex)
    ensures Det(o, p, q) == Det(p, q, o)
  {
    var a, b, c, d := p.x - o.x, p.y - o.y, q.x - o.x, q.y - o.y;
    assert q.x - p.x == c - a && q.y - p.y == d - b && o.x - p.x == -a && o.y - p.y == -b;
    assert (c - a) * (-b) == a * b - b * c;
    assert (d - b) * (-a) == a * b - a * d;
  }

  // ---------------------------------------------------------------- what reaches the list

  predicate Visited(r: Raster, t: Triangle)
  {
    r.lowerY <= t.i < r.upperY && r.lowerX <= t.j < r.upperX && 1 <= t.m <= 4
  }

  /** A cell is visited if its triangles are. */
  predicate CellVisited(r: Raster, i: int, j: int)
  {
    Visited(r, Triangle(i, j, 1))
  }

  /** The first coordinate of the raster's own cells runs between the bounds of x. */
  predicate OwnCell(r: Raster, i: int, j: int)
  {
    r.lowerX <= i < r.upperX && r.lowerY <= j < r.upperY
  }

  /** Both loops are given the other one's bounds: only the cells of a raster with equal bounds are the visited ones. */
  lemma {:induction false} OwnCellsVisited(r: Raster)
    ensures (forall i, j :: CellVisited(r, i, j) <==> OwnCell(r, i, j)) <==>
              (r.lowerX == r.lowerY && r.upperX == r.upperY) || r.upperX <= r.lowerX || r.upperY <= r.lowerY
  {
    if r.lowerX < r.upperX && r.lowerY < r.upperY {
      assert CellVisited(r, r.lowerY, r.lowerX) && CellVisited(r, r.upperY - 1, r.upperX - 1);
      assert OwnCell(r, r.lowerX, r.lowerY) && OwnCell(r, r.upperX - 1, r.upperY - 1);
    }
  }

  /** Of two cells side by side the second is not visited, but the one above the first. */
  lemma {:induction false} TwoCells(value: (int, int) -> real)
    ensures var r := Raster(value, 0, 0, 2, 1);
            OwnCell(r, 1, 0) && !CellVisited(r, 1, 0) && CellVisited(r, 0, 1) && !OwnCell(r, 0, 1)
  {
  }

  predicate Increasing(levels: seq<real>)
  {
    forall a, b :: 0 <= a < b < |levels| ==> levels[a] < levels[b]
  }

  /** A cell with a cut side passes the guards. */
  lemma {:induction false} CutPasses(r: Raster, levels: seq<real>, k: nat, t: Triangle, e: Side)
    requires k < |levels| && Increasing(levels) && HasSide(t, e) && SideCut(r, levels[k], e)
    ensures Passes(r, levels, k, t.i, t.j)
  {
    var level := levels[k];
    CutInCell(r, level, t, e);
    assert levels[0] <= level <= levels[|levels| - 1];
  }

  lemma {:induction false} CutInCell(r: Raster, level: real, t: Triangle, e: Side)
    requires HasSide(t, e) && SideCut(r, level, e)
    ensures Low(r, t.i, t.j) <= level <= High(r, t.i, t.j)
  {
    hide Low, High;
    CornersBetween(r, level, t.i, t.j);
    SidesAreVertices(r, level, t);
  }

  /** No vertex of a cell is higher than its highest corner, or lower than its lowest. */
  lemma {:induction false} CornersBetween(r: Raster, level: real, i: int, j: int)
    ensures forall m :: 0 <= m <= 4 ==> Low(r, i, j) <= Box(r, level, i, j, m).h + level <= High(r, i, j)
  {
    forall m | 1 <= m <= 4
      ensures Low(r, i, j) <= Box(r, level, i, j, m).h + level <= High(r, i, j)
    {
    }
    assert Low(r, i, j) <= Box(r, level, i, j, 1).h + level <= High(r, i, j);
    assert Low(r, i, j) <= Box(r, level, i, j, 2).h + level <= High(r, i, j);
    assert Low(r, i, j) <= Box(r, level, i, j, 3).h + level <= High(r, i, j);
    assert Low(r, i, j) <= Box(r, level, i, j, 4).h + level <= High(r, i, j);
  }

  /** The lines of a visited cell are in the list. */
  lemma {:induction false} RowHolds(r: Raster, levels: seq<real>, k: nat, j: int, i: int, i0: int, s: Segment)
    requires k < |levels| && r.lowerY <= i0 < i && s in CellEmits(r, levels, k, i0, j)
    ensures s in RowEmits(r, levels, k, j, i)
    decreases i - i0
  {
    hide CellEmits;
    if i0 < i - 1 {
      RowHolds(r, levels, k, j, i - 1, i0, s);
    }
  }

  lemma {:induction false} ListHolds(r: Raster, levels: seq<real>, k: nat, j: int, i0: int, j0: int, s: Segment)
    requires k < |levels| && r.lowerY <= i0 < r.upperY && j <= j0 < r.upperX && s in CellEmits(r, levels, k, i0, j0)
    ensures s in Emits(r, levels, k, j)
    decreases j0 - j
  {
    hide CellEmits, RowEmits;
    if j == j0 {
      RowHolds(r, levels, k, j, r.upperY, i0, s);
    } else {
      ListHolds(r, levels, k, j + 1, i0, j0, s);
    }
  }

  /** And every line in the list is from a visited cell. */
  lemma {:induction false} RowOrigin(r: Raster, levels: seq<real>, k: nat, j: int, i: int, s: Segment) returns (i0: int)
    requires k < |levels| && s in RowEmits(r, levels, k, j, i)
    ensures r.lowerY <= i0 < i && s in CellEmits(r, levels, k, i0, j)
    decreases i - r.lowerY
  {
    hide CellEmits;
    if s in CellEmits(r, levels, k, i - 1, j) {
      i0 := i - 1;
    } else {
      i0 := RowOrigin(r, levels, k, j, i - 1, s);
    }
  }

  lemma {:induction false} ListOrigin(r: Raster, levels: seq<real>, k: nat, j: int, s: Segment)
      returns (i0: int, j0: int)
    requires k < |levels| && s in Emits(r, levels, k, j)
    ensures r.lowerY <= i0 < r.upperY && j <= j0 < r.upperX && s in CellEmits(r, levels, k, i0, j0)
    decreases r.upperX - j
  {
    hide CellEmits, RowEmits;
    if s in RowEmits(r, levels, k, j, r.upperY) {
      j0 := j;
      i0 := RowOrigin(r, levels, k, j, r.upperY, s);
    } else {
      i0, j0 := ListOrigin(r, levels, k, j + 1, s);
    }
  }

  // ---------------------------------------------------------------- watertight

  /** The level meets no grid value and no average at a visited cell. */
  ghost predicate Clear(r: Raster, level: real)
  {
    forall i, j, m :: r.lowerY <= i < r.upperY && r.lowerX <= j < r.upperX && 0 <= m <= 4 ==>
        Box(r, level, i, j, m).h != 0.0
  }

  /**
    Every line in the list joins two different sides of one visited triangle, both cut by the level, at the points
    where the linear interpolation along them reaches it.
  */
  lemma {:induction false} EveryLineJoinsCrossings(r: Raster, levels: seq<real>, k: nat, s: Segment)
      returns (t: Triangle, e: Side, f: Side)
    requires k < |levels| && Clear(r, levels[k]) && s in Emits(r, levels, k, r.lowerX)
    ensures Visited(r, t) && HasSide(t, e) && HasSide(t, f) && e != f
            && TriangleLines(r, levels[k], t.i, t.j, t.m) == [s]
    ensures SideCut(r, levels[k], e) && SideCut(r, levels[k], f)
    ensures s.p1 == Crossing(r, levels[k], e) && s.p2 == Crossing(r, levels[k], f)
    ensures OnLevel(SideEnds(r, levels[k], e).0, SideEnds(r, levels[k], e).1, s.p1)
    ensures OnLevel(SideEnds(r, levels[k], f).0, SideEnds(r, levels[k], f).1, s.p2)
  {
    hide Cross, OnLevel, TriangleLine, Box, Emits;
    var level := levels[k];
    var i, j := ListOrigin(r, levels, k, r.lowerX, s);
    var m := LineOfTriangle(r, level, i, j, s);
    t := Triangle(i, j, m);
    var (v1, v2, v3) := (V1(r, level, t), V2(r, level, t), V3(r, level, t));
    LineJoinsCuts(v1, v2, v3);
    TriangleCrossings(r, level, t);
    var (e1, e2, e3) := Sides(t);
    if Cut(v1, v2) && Cut(v2, v3) {
      e, f := e1, e2;
    } else if Cut(v2, v3) {
      e, f := e2, e3;
    } else {
      e, f := e3, e1;
    }
    CrossIsBetween(SideEnds(r, level, e).0, SideEnds(r, level, e).1);
    CrossIsBetween(SideEnds(r, level, f).0, SideEnds(r, level, f).1);
  }

  lemma {:induction false} LineOfTriangle(r: Raster, level: real, i: int, j: int, s: Segment) returns (m: int)
    requires s in CellLines(r, level, i, j)
    ensures 1 <= m <= 4 && TriangleLines(r, level, i, j, m) == [s]
  {
    hide TriangleLine, Box;
    m := if s in TriangleLines(r, level, i, j, 1) then 1 else if s in TriangleLines(r, level, i, j, 2) then 2
         else if s in TriangleLines(r, level, i, j, 3) then 3 else 4;
  }

  /** How many segment ends of a list lie at a point. */
  function EndsAt(ss: seq<Segment>, c: Point): nat
  {
    if ss == [] then 0 else EndsAt(ss[..|ss| - 1], c) + EndsOf(ss[|ss| - 1], c)
  }

  function EndsOf(s: Segment, c: Point): nat
  {
    (if s.p1 == c then 1 else 0) + (if s.p2 == c then 1 else 0)
  }

  lemma {:induction false} EndsAppend(a: seq<Segment>, b: seq<Segment>, c: Point)
    ensures EndsAt(a + b, c) == EndsAt(a, c) + EndsAt(b, c)
    decreases |b|
  {
    hide EndsOf;
    if b == [] {
      assert a + b == a;
    } else {
      var n := |b| - 1;
      EndsAppend(a, b[..n], c);
      assert (a + b)[..|a + b| - 1] == a + b[..n];
    }
  }

  /**
    Inside its side: between corner and centre, in the quarter of the cell that the corner belongs to, or on a grid
    line.
  */
  predicate Inside(e: Side, c: Point)
    requires ValidSide(e)
  {
    match e
    case Spoke(i, j, m) =>
      && i as real < c.x < (i + 1) as real && j as real < c.y < (j + 1) as real
      && (if m == 1 || m == 4 then c.x < i as real + 0.5 else c.x > i as real + 0.5)
      && (if m == 1 || m == 2 then c.y < j as real + 0.5 else c.y > j as real + 0.5)
    case Along(i, j) => c.y == j as real && i as real < c.x < (i + 1) as real
    case Across(i, j) => c.x == i as real && j as real < c.y < (j + 1) as real
  }

  lemma {:induction false} ProductPositive(a: real, b: real)
    requires 0.0 < a && 0.0 < b
    ensures 0.0 < Product(a, b)
  {
  }

  lemma {:induction false} ProductOfRest(t: real, d: real)
    ensures Product(1.0 - t, d) == d - Product(t, d)
  {
  }

  lemma {:induction false} ProductNegated(t: real, d: real)
    ensures Product(t, -d) == -Product(t, d)
  {
  }

  lemma {:induction false} ProperPart(t: real, d: real)
    requires 0.0 < t < 1.0 && 0.0 < d
    ensures 0.0 < Product(t, d) < d
  {
    hide Product;
    ProductPositive(t, d);
    ProductPositive(1.0 - t, d);
    ProductOfRest(t, d);
  }

  /** Strictly between. */
  lemma {:induction false} BlendInside(p: real, q: real, t: real)
    requires 0.0 < t < 1.0
    ensures p < q ==> p < Blend(p, q, t) < q
    ensures q < p ==> q < Blend(p, q, t) < p
    ensures p == q ==> Blend(p, q, t) == p
  {
    if p < q {
      hide Product;
      ProperPart(t, q - p);
    } else if q < p {
      hide Product;
      ProperPart(t, -(q - p));
      ProductNegated(t, q - p);
    }
  }

  /** Where the ends of a side stand. */
  lemma {:induction false} SideCoordinates(r: Raster, level: real, e: Side)
    requires ValidSide(e)
    ensures var (p, q) := SideEnds(r, level, e);
            var x, y := e.i as real, e.j as real;
            match e
            case Spoke(_, _, m) =>
              && q.x == x + 0.5 && q.y == y + 0.5
              && p.x == (if m == 1 || m == 4 then x else x + 1.0) && p.y == (if m == 1 || m == 2 then y else y + 1.0)
            case Along(_, _) => p.x == x && q.x == x + 1.0 && p.y == y == q.y
            case Across(_, _) => p.x == x == q.x && p.y == y && q.y == y + 1.0
  {
  }

  lemma {:induction false} CrossingInside(r: Raster, level: real, e: Side)
    requires ValidSide(e) && SideCut(r, level, e)
    ensures Inside(e, Crossing(r, level, e))
  {
    hide Cross, OnLevel, Share, Blend, SideEnds, Cut;
    var (p, q) := SideEnds(r, level, e);
    CrossIsBetween(p, q);
    var t := Share(p, q);
    BlendInside(p.x, q.x, t);
    BlendInside(p.y, q.y, t);
    SideCoordinates(r, level, e);
  }

  lemma {:induction false} OneInside(e: Side, f: Side, c: Point)
    requires ValidSide(e) && ValidSide(f) && Inside(e, c) && Inside(f, c)
    ensures e == f
  {
  }

  /** Different sides are crossed at different points. */
  lemma {:induction false} CrossingOfOneSide(r: Raster, level: real, e: Side, f: Side)
    requires ValidSide(e) && SideCut(r, level, e) && ValidSide(f) && SideCut(r, level, f)
    requires Crossing(r, level, e) == Crossing(r, level, f)
    ensures e == f
  {
    hide Inside, Crossing, SideEnds, Cut;
    CrossingInside(r, level, e);
    CrossingInside(r, level, f);
    OneInside(e, f, Crossing(r, level, e));
  }

  function Once(b: bool): nat
  {
    if b then 1 else 0
  }

  /** A vertex of the triangulation: the centre of a cell, or a grid point. */
  datatype Node = Centre(i: int, j: int) | Grid(i: int, j: int)

  function NodePoint(n: Node): Point
  {
    match n
    case Centre(i, j) => Point(i as real + 0.5, j as real + 0.5)
    case Grid(i, j) => Point(i as real, j as real)
  }

  /** Vertex `m` of a cell. */
  function NodeOf(i: int, j: int, m: int): Node
    requires 0 <= m <= 4
  {
    if m == 0 then Centre(i, j) else Grid(i + IM[m - 1], j + JM[m - 1])
  }

  lemma {:induction false} BoxIsNode(r: Raster, level: real, i: int, j: int, m: int)
    requires 0 <= m <= 4
    ensures At(Box(r, level, i, j, m)) == NodePoint(NodeOf(i, j, m))
  {
    if m == 0 {
      assert (i + i + 1) as real == i as real + i as real + 1.0;
      assert (j + j + 1) as real == j as real + j as real + 1.0;
    }
  }

  lemma {:induction false} BetweenIntegers(i: int, x: int)
    ensures !(i as real < x as real < (i + 1) as real)
    ensures i as real < x as real + 0.5 < (i + 1) as real <==> x == i
    ensures x as real + 0.5 != i as real
    ensures (i + 1) as real == i as real + 1.0
  {
  }

  /** The first, second and third vertex of a triangle. */
  function Nodes(t: Triangle): (Node, Node, Node)
    requires 1 <= t.m <= 4
  {
    (NodeOf(t.i, t.j, t.m), Centre(t.i, t.j), NodeOf(t.i, t.j, Third(t.m)))
  }

  lemma {:induction false} NodesOfTriangle(r: Raster, level: real, t: Triangle)
    requires 1 <= t.m <= 4
    ensures At(V1(r, level, t)) == NodePoint(Nodes(t).0) && At(V2(r, level, t)) == NodePoint(Nodes(t).1)
    ensures At(V3(r, level, t)) == NodePoint(Nodes(t).2)
  {
    BoxIsNode(r, level, t.i, t.j, t.m);
    BoxIsNode(r, level, t.i, t.j, 0);
    BoxIsNode(r, level, t.i, t.j, Third(t.m));
  }

  /** Vertices lie inside no side. */
  lemma {:induction false} NodeOutside(n: Node, e: Side)
    requires ValidSide(e)
    ensures !Inside(e, NodePoint(n))
  {
    BetweenIntegers(e.i, n.i);
    BetweenIntegers(e.j, n.j);
  }

  /** Whether a point is an end of a triangle's line. */
  lemma {:induction false} TriangleEndsAt(r: Raster, level: real, t: Triangle, c: Point)
    requires 1 <= t.m <= 4
    ensures EndsAt(TriangleLines(r, level, t.i, t.j, t.m), c)
         == match TriangleLine(V1(r, level, t), V2(r, level, t), V3(r, level, t))
            case Some(s) => EndsOf(s, c)
            case None => 0
  {
    hide TriangleLine, Box, EndsOf;
    var ss := TriangleLines(r, level, t.i, t.j, t.m);
    if ss != [] {
      assert ss[..|ss| - 1] == [];
    }
  }

  /** The line of a triangle has one end on each of its cut sides, and none on any other side. */
  lemma {:induction false} TriangleEnds(r: Raster, level: real, t: Triangle, e: Side)
    requires 1 <= t.m <= 4 && ValidSide(e) && SideCut(r, level, e)
    ensures EndsAt(TriangleLines(r, level, t.i, t.j, t.m), Crossing(r, level, e)) == Once(HasSide(t, e))
  {
    hide Cross, TriangleLine, Box, Crossing, SideEnds, Cut, Inside;
    var (v1, v2, v3) := (V1(r, level, t), V2(r, level, t), V3(r, level, t));
    if v1.h != 0.0 && v2.h != 0.0 && v3.h != 0.0 {
      LineJoinsCuts(v1, v2, v3);
    }
    LineFromHeights(v1, v2, v3);
    TriangleCrossings(r, level, t);
    EndsApart(r, level, t);
    var c := Crossing(r, level, e);
    forall f | ValidSide(f) && SideCut(r, level, f) && Crossing(r, level, f) == c
      ensures e == f
    {
      CrossingOfOneSide(r, level, e, f);
    }
    CrossingInside(r, level, e);
    NodesOfTriangle(r, level, t);
    NodeOutside(Nodes(t).0, e);
    NodeOutside(Nodes(t).1, e);
    NodeOutside(Nodes(t).2, e);
    TriangleEndsAt(r, level, t, c);
    CutsOfTriangle(v1, v2, v3);
  }

  /** Which sides can be cut, by how many vertices are on the level. */
  lemma {:induction false} CutsOfTriangle(v1: Vertex, v2: Vertex, v3: Vertex)
    ensures Cut(v1, v2) ==> v1.h != 0.0 && v2.h != 0.0
    ensures Cut(v2, v3) ==> v2.h != 0.0 && v3.h != 0.0
    ensures Cut(v3, v1) ==> v3.h != 0.0 && v1.h != 0.0
  {
  }

  /** A cell contributes one end for each of its triangles at the side. */
  lemma {:induction false} CellEnds(r: Raster, levels: seq<real>, k: nat, i: int, j: int, e: Side)
    requires k < |levels| && Increasing(levels) && ValidSide(e) && SideCut(r, levels[k], e)
    requires r.lowerY <= i < r.upperY && r.lowerX <= j < r.upperX
    ensures EndsAt(CellEmits(r, levels, k, i, j), Crossing(r, levels[k], e))
         == Once(HasSide(Triangle(i, j, 1), e)) + Once(HasSide(Triangle(i, j, 2), e))
            + Once(HasSide(Triangle(i, j, 3), e)) + Once(HasSide(Triangle(i, j, 4), e))
  {
    hide TriangleLines, Clear, Crossing, SideCut, HasSide, EndsAt, Once;
    var level := levels[k];
    var c := Crossing(r, level, e);
    if Passes(r, levels, k, i, j) {
      var l1, l2, l3, l4 := TriangleLines(r, level, i, j, 1), TriangleLines(r, level, i, j, 2),
                            TriangleLines(r, level, i, j, 3), TriangleLines(r, level, i, j, 4);
      TriangleEnds(r, level, Triangle(i, j, 1), e);
      TriangleEnds(r, level, Triangle(i, j, 2), e);
      TriangleEnds(r, level, Triangle(i, j, 3), e);
      TriangleEnds(r, level, Triangle(i, j, 4), e);
      EndsAppend(l1, l2, c);
      EndsAppend(l1 + l2, l3, c);
      EndsAppend(l1 + l2 + l3, l4, c);
    } else {
      NoSideAtSkipped(r, levels, k, i, j, e);
    }
  }

  lemma {:induction false} NoSideAtSkipped(r: Raster, levels: seq<real>, k: nat, i: int, j: int, e: Side)
    requires k < |levels| && Increasing(levels) && ValidSide(e) && SideCut(r, levels[k], e)
             && !Passes(r, levels, k, i, j)
    ensures Once(HasSide(Triangle(i, j, 1), e)) == Once(HasSide(Triangle(i, j, 2), e)) == 0
    ensures Once(HasSide(Triangle(i, j, 3), e)) == Once(HasSide(Triangle(i, j, 4), e)) == 0
    ensures CellEmits(r, levels, k, i, j) == [] && EndsAt([], Crossing(r, levels[k], e)) == 0
  {
    hide Passes, SideCut, HasSide, Crossing;
    forall m | 1 <= m <= 4
      ensures !HasSide(Triangle(i, j, m), e)
    {
      if HasSide(Triangle(i, j, m), e) {
        CutPasses(r, levels, k, Triangle(i, j, m), e);
      }
    }
  }

  /** Whether a triangle stands in row `j`, before cell `i`. */
  predicate InRow(r: Raster, t: Triangle, j: int, i: int)
  {
    t.j == j && r.lowerY <= t.i < i && 1 <= t.m <= 4
  }

  /** Whether it stands in row `j` or a later one. */
  predicate InRows(r: Raster, t: Triangle, j: int)
  {
    j <= t.j < r.upperX && r.lowerY <= t.i < r.upperY && 1 <= t.m <= 4
  }

  lemma {:induction false} NeighboursInCell(e: Side, i: int, j: int)
    requires ValidSide(e)
    ensures Once(HasSide(Triangle(i, j, 1), e)) + Once(HasSide(Triangle(i, j, 2), e))
            + Once(HasSide(Triangle(i, j, 3), e)) + Once(HasSide(Triangle(i, j, 4), e))
         == Once(Neighbours(e).0.i == i && Neighbours(e).0.j == j)
            + Once(Neighbours(e).1.i == i && Neighbours(e).1.j == j)
  {
    TwoTrianglesAtASide(e, Triangle(i, j, 1));
    TwoTrianglesAtASide(e, Triangle(i, j, 2));
    TwoTrianglesAtASide(e, Triangle(i, j, 3));
    TwoTrianglesAtASide(e, Triangle(i, j, 4));
    hide HasSide;
  }

  lemma {:induction false} RowEnds(r: Raster, levels: seq<real>, k: nat, j: int, i: int, e: Side)
    requires k < |levels| && Increasing(levels) && ValidSide(e) && SideCut(r, levels[k], e)
    requires r.lowerX <= j < r.upperX && i <= r.upperY
    ensures EndsAt(RowEmits(r, levels, k, j, i), Crossing(r, levels[k], e))
         == Once(InRow(r, Neighbours(e).0, j, i)) + Once(InRow(r, Neighbours(e).1, j, i))
    decreases i - r.lowerY
  {
    hide CellEmits, Clear, Crossing, SideCut, HasSide, Increasing;
    if r.lowerY < i {
      RowEnds(r, levels, k, j, i - 1, e);
      CellEnds(r, levels, k, i - 1, j, e);
      NeighboursInCell(e, i - 1, j);
      EndsAppend(RowEmits(r, levels, k, j, i - 1), CellEmits(r, levels, k, i - 1, j), Crossing(r, levels[k], e));
    }
  }

  lemma {:induction false} ListEnds(r: Raster, levels: seq<real>, k: nat, j: int, e: Side)
    requires k < |levels| && Increasing(levels) && ValidSide(e) && SideCut(r, levels[k], e)
    requires r.lowerX <= j
    ensures EndsAt(Emits(r, levels, k, j), Crossing(r, levels[k], e))
         == Once(InRows(r, Neighbours(e).0, j)) + Once(InRows(r, Neighbours(e).1, j))
    decreases r.upperX - j
  {
    hide RowEmits, Clear, Crossing, SideCut, HasSide, Increasing, Neighbours;
    if j < r.upperX {
      ListEnds(r, levels, k, j + 1, e);
      RowEnds(r, levels, k, j, r.upperY, e);
      EndsAppend(Emits(r, levels, k, j + 1), RowEmits(r, levels, k, j, r.upperY), Crossing(r, levels[k], e));
    }
  }

  /** At every crossing the list has one segment end for each visited triangle at the side. */
  lemma {:induction false} Watertight(r: Raster, levels: seq<real>, k: nat, e: Side)
    requires k < |levels| && Increasing(levels) && ValidSide(e) && SideCut(r, levels[k], e)
    ensures EndsAt(Emits(r, levels, k, r.lowerX), Crossing(r, levels[k], e))
         == Once(Visited(r, Neighbours(e).0)) + Once(Visited(r, Neighbours(e).1))
  {
    hide Emits, Clear, Crossing, SideCut;
    ListEnds(r, levels, k, r.lowerX, e);
  }

  /** Segments end nowhere else. */
  lemma {:induction false} EndsAreCrossings(r: Raster, levels: seq<real>, k: nat, c: Point) returns (e: Side)
    requires k < |levels| && Clear(r, levels[k]) && EndsAt(Emits(r, levels, k, r.lowerX), c) > 0
    ensures ValidSide(e) && SideCut(r, levels[k], e) && c == Crossing(r, levels[k], e)
    ensures Visited(r, Neighbours(e).0) || Visited(r, Neighbours(e).1)
  {
    hide Emits, Clear, Crossing, SideCut, OnLevel, TriangleLines;
    var s := SegmentAt(Emits(r, levels, k, r.lowerX), c);
    var t, e1, e2 := EveryLineJoinsCrossings(r, levels, k, s);
    e := if s.p1 == c then e1 else e2;
    TwoTrianglesAtASide(e, t);
  }

  lemma {:induction false} SegmentAt(ss: seq<Segment>, c: Point) returns (s: Segment)
    requires EndsAt(ss, c) > 0
    ensures s in ss && (s.p1 == c || s.p2 == c)
    decreases |ss|
  {
    if EndsOf(ss[|ss| - 1], c) > 0 {
      s := ss[|ss| - 1];
    } else {
      s := SegmentAt(ss[..|ss| - 1], c);
    }
  }

  /** The border of the visited rectangle; `i` and the x coordinate run between the y bounds. */
  predicate OnBorder(r: Raster, c: Point)
  {
    c.x == r.lowerY as real || c.x == r.upperY as real || c.y == r.lowerX as real || c.y == r.upperX as real
  }

  lemma {:induction false} OneVisitedIsBorder(r: Raster, e: Side, c: Point)
    requires ValidSide(e) && Inside(e, c) && (Visited(r, Neighbours(e).0) || Visited(r, Neighbours(e).1))
    ensures !(Visited(r, Neighbours(e).0) && Visited(r, Neighbours(e).1)) <==> OnBorder(r, c)
  {
  }

  /**
    Lines end only on the border of the visited rectangle: wherever segments end there are exactly two ends, one
    from each side, if the point is inside the rectangle, and exactly one if it is on the border.
  */
  lemma {:induction false} LinesEndOnBorder(r: Raster, levels: seq<real>, k: nat, c: Point)
    requires k < |levels| && Increasing(levels) && Clear(r, levels[k])
    ensures var n := EndsAt(Emits(r, levels, k, r.lowerX), c);
            n > 0 ==> n == if OnBorder(r, c) then 1 else 2
  {
    hide Emits, Clear, Crossing, SideCut, Visited, Neighbours, Inside, OnBorder;
    if EndsAt(Emits(r, levels, k, r.lowerX), c) > 0 {
      var e := EndsAreCrossings(r, levels, k, c);
      Watertight(r, levels, k, e);
      CrossingInside(r, levels[k], e);
      OneVisitedIsBorder(r, e, c);
    }
  }

  lemma {:induction false} EndsApart(r: Raster, level: real, t: Triangle)
    requires 1 <= t.m <= 4
    ensures var (v1, v2, v3) := (V1(r, level, t), V2(r, level, t), V3(r, level, t));
            && (Cut(v1, v2) && Cut(v2, v3) ==> Cross(v1, v2) != Cross(v2, v3))
            && (Cut(v2, v3) && Cut(v3, v1) ==> Cross(v2, v3) != Cross(v3, v1))
            && (Cut(v3, v1) && Cut(v1, v2) ==> Cross(v3, v1) != Cross(v1, v2))
  {
    hide Cross, Box, Det;
    var (v1, v2, v3) := (V1(r, level, t), V2(r, level, t), V3(r, level, t));
    TriangleHasArea(r, level, t);
    if Cut(v1, v2) && Cut(v2, v3) {
      CrossSymmetric(v1, v2);
      DetSwaps(v2, v3, v1);
      CrossingsApart(v2, v3, v1);
    }
    if Cut(v2, v3) && Cut(v3, v1) {
      CrossSymmetric(v2, v3);
      CrossingsApart(v3, v1, v2);
    }
    if Cut(v3, v1) && Cut(v1, v2) {
      CrossSymmetric(v3, v1);
      CrossingsApart(v1, v2, v3);
    }
  }

  lemma {:induction false} DetSwaps(o: Vertex, p: Vertex, q: Vertex)
    ensures Det(o, p, q) == -Det(o, q, p)
  {
  }

  // ---------------------------------------------------------------- the loops

  /** The arrays h, xh, yh and sh hold vertex `m` of a cell. */
  ghost predicate Holds(v: Vertex, m: int, h: array<real>, xh: array<real>, yh: array<real>, sh: array<int>)
    requires Five(h, xh, yh, sh) && 0 <= m <= 4
    reads h, xh, yh, sh
  {
    h[m] == v.h && xh[m] == v.x && yh[m] == v.y && sh[m] == Sign(v.h)
  }

  predicate Five(h: array<real>, xh: array<real>, yh: array<real>, sh: array<int>)
  {
    h.Length == xh.Length == yh.Length == sh.Length == 5 && h != xh && h != yh && xh != yh
  }

  /** They hold the vertices from `from` on. */
  ghost predicate Filled(r: Raster, level: real, i: int, j: int, h: array<real>, xh: array<real>, yh: array<real>,
      sh: array<int>, from: int)
    reads h, xh, yh, sh
  {
    Five(h, xh, yh, sh) && 0 <= from && forall m :: from <= m <= 4 ==> Holds(Box(r, level, i, j, m), m, h, xh, yh, sh)
  }

  /** The loop that fills them, corners first. */
  method FillBox(r: Raster, level: real, i: int, j: int, h: array<real>, xh: array<real>, yh: array<real>,
      sh: array<int>)
    requires Five(h, xh, yh, sh)
    modifies h, xh, yh, sh
    ensures Filled(r, level, i, j, h, xh, yh, sh, 0)
  {
    hide Holds, Box;
    var m := 4;
    while m >= 0
      invariant -1 <= m <= 4 && Filled(r, level, i, j, h, xh, yh, sh, m + 1)
    {
      FillVertex(r, level, i, j, m, h, xh, yh, sh);
      m := m - 1;
    }
  }

  /** Its body. */
  method FillVertex(r: Raster, level: real, i: int, j: int, m: int, h: array<real>, xh: array<real>, yh: array<real>,
      sh: array<int>)
    requires 0 <= m <= 4 && Filled(r, level, i, j, h, xh, yh, sh, m + 1)
    modifies h, xh, yh, sh
    ensures Filled(r, level, i, j, h, xh, yh, sh, m)
  {
    hide Corner;
    CornersHeld(r, level, i, j, h, xh, yh, sh, m);
    if m > 0 {
      CornerIs(r, level, i, j, m);
      h[m] := r.value(i + IM[m - 1], j + JM[m - 1]) - level;
      xh[m] := (i + IM[m - 1]) as real;
      yh[m] := (j + JM[m - 1]) as real;
    } else {
      h[0] := 0.25 * (h[1] + h[2] + h[3] + h[4]);
      xh[0] := 0.5 * (i + i + 1) as real;
      yh[0] := 0.5 * (j + j + 1) as real;
    }
    if h[m] > 0.0 {
      sh[m] := 1;
    } else if h[m] < 0.0 {
      sh[m] := -1;
    } else {
      sh[m] := 0;
    }
  }

  lemma {:induction false} CornerIs(r: Raster, level: real, i: int, j: int, m: int)
    requires 1 <= m <= 4
    ensures Corner(r, level, i, j, m) ==
            Vertex((i + IM[m - 1]) as real, (j + JM[m - 1]) as real, r.value(i + IM[m - 1], j + JM[m - 1]) - level)
  {
  }

  lemma {:induction false} CornersHeld(r: Raster, level: real, i: int, j: int, h: array<real>, xh: array<real>,
      yh: array<real>, sh: array<int>, m: int)
    requires 0 <= m && Filled(r, level, i, j, h, xh, yh, sh, m + 1)
    ensures m == 0 ==> h[1] == Corner(r, level, i, j, 1).h && h[2] == Corner(r, level, i, j, 2).h
                       && h[3] == Corner(r, level, i, j, 3).h && h[4] == Corner(r, level, i, j, 4).h
  {
    if m == 0 {
      assert Holds(Box(r, level, i, j, 1), 1, h, xh, yh, sh) && Holds(Box(r, level, i, j, 2), 2, h, xh, yh, sh);
      assert Holds(Box(r, level, i, j, 3), 3, h, xh, yh, sh) && Holds(Box(r, level, i, j, 4), 4, h, xh, yh, sh);
    }
  }

  /** xsect and ysect, over the arrays. */
  function Sect(h: array<real>, xh: array<real>, yh: array<real>, p1: int, p2: int): Point
    requires h.Length == xh.Length == yh.Length == 5 && 0 <= p1 <= 4 && 0 <= p2 <= 4 && h[p1] != h[p2]
    reads h, xh, yh
  {
    Point((h[p2] * xh[p1] - h[p1] * xh[p2]) / (h[p2] - h[p1]), (h[p2] * yh[p1] - h[p1] * yh[p2]) / (h[p2] - h[p1]))
  }

  lemma {:induction false} ThirdIs(m: int)
    ensures Third(m) == if m != 4 then m + 1 else 1
  {
  }

  lemma {:induction false} SectIsCross(v: Vertex, w: Vertex, p1: int, p2: int, h: array<real>, xh: array<real>,
      yh: array<real>, sh: array<int>)
    requires Five(h, xh, yh, sh) && 0 <= p1 <= 4 && 0 <= p2 <= 4
    requires Holds(v, p1, h, xh, yh, sh) && Holds(w, p2, h, xh, yh, sh)
    ensures v.h != w.h ==> h[p1] != h[p2] && Sect(h, xh, yh, p1, p2) == Cross(v, w)
  {
  }

  /** The switch: the line through triangle `m`. */
  method DrawTriangle(ghost r: Raster, ghost level: real, ghost i: int, ghost j: int, m: int,
                      h: array<real>, xh: array<real>, yh: array<real>, sh: array<int>) returns (line: Option<Segment>)
    requires Filled(r, level, i, j, h, xh, yh, sh, 0) && 1 <= m <= 4
    ensures line == TriangleLine(Box(r, level, i, j, m), Box(r, level, i, j, 0), Box(r, level, i, j, Third(m)))
  {
    hide Box;
    var m1, m2 := m, 0;
    var m3 := if m != 4 then m + 1 else 1;
    ghost var (v1, v2, v3) := (Box(r, level, i, j, m1), Box(r, level, i, j, m2), Box(r, level, i, j, m3));
    assert Holds(v1, m1, h, xh, yh, sh) && Holds(v2, m2, h, xh, yh, sh) && Holds(v3, m3, h, xh, yh, sh);
    CasesFit(v1, v2, v3);
    SectIsCross(v1, v2, m1, m2, h, xh, yh, sh);
    SectIsCross(v2, v3, m2, m3, h, xh, yh, sh);
    SectIsCross(v3, v1, m3, m1, h, xh, yh, sh);
    hide Cross, Sect, Third;
    assert m3 == Third(m) by {
      ThirdIs(m);
    }
    var p1, p2, p3 := Point(xh[m1], yh[m1]), Point(xh[m2], yh[m2]), Point(xh[m3], yh[m3]);
    match CaseValue(sh[m1], sh[m2], sh[m3])
    case 1 => line := Some(Segment(p1, p2));
    case 2 => line := Some(Segment(p2, p3));
    case 3 => line := Some(Segment(p3, p1));
    case 4 => line := Some(Segment(p1, Sect(h, xh, yh, m2, m3)));
    case 5 => line := Some(Segment(p2, Sect(h, xh, yh, m3, m1)));
    case 6 => line := Some(Segment(p3, Sect(h, xh, yh, m1, m2)));
    case 7 => line := Some(Segment(Sect(h, xh, yh, m1, m2), Sect(h, xh, yh, m2, m3)));
    case 8 => line := Some(Segment(Sect(h, xh, yh, m2, m3), Sect(h, xh, yh, m3, m1)));
    case 9 => line := Some(Segment(Sect(h, xh, yh, m3, m1), Sect(h, xh, yh, m1, m2)));
    case _ => line := None;
  }

  /** Lines per level, as they are found. */
  class Contouring {
    var levels: seq<real>
    var raw: seq<seq<Segment>>

    predicate Valid()
      reads this
    {
      1 <= |levels| == |raw|
    }

    /** CContourMap::generate_levels. One level alone would divide by zero. */
    constructor (min: real, max: real, num: nat)
      requires 2 <= num
      ensures Valid() && |levels| == num && forall k :: 0 <= k < num ==> raw[k] == []
      ensures levels[0] == min && levels[num - 1] == max && (min < max ==> Increasing(levels))
      ensures Spaced(levels, (max - min) / (num - 1) as real)
    {
      var step := (max - min) / (num - 1) as real;
      levels := seq(num, i requires 0 <= i => LevelAt(min, step, i));
      raw := seq(num, i => []);
      new;
      StepsRise(min, max, num, step, levels);
    }

    /** CContourMap::add_segment. */
    method AddSegment(t: Segment, level: nat)
      requires Valid() && level < |levels|
      modifies this`raw
      ensures Valid() && raw == old(raw)[level := old(raw)[level] + [t]]
    {
      raw := raw[level := raw[level] + [t]];
    }

    /** One cell at one level. */
    method ContourCellLevel(r: Raster, i: int, j: int, k: nat, h: array<real>, xh: array<real>, yh: array<real>,
        sh: array<int>)
      requires Valid() && k < |levels|
      requires Five(h, xh, yh, sh)
      modifies this`raw, h, xh, yh, sh
      ensures Valid() && raw == old(raw)[k := old(raw)[k] + CellLines(r, levels[k], i, j)]
    {
      hide Box, TriangleLine;
      FillBox(r, levels[k], i, j, h, xh, yh, sh);
      ghost var before := raw;
      assert before[k] + [] == before[k];
      var m := 1;
      while m <= 4
        invariant 1 <= m <= 5 && Valid()
        invariant raw == before[k := before[k] + FirstLines(r, levels[k], i, j, m)]
        modifies this`raw
      {
        var line := DrawTriangle(r, levels[k], i, j, m, h, xh, yh, sh);
        ghost var found := TriangleLines(r, levels[k], i, j, m);
        if line.Some? {
          AddSegment(line.value, k);
          assert found == [line.value];
        } else {
          assert found == [];
        }
        assert (before[k] + FirstLines(r, levels[k], i, j, m)) + found
                 == before[k] + (FirstLines(r, levels[k], i, j, m) + found);
        assert raw[k] == before[k] + FirstLines(r, levels[k], i, j, m) + found;
        m := m + 1;
      }
      AllFour(r, levels[k], i, j);
    }

    /** One cell at all levels. */
    method ContourCell(r: Raster, i: int, j: int, h: array<real>, xh: array<real>, yh: array<real>, sh: array<int>)
      requires Valid() && Five(h, xh, yh, sh)
      modifies this`raw, h, xh, yh, sh
      ensures Valid() && forall k :: 0 <= k < |levels| ==> raw[k] == old(raw)[k] + CellEmits(r, levels, k, i, j)
    {
      hide CellLines, Low, High;
      var dmin, dmax := Low(r, i, j), High(r, i, j);
      if dmax >= levels[0] && dmin <= levels[|levels| - 1] {
        var k := 0;
        while k < |levels|
          invariant k <= |levels| && Valid()
          invariant forall l :: 0 <= l < k ==> raw[l] == old(raw)[l] + CellEmits(r, levels, l, i, j)
          invariant forall l :: k <= l < |levels| ==> raw[l] == old(raw)[l]
          modifies this`raw, h, xh, yh, sh
        {
          if levels[k] >= dmin && levels[k] <= dmax {
            ContourCellLevel(r, i, j, k, h, xh, yh, sh);
          }
          k := k + 1;
        }
      }
    }

    /** CContourMap::contour: each level's list grows by the lines of all cells, row by row. */
    method Contour(r: Raster)
      requires Valid()
      modifies this`raw
      ensures Valid() && forall k :: 0 <= k < |levels| ==> raw[k] == old(raw)[k] + Emits(r, levels, k, r.lowerX)
    {
      hide CellEmits;
      var h, xh, yh := new real[5], new real[5], new real[5];
      var sh := new int[5];
      var j := r.upperX - 1;
      while j >= r.lowerX
        invariant j < r.upperX && (j + 1 == r.upperX || r.lowerX <= j + 1) && Valid()
        invariant forall k :: 0 <= k < |levels| ==> raw[k] == old(raw)[k] + Emits(r, levels, k, j + 1)
        decreases j - r.lowerX
        modifies this`raw, h, xh, yh, sh
      {
        ContourRow(r, j, h, xh, yh, sh);
        j := j - 1;
      }
    }

    method ContourRow(r: Raster, j: int, h: array<real>, xh: array<real>, yh: array<real>, sh: array<int>)
      requires Valid() && Five(h, xh, yh, sh)
      modifies this`raw, h, xh, yh, sh
      ensures Valid() && forall k :: 0 <= k < |levels| ==> raw[k] == old(raw)[k] + RowEmits(r, levels, k, j, r.upperY)
    {
      hide CellEmits;
      var i := r.lowerY;
      while i <= r.upperY - 1
        invariant r.lowerY <= i && (i <= r.upperY || i == r.lowerY) && Valid()
        invariant forall k :: 0 <= k < |levels| ==> raw[k] == old(raw)[k] + RowEmits(r, levels, k, j, i)
        decreases r.upperY - i
        modifies this`raw, h, xh, yh, sh
      {
        ContourCell(r, i, j, h, xh, yh, sh);
        i := i + 1;
      }
    }
  }

  /** The lines of the triangles before number `m`. */
  function FirstLines(r: Raster, level: real, i: int, j: int, m: int): seq<Segment>
    requires 1 <= m <= 5
  {
    if m == 1 then [] else FirstLines(r, level, i, j, m - 1) + TriangleLines(r, level, i, j, m - 1)
  }

  lemma {:induction false} AllFour(r: Raster, level: real, i: int, j: int)
    ensures FirstLines(r, level, i, j, 5) == CellLines(r, level, i, j)
  {
    hide TriangleLines;
    assert FirstLines(r, level, i, j, 2) == TriangleLines(r, level, i, j, 1);
    assert FirstLines(r, level, i, j, 3) == TriangleLines(r, level, i, j, 1) + TriangleLines(r, level, i, j, 2);
    assert FirstLines(r, level, i, j, 4)
        == TriangleLines(r, level, i, j, 1) + TriangleLines(r, level, i, j, 2) + TriangleLines(r, level, i, j, 3);
  }

  function LevelAt(min: real, step: real, k: nat): real
  {
    min + step * k as real
  }

  /** A level and the next. */
  predicate StepsUp(levels: seq<real>, k: nat, step: real)
    requires k + 1 < |levels|
  {
    levels[k + 1] == levels[k] + step
  }

  predicate Spaced(levels: seq<real>, step: real)
  {
    forall k :: 0 <= k < |levels| - 1 ==> StepsUp(levels, k, step)
  }

  lemma {:induction false} OneStep(min: real, step: real, k: nat)
    ensures LevelAt(min, step, k + 1) == LevelAt(min, step, k) + step
  {
    assert step * (k + 1) as real == step * (k as real + 1.0) == step * k as real + step;
  }

  lemma {:induction false} StepsRise(min: real, max: real, num: nat, step: real, levels: seq<real>)
    requires 2 <= num == |levels| && step == (max - min) / (num - 1) as real
    requires forall k :: 0 <= k < num ==> levels[k] == LevelAt(min, step, k)
    ensures levels[0] == min && levels[num - 1] == max && (min < max ==> Increasing(levels))
    ensures Spaced(levels, step)
  {
    forall k | 0 <= k < num - 1
      ensures StepsUp(levels, k, step)
    {
      OneStep(min, step, k);
    }
    assert levels[0] == LevelAt(min, step, 0) && levels[num - 1] == LevelAt(min, step, num - 1);
    assert step * (num - 1) as real == max - min;
    if min < max {
      StepPositive(max - min, (num - 1) as real);
      forall a, b | 0 <= a < b < num
        ensures levels[a] < levels[b]
      {
        StepGrows(min, step, a, b);
      }
    }
  }

  lemma {:induction false} StepPositive(n: real, d: real)
    requires 0.0 < n && 0.0 < d
    ensures 0.0 < n / d
  {
    SignOfProduct(-(n / d), d);
    assert n / d * d == n;
    assert -(n / d) * d == -n;
  }

  lemma {:induction false} StepGrows(min: real, step: real, a: nat, b: nat)
    requires 0.0 < step && a < b
    ensures LevelAt(min, step, a) < LevelAt(min, step, b)
  {
    var d := (b - a) as real;
    assert step * b as real == step * a as real + step * d;
    assert step * d > 0.0;
  }
}
