/**
 * Geometry primitives of the canvas: line-line intersection by Cramer's rule, the perpendicular
 * offset of a segment, and the separating-axis overlap test for polygons.
 */
module Geometry {
  import opened Wrappers

  datatype Point = Point(x: real, y: real)

  /** A segment from `a` to `b`, the two-element point array returned by `getOffsetLine`. */
  datatype Segment = Segment(a: Point, b: Point)

  /** A polygon is the array of its corners in winding order. */
  type Polygon = seq<Point>

  /** Below this magnitude the determinant is treated as zero (the lines as parallel). */
  const PARALLEL_EPSILON: real := 0.000001

  function Abs(r: real): real { if r < 0.0 then -r else r }

  function Sub(p: Point, q: Point): Point { Point(p.x - q.x, p.y - q.y) }

  function Dot(p: Point, q: Point): real { p.x * q.x + p.y * q.y }

  function Cross(p: Point, q: Point): real { p.x * q.y - p.y * q.x }

  /** The squared Euclidean norm: what the model compares in place of `Math.hypot`. */
  function Norm2(p: Point): real { p.x * p.x + p.y * p.y }

  lemma Norm2NonNegative(p: Point)
    ensures 0.0 <= Norm2(p)
  {
    assert 0.0 <= p.x * p.x && 0.0 <= p.y * p.y;
  }

  /** `sqrt` is the non-negative square root on the non-negative reals (`Math.hypot` is `sqrt` of `Norm2`). */
  ghost predicate IsSqrt(sqrt: real -> real)
  {
    forall s :: 0.0 <= s ==> 0.0 <= sqrt(s) && sqrt(s) * sqrt(s) == s
  }

  /** `r` lies on the (infinite) line through `p` and `q`. */
  ghost predicate OnLine(p: Point, q: Point, r: Point)
  {
    Cross(Sub(q, p), Sub(r, p)) == 0.0
  }

  lemma OnLineEnds(p: Point, q: Point)
    ensures OnLine(p, q, p) && OnLine(p, q, q)
  {
  }

  /** The implicit form `a*x + b*y = c` of a line. */
  datatype Line = Line(a: real, b: real, c: real)

  /** The implicit line through p and q, with the coefficients the source computes. */
  function LineOf(p: Point, q: Point): Line
  {
    var a, b := q.y - p.y, p.x - q.x;
    Line(a, b, a * p.x + b * p.y)
  }

  predicate Satisfies(l: Line, r: Point)
  {
    l.a * r.x + l.b * r.y == l.c
  }

  function LineDet(l1: Line, l2: Line): real
  {
    l1.a * l2.b - l2.a * l1.b
  }

  /** The determinant of the two implicit line equations built from p1p2 and p3p4. */
  function Det(p1: Point, p2: Point, p3: Point, p4: Point): real
  {
    LineDet(LineOf(p1, p2), LineOf(p3, p4))
  }

  /** Cramer's rule for two implicit line equations. */
  function CramerSolution(l1: Line, l2: Line): Point
    requires LineDet(l1, l2) != 0.0
  {
    var det := LineDet(l1, l2);
    Point((l2.b * l1.c - l1.b * l2.c) / det, (l1.a * l2.c - l2.a * l1.c) / det)
  }

  /**
   * `computeIntersection`: null when an argument is missing or the lines are (nearly) parallel;
   * otherwise the one point that lies on both lines.
   */
  function ComputeIntersection(p1: Option<Point>, p2: Option<Point>, p3: Option<Point>, p4: Option<Point>): (r: Option<Point>)
    ensures r.None? <==>
      p1.None? || p2.None? || p3.None? || p4.None? ||
      Abs(Det(p1.value, p2.value, p3.value, p4.value)) < PARALLEL_EPSILON
    ensures r.Some? ==>
      OnLine(p1.value, p2.value, r.value) && OnLine(p3.value, p4.value, r.value)
    ensures r.Some? ==> forall q :: OnLine(p1.value, p2.value, q) && OnLine(p3.value, p4.value, q) ==> q == r.value
  {
    if p1.None? || p2.None? || p3.None? || p4.None? then None
    else if Abs(Det(p1.value, p2.value, p3.value, p4.value)) < PARALLEL_EPSILON then None
    else
      CramerPointOnLines(p1.value, p2.value, p3.value, p4.value);
      Some(CramerSolution(LineOf(p1.value, p2.value), LineOf(p3.value, p4.value)))
  }

  /** Cramer's point lies on both lines, and it is the only such point. */
  lemma CramerPointOnLines(p1: Point, p2: Point, p3: Point, p4: Point)
    requires Det(p1, p2, p3, p4) != 0.0
    ensures var r := CramerSolution(LineOf(p1, p2), LineOf(p3, p4));
      OnLine(p1, p2, r) && OnLine(p3, p4, r) &&
      forall q :: OnLine(p1, p2, q) && OnLine(p3, p4, q) ==> q == r
  {
    var l1, l2 := LineOf(p1, p2), LineOf(p3, p4);
    var r := CramerSolution(l1, l2);
    CramerSolves(l1, l2);
    OnLineImplicit(p1, p2, r);
    OnLineImplicit(p3, p4, r);
    forall q | OnLine(p1, p2, q) && OnLine(p3, p4, q) ensures q == r {
      OnLineImplicit(p1, p2, q);
      OnLineImplicit(p3, p4, q);
      CramerUnique(l1, l2, q);
    }
  }

  /** Being on the line through p and q is satisfying the implicit equation the source builds. */
  lemma OnLineImplicit(p: Point, q: Point, r: Point)
    ensures OnLine(p, q, r) <==> Satisfies(LineOf(p, q), r)
  {
    assert Cross(Sub(q, p), Sub(r, p)) ==
      -((q.y - p.y) * r.x + (p.x - q.x) * r.y - ((q.y - p.y) * p.x + (p.x - q.x) * p.y));
  }

  /** Cramer's rule: the computed point solves both equations. */
  lemma CramerSolves(l1: Line, l2: Line)
    requires LineDet(l1, l2) != 0.0
    ensures Satisfies(l1, CramerSolution(l1, l2)) && Satisfies(l2, CramerSolution(l1, l2))
  {
    var det := LineDet(l1, l2);
    var nx, ny := l2.b * l1.c - l1.b * l2.c, l1.a * l2.c - l2.a * l1.c;
    CramerNumerators(l1.a, l1.b, l1.c, l2.a, l2.b, l2.c);
    ScaledSum(l1.a, l1.b, nx, ny, det, l1.c);
    ScaledSum(l2.a, l2.b, nx, ny, det, l2.c);
  }

  /** The numerators of Cramer's rule, substituted into each equation, give its constant times the determinant. */
  lemma CramerNumerators(a1: real, b1: real, c1: real, a2: real, b2: real, c2: real)
    ensures a1 * (b2 * c1 - b1 * c2) + b1 * (a1 * c2 - a2 * c1) == c1 * (a1 * b2 - a2 * b1)
    ensures a2 * (b2 * c1 - b1 * c2) + b2 * (a1 * c2 - a2 * c1) == c2 * (a1 * b2 - a2 * b1)
  {
  }

  /** Dividing both numerators by the same non-zero determinant divides the weighted sum by it too. */
  lemma ScaledSum(a: real, b: real, nx: real, ny: real, det: real, c: real)
    requires det != 0.0
    requires a * nx + b * ny == c * det
    ensures a * (nx / det) + b * (ny / det) == c
  {
    var x, y := nx / det, ny / det;
    assert nx == x * det && ny == y * det;
    assert (a * x + b * y) * det == c * det;
  }

  /** Cramer's rule: any solution of both equations is the computed point. */
  lemma CramerUnique(l1: Line, l2: Line, q: Point)
    requires LineDet(l1, l2) != 0.0
    requires Satisfies(l1, q) && Satisfies(l2, q)
    ensures q == CramerSolution(l1, l2)
  {
    var a1, b1, c1, a2, b2, c2 := l1.a, l1.b, l1.c, l2.a, l2.b, l2.c;
    var det := a1 * b2 - a2 * b1;
    assert q.x * det == b2 * c1 - b1 * c2 by {
      assert q.x * det == b2 * (a1 * q.x + b1 * q.y) - b1 * (a2 * q.x + b2 * q.y);
    }
    assert q.y * det == a1 * c2 - a2 * c1 by {
      assert q.y * det == a1 * (a2 * q.x + b2 * q.y) - a2 * (a1 * q.x + b1 * q.y);
    }
  }

  /** Swapping the two lines changes only the sign of the determinant, so the intersection is the same point. */
  lemma {:induction false} IntersectionSymmetric(p1: Point, p2: Point, p3: Point, p4: Point)
    ensures ComputeIntersection(Some(p1), Some(p2), Some(p3), Some(p4)) ==
            ComputeIntersection(Some(p3), Some(p4), Some(p1), Some(p2))
  {
    assert Det(p3, p4, p1, p2) == -Det(p1, p2, p3, p4);
    var r := ComputeIntersection(Some(p1), Some(p2), Some(p3), Some(p4));
    var s := ComputeIntersection(Some(p3), Some(p4), Some(p1), Some(p2));
    if r.Some? {
      assert s.Some?;
      assert OnLine(p1, p2, s.value) && OnLine(p3, p4, s.value);
    }
  }

  /**
   * `getOffsetLine`: the segment v1v2 shifted sideways by `offset`; `len` is `Math.hypot(dx, dy)`,
   * which the source divides by, so the segment must not be degenerate.
   */
  function GetOffsetLine(v1: Point, v2: Point, offset: real, len: real): (r: Segment)
    requires 0.0 < len && len * len == Norm2(Sub(v2, v1))
    // both ends move by the same vector, so direction and length are kept
    ensures Sub(r.a, v1) == Sub(r.b, v2) && Sub(r.b, r.a) == Sub(v2, v1)
    // the shift is perpendicular to the segment and has length |offset|
    ensures Dot(Sub(r.a, v1), Sub(v2, v1)) == 0.0
    ensures Norm2(Sub(r.a, v1)) == offset * offset
    // a positive offset moves to the left of v1 -> v2
    ensures Cross(Sub(v2, v1), Sub(r.a, v1)) == offset * len
  {
    var dx := v2.x - v1.x;
    var dy := v2.y - v1.y;
    var ox := (-dy / len) * offset;
    var oy := (dx / len) * offset;
    OffsetFacts(dx, dy, len, offset);
    Segment(Point(v1.x + ox, v1.y + oy), Point(v2.x + ox, v2.y + oy))
  }

  /** The three facts about the shift of `getOffsetLine`, assembled from small steps. */
  lemma OffsetFacts(dx: real, dy: real, len: real, offset: real)
    requires 0.0 < len && len * len == dx * dx + dy * dy
    ensures var ox, oy := (-dy / len) * offset, (dx / len) * offset;
      ox * dx + oy * dy == 0.0 && ox * ox + oy * oy == offset * offset &&
      dx * oy - dy * ox == offset * len
  {
    var q := 1.0 / len;
    DivIsMul(dx, len);
    DivIsMul(-dy, len);
    var N := dx * dx + dy * dy;
    InvSqN(q, len, N);
    ShiftPerpendicular(dx, dy, len, offset);
    ShiftNorm(dx, dy, q, offset, N);
    ShiftSide(dx, dy, q, offset, N, len);
  }

  lemma DivIsMul(d: real, len: real)
    requires 0.0 < len
    ensures d / len == d * (1.0 / len) && (1.0 / len) * len == 1.0
  {}

  lemma InvSqN(q: real, len: real, N: real)
    requires q * len == 1.0 && N == len * len
    ensures N * (q * q) == 1.0 && N * q == len
  {
    assert N * (q * q) == (q * len) * (q * len);
    assert N * q == (q * len) * len;
  }

  lemma ShiftPerpendicular(dx: real, dy: real, len: real, offset: real)
    requires 0.0 < len
    ensures ((-dy / len) * offset) * dx + ((dx / len) * offset) * dy == 0.0
  {}

  lemma ShiftNorm(dx: real, dy: real, q: real, offset: real, N: real)
    requires N * (q * q) == 1.0 && N == dx * dx + dy * dy
    ensures ((-dy * q) * offset) * ((-dy * q) * offset) + ((dx * q) * offset) * ((dx * q) * offset) == offset * offset
  {
    assert ((-dy * q) * offset) * ((-dy * q) * offset) + ((dx * q) * offset) * ((dx * q) * offset)
      == (dx * dx + dy * dy) * (q * q) * (offset * offset);
  }

  lemma ShiftSide(dx: real, dy: real, q: real, offset: real, N: real, len: real)
    requires N * q == len && N == dx * dx + dy * dy
    ensures dx * ((dx * q) * offset) - dy * ((-dy * q) * offset) == offset * len
  {
    assert dx * ((dx * q) * offset) - dy * ((-dy * q) * offset) == (dx * dx + dy * dy) * q * offset;
  }

  // --- separating-axis test ---

  /** The normal of the edge from corner `i` to the next corner (wrapping round). */
  function EdgeNormal(poly: Polygon, i: nat): Point
    requires i < |poly|
  {
    var p1 := poly[i];
    var p2 := poly[(i + 1) % |poly|];
    Point(p2.y - p1.y, p1.x - p2.x)
  }

  /** The least projection of a corner of `poly` onto `n`. */
  function MinProjection(poly: Polygon, n: Point): (m: real)
    requires |poly| > 0
    ensures forall i :: 0 <= i < |poly| ==> m <= Dot(poly[i], n)
    ensures exists i :: 0 <= i < |poly| && m == Dot(poly[i], n)
  {
    if |poly| == 1 then Dot(poly[0], n)
    else
      var m := MinProjection(poly[..|poly| - 1], n);
      var q := Dot(poly[|poly| - 1], n);
      assert forall i :: 0 <= i < |poly| - 1 ==> poly[..|poly| - 1][i] == poly[i];
      if q < m then q else m
  }

  /** The greatest projection of a corner of `poly` onto `n`. */
  function MaxProjection(poly: Polygon, n: Point): (m: real)
    requires |poly| > 0
    ensures forall i :: 0 <= i < |poly| ==> Dot(poly[i], n) <= m
    ensures exists i :: 0 <= i < |poly| && m == Dot(poly[i], n)
  {
    if |poly| == 1 then Dot(poly[0], n)
    else
      var m := MaxProjection(poly[..|poly| - 1], n);
      var q := Dot(poly[|poly| - 1], n);
      assert forall i :: 0 <= i < |poly| - 1 ==> poly[..|poly| - 1][i] == poly[i];
      if q > m then q else m
  }

  /**
   * The ends of the projection interval as the source compares them: the running minimum and
   * maximum start as `null`, and JavaScript compares `null` as 0, so an empty polygon projects to [0, 0].
   */
  function Low(poly: Polygon, n: Point): real
  {
    if |poly| == 0 then 0.0 else MinProjection(poly, n)
  }

  function High(poly: Polygon, n: Point): real
  {
    if |poly| == 0 then 0.0 else MaxProjection(poly, n)
  }

  /** The axis `n` separates the projections of A and B. */
  predicate Separates(polyA: Polygon, polyB: Polygon, n: Point)
  {
    High(polyA, n) < Low(polyB, n) || High(polyB, n) < Low(polyA, n)
  }

  /** No edge normal of A or of B separates the two polygons. */
  ghost predicate Overlap(polyA: Polygon, polyB: Polygon)
  {
    (forall i :: 0 <= i < |polyA| ==> !Separates(polyA, polyB, EdgeNormal(polyA, i))) &&
    (forall i :: 0 <= i < |polyB| ==> !Separates(polyA, polyB, EdgeNormal(polyB, i)))
  }

  /** Overlap does not depend on the order of its arguments. */
  lemma OverlapSymmetric(polyA: Polygon, polyB: Polygon)
    ensures Overlap(polyA, polyB) == Overlap(polyB, polyA)
  {
    forall n: Point ensures Separates(polyA, polyB, n) == Separates(polyB, polyA, n) {
    }
  }

  /** The running minimum and maximum of the projections, `null` (None) for an empty polygon. */
  method ProjectionRange(poly: Polygon, n: Point) returns (lo: Option<real>, hi: Option<real>)
    ensures |poly| == 0 ==> lo.None? && hi.None?
    ensures |poly| > 0 ==> lo == Some(MinProjection(poly, n)) && hi == Some(MaxProjection(poly, n))
  {
    lo, hi := None, None;
    var j := 0;
    while j < |poly|
      invariant 0 <= j <= |poly|
      invariant j == 0 ==> lo.None? && hi.None?
      invariant j > 0 ==> lo == Some(MinProjection(poly[..j], n)) && hi == Some(MaxProjection(poly[..j], n))
    {
      var projected := Dot(poly[j], n);
      assert poly[..j + 1][..j] == poly[..j];
      if lo.None? || projected < lo.value { lo := Some(projected); }
      if hi.None? || projected > hi.value { hi := Some(projected); }
      j := j + 1;
    }
    assert poly[..j] == poly;
  }

  function OrZero(o: Option<real>): real { if o.None? then 0.0 else o.value }

  /** One axis of the separating-axis test: the two projection ranges, compared as the source compares them. */
  method AxisSeparates(polyA: Polygon, polyB: Polygon, normal: Point) returns (r: bool)
    ensures r == Separates(polyA, polyB, normal)
  {
    var minA, maxA := ProjectionRange(polyA, normal);
    var minB, maxB := ProjectionRange(polyB, normal);
    r := OrZero(maxA) < OrZero(minB) || OrZero(maxB) < OrZero(minA);
  }

  /** The inner loop over the edges of one polygon: true when none of its edge normals separates A and B. */
  method NoEdgeSeparates(polyA: Polygon, polyB: Polygon, polygon: Polygon) returns (r: bool)
    ensures r <==> forall k :: 0 <= k < |polygon| ==> !Separates(polyA, polyB, EdgeNormal(polygon, k))
  {
    var i1 := 0;
    while i1 < |polygon|
      invariant 0 <= i1 <= |polygon|
      invariant forall k :: 0 <= k < i1 ==> !Separates(polyA, polyB, EdgeNormal(polygon, k))
    {
      var i2 := (i1 + 1) % |polygon|;
      var p1 := polygon[i1];
      var p2 := polygon[i2];
      var normal := Point(p2.y - p1.y, p1.x - p2.x);
      assert normal == EdgeNormal(polygon, i1);
      var separated := AxisSeparates(polyA, polyB, normal);
      if separated {
        return false;
      }
      i1 := i1 + 1;
    }
    return true;
  }

  /** `isPolygonOverlap`: true exactly when no edge normal of either polygon separates them. */
  method IsPolygonOverlap(polyA: Polygon, polyB: Polygon) returns (r: bool)
    ensures r == Overlap(polyA, polyB)
  {
    var polys := [polyA, polyB];
    var i := 0;
    while i < |polys|
      invariant 0 <= i <= 2
      invariant forall q, k :: 0 <= q < i && 0 <= k < |polys[q]| ==> !Separates(polyA, polyB, EdgeNormal(polys[q], k))
    {
      var none := NoEdgeSeparates(polyA, polyB, polys[i]);
      if !none {
        return false;
      }
      i := i + 1;
    }
    assert polys[0] == polyA && polys[1] == polyB;
    return true;
  }
}
