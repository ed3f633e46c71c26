/**
 * The snap resolver `findSnapTarget`, shared in substance by the canvas (snap distance 10) and the
 * door tool (snap distance 50): in wall mode the first vertex within the snap distance wins;
 * otherwise the nearest wall whose snap band holds the point, the earliest wall winning ties.
 * Distances are compared squared, which orders them as `Math.hypot` does.
 */
module Snap {
  import opened Wrappers
  import opened Geometry
  import opened Plan
  import opened Seqs

  const CANVAS_SNAP_DISTANCE: real := 10.0
  const DOOR_SNAP_DISTANCE: real := 50.0

  /**
   * A snap result. `at` is the index of the vertex or wall in its list: the editor keeps the object
   * itself and later compares it by identity, which the index stands for.
   */
  datatype SnapTarget = VertexSnap(v: Vertex, at: nat) | WallSnap(wall: Wall, at: nat, point: Point)
  {
    /** The `point` of the result: the vertex itself, or the projection onto the wall. */
    function Spot(): Point
    {
      if VertexSnap? then v.Pos() else point
    }
  }

  function Dist2(p: Point, q: Point): real { Norm2(Sub(p, q)) }

  /** `Math.hypot(v.x - p.x, v.y - p.y) <= sd`, for a non-negative `sd`. */
  predicate NearVertex(v: Vertex, p: Point, sd: real)
  {
    Dist2(v.Pos(), p) <= sd * sd
  }

  /** `Math.max(0, Math.min(1, t))`. */
  function Clamp01(t: real): real
  {
    if t < 0.0 then 0.0 else if t > 1.0 then 1.0 else t
  }

  /** The point at parameter `s` along the segment from `a` to `b`. */
  function Along(a: Point, b: Point, s: real): Point
  {
    Point(a.x + s * (b.x - a.x), a.y + s * (b.y - a.y))
  }

  /** `Math.max(0, Math.min(1, ...))` of the projection parameter: the nearest point of segment ab to p. */
  function Project(a: Point, b: Point, p: Point): Point
    requires 0.0 < Norm2(Sub(b, a))
  {
    Along(a, b, Clamp01(Dot(Sub(p, a), Sub(b, a)) / Norm2(Sub(b, a))))
  }

  /** A wall the point may snap to: the projection of the point onto it and its squared distance. */
  datatype Candidate = Candidate(point: Point, dist2: real)

  /**
   * What one pass of the wall loop computes for `w`. The wall is skipped when an endpoint does not
   * resolve, when it has zero length (then `t` is `NaN`, and every comparison with `NaN` is false),
   * when its thickness is `NaN`, or when the point lies outside its snap band
   * `thickness / 2 + sd`, the thickness defaulting to 10 when it is missing.
   */
  function WallCandidate(vs: seq<Vertex>, w: Wall, p: Point, sd: real): (r: Option<Candidate>)
    // a candidate lies on the segment, at a parameter clamped to [0, 1], and inside the snap band
    ensures r.Some? ==> FindVertex(vs, w.startId).Some? && FindVertex(vs, w.endId).Some?
    ensures r.Some? ==>
      var a, b := FindVertex(vs, w.startId).value.Pos(), FindVertex(vs, w.endId).value.Pos();
      exists t :: 0.0 <= t <= 1.0 && r.value.point == Along(a, b, t)
    ensures r.Some? ==> r.value.dist2 == Dist2(p, r.value.point) && w.thickness != NaN
    ensures r.Some? ==>
      var band := (if w.thickness.Undef? then WALL_WIDTH else w.thickness.value) / 2.0 + sd;
      0.0 <= band && r.value.dist2 <= band * band
  {
    var v1, v2 := FindVertex(vs, w.startId), FindVertex(vs, w.endId);
    if v1.None? || v2.None? then None
    else if Norm2(Sub(v2.value.Pos(), v1.value.Pos())) == 0.0 then None
    else
      var proj := Project(v1.value.Pos(), v2.value.Pos(), p);
      match OrDefault(w.thickness, WALL_WIDTH)
      case Num(thickness) =>
        var range := thickness / 2.0 + sd;
        var dist2 := Dist2(p, proj);
        if 0.0 <= range && dist2 <= range * range then Some(Candidate(proj, dist2)) else None
      case _ => None
  }

  /** The candidates of all walls, in wall order. */
  function Candidates(vs: seq<Vertex>, ws: seq<Wall>, p: Point, sd: real): (r: seq<Option<Candidate>>)
    ensures |r| == |ws| && forall j :: 0 <= j < |ws| ==> r[j] == WallCandidate(vs, ws[j], p, sd)
  {
    seq(|ws|, j requires 0 <= j < |ws| => WallCandidate(vs, ws[j], p, sd))
  }

  /** The distances the wall loop compares; a skipped wall has none. */
  function DistKeys(cs: seq<Option<Candidate>>): (r: seq<Option<real>>)
    ensures |r| == |cs| && forall j :: 0 <= j < |cs| ==> r[j] == if cs[j].Some? then Some(cs[j].value.dist2) else None
  {
    seq(|cs|, j requires 0 <= j < |cs| => if cs[j].Some? then Some(cs[j].value.dist2) else None)
  }

  /** The vertex loop: the first vertex from index `i` on that lies within the snap distance. */
  function FirstNear(vs: seq<Vertex>, p: Point, sd: real, i: nat): (r: Option<SnapTarget>)
    ensures r.Some? ==> r.value.VertexSnap? && i <= r.value.at < |vs| && r.value.v == vs[r.value.at]
    ensures r.Some? ==> NearVertex(r.value.v, p, sd) && forall j :: i <= j < r.value.at ==> !NearVertex(vs[j], p, sd)
    ensures r.None? ==> forall j :: i <= j < |vs| ==> !NearVertex(vs[j], p, sd)
    decreases |vs| - i
  {
    if i >= |vs| then None
    else if NearVertex(vs[i], p, sd) then Some(VertexSnap(vs[i], i))
    else FirstNear(vs, p, sd, i + 1)
  }

  /** The wall chosen at position `best` of the candidate list, as the loop reports it. */
  function WallResult(ws: seq<Wall>, cs: seq<Option<Candidate>>, best: Option<nat>): Option<SnapTarget>
    requires |cs| == |ws|
    requires best.Some? ==> best.value < |ws| && cs[best.value].Some?
  {
    if best.None? then None else Some(WallSnap(ws[best.value], best.value, cs[best.value].value.point))
  }

  /**
   * The wall loop: a candidate replaces the current choice only when it is strictly closer
   * (`dist < minDist`, with `minDist` starting at `Infinity`).
   */
  function NearestWall(vs: seq<Vertex>, ws: seq<Wall>, p: Point, sd: real): Option<SnapTarget>
  {
    var cs := Candidates(vs, ws, p, sd);
    WallResult(ws, cs, ArgMin(DistKeys(cs), |cs|))
  }

  /** The result of `findSnapTarget(p)` on the given plan and mode. */
  function Snap(vs: seq<Vertex>, ws: seq<Wall>, mode: Mode, p: Point, sd: real): (r: Option<SnapTarget>)
    // vertices win, and only in wall mode: the first vertex within the snap distance
    ensures r.Some? && r.value.VertexSnap? ==>
      mode == WallMode && r.value.at < |vs| && r.value.v == vs[r.value.at] && NearVertex(r.value.v, p, sd) &&
      forall j :: 0 <= j < r.value.at ==> !NearVertex(vs[j], p, sd)
    ensures mode == WallMode && (exists j :: 0 <= j < |vs| && NearVertex(vs[j], p, sd)) ==> r.Some? && r.value.VertexSnap?
    ensures r.Some? && r.value.WallSnap? ==> r.value.at < |ws| && r.value.wall == ws[r.value.at]
  {
    var hit := if mode == WallMode then FirstNear(vs, p, sd, 0) else None;
    if hit.Some? then hit else NearestWall(vs, ws, p, sd)
  }

  /** `findSnapTarget`: the vertex loop with its early return, then the nearest-wall loop. */
  method FindSnapTarget(vs: seq<Vertex>, ws: seq<Wall>, mode: Mode, p: Point, sd: real)
    returns (r: Option<SnapTarget>)
    ensures r == Snap(vs, ws, mode, p, sd)
  {
    if mode == WallMode {
      r := FirstNearVertex(vs, p, sd);
      if r.Some? {
        return r;
      }
    }
    r := NearestWallLoop(vs, ws, p, sd);
  }

  /** The vertex loop of `findSnapTarget`, returning at the first vertex within the snap distance. */
  method FirstNearVertex(vs: seq<Vertex>, p: Point, sd: real) returns (r: Option<SnapTarget>)
    ensures r == FirstNear(vs, p, sd, 0)
  {
    for i := 0 to |vs|
      invariant FirstNear(vs, p, sd, 0) == FirstNear(vs, p, sd, i)
    {
      if NearVertex(vs[i], p, sd) {
        return Some(VertexSnap(vs[i], i));
      }
    }
    return None;
  }

  /** The result and distance the wall loop holds when `best` is its choice among the candidates `cs`. */
  function Holding(ws: seq<Wall>, cs: seq<Option<Candidate>>, best: Option<nat>): (Option<SnapTarget>, Option<real>)
    requires |cs| == |ws|
    requires best.Some? ==> best.value < |ws| && cs[best.value].Some?
  {
    (WallResult(ws, cs, best), if best.None? then None else Some(cs[best.value].value.dist2))
  }

  /**
   * One pass of the wall loop: wall `i` replaces the current choice only when it is a candidate
   * strictly closer than `minDist`.
   */
  method ConsiderWall(vs: seq<Vertex>, ws: seq<Wall>, p: Point, sd: real, i: nat, ghost best: Option<nat>,
                      closest: Option<SnapTarget>, minDist: Option<real>)
    returns (ghost best': Option<nat>, closest': Option<SnapTarget>, minDist': Option<real>)
    requires i < |ws| && best == ArgMin(DistKeys(Candidates(vs, ws, p, sd)), i)
    requires (closest, minDist) == Holding(ws, Candidates(vs, ws, p, sd), best)
    ensures best' == ArgMin(DistKeys(Candidates(vs, ws, p, sd)), i + 1)
    ensures (closest', minDist') == Holding(ws, Candidates(vs, ws, p, sd), best')
  {
    ghost var cs := Candidates(vs, ws, p, sd);
    var c := WallCandidate(vs, ws[i], p, sd);
    assert c == cs[i];
    WallLoopStep(cs, i, best, minDist);
    if c.Some? && (minDist.None? || c.value.dist2 < minDist.value) {
      best', closest', minDist' := Some(i), Some(WallSnap(ws[i], i, c.value.point)), Some(c.value.dist2);
    } else {
      best', closest', minDist' := best, closest, minDist;
    }
  }

  /** The wall loop of `findSnapTarget`: the strictly closest candidate wall, the first of equals. */
  method NearestWallLoop(vs: seq<Vertex>, ws: seq<Wall>, p: Point, sd: real) returns (closest: Option<SnapTarget>)
    ensures closest == NearestWall(vs, ws, p, sd)
  {
    ghost var best: Option<nat> := None;
    closest := None;
    var minDist: Option<real> := None;  // None plays `Infinity`
    for i := 0 to |ws|
      invariant best == ArgMin(DistKeys(Candidates(vs, ws, p, sd)), i)
      invariant (closest, minDist) == Holding(ws, Candidates(vs, ws, p, sd), best)
    {
      best, closest, minDist := ConsiderWall(vs, ws, p, sd, i, best, closest, minDist);
    }
  }

  /** One pass of the wall loop keeps `best` the loop's choice so far and `minDist` its distance. */
  lemma WallLoopStep(cs: seq<Option<Candidate>>, i: nat, best: Option<nat>, minDist: Option<real>)
    requires i < |cs| && best == ArgMin(DistKeys(cs), i)
    requires minDist == (if best.None? then None else Some(cs[best.value].value.dist2))
    ensures var taken := cs[i].Some? && (minDist.None? || cs[i].value.dist2 < minDist.value);
      ArgMin(DistKeys(cs), i + 1) == if taken then Some(i) else best
  {
    ArgMinStep(DistKeys(cs), i);
  }

  // --- properties of the resolver ---

  /** The vertex loop finds the first vertex within the snap distance, or reports that there is none. */
  lemma {:induction false} FirstNearIsFirst(vs: seq<Vertex>, p: Point, sd: real, i: nat)
    ensures FirstNear(vs, p, sd, i).None? <==> forall j :: i <= j < |vs| ==> !NearVertex(vs[j], p, sd)
    ensures var r := FirstNear(vs, p, sd, i);
      r.Some? ==> r.value.VertexSnap? && i <= r.value.at < |vs| && r.value.v == vs[r.value.at]
    ensures var r := FirstNear(vs, p, sd, i);
      r.Some? ==> NearVertex(r.value.v, p, sd) && forall j :: i <= j < r.value.at ==> !NearVertex(vs[j], p, sd)
    decreases |vs| - i
  {
    if i < |vs| && !NearVertex(vs[i], p, sd) {
      FirstNearIsFirst(vs, p, sd, i + 1);
    }
  }

  /** In wall mode a vertex within the snap distance always wins, and it is the first such vertex. */
  lemma SnapPrefersFirstVertex(vs: seq<Vertex>, ws: seq<Wall>, mode: Mode, p: Point, sd: real)
    ensures mode == WallMode && (exists i :: 0 <= i < |vs| && NearVertex(vs[i], p, sd)) ==>
      Snap(vs, ws, mode, p, sd).Some? && Snap(vs, ws, mode, p, sd).value.VertexSnap?
    ensures var r := Snap(vs, ws, mode, p, sd);
      r.Some? && r.value.VertexSnap? ==> mode == WallMode && r.value.at < |vs| && r.value.v == vs[r.value.at]
    ensures var r := Snap(vs, ws, mode, p, sd);
      r.Some? && r.value.VertexSnap? ==>
        NearVertex(r.value.v, p, sd) && forall j :: 0 <= j < r.value.at ==> !NearVertex(vs[j], p, sd)
  {
    FirstNearIsFirst(vs, p, sd, 0);
  }

  /** Outside wall mode the resolver never returns a vertex. */
  lemma SnapNoVertexOutsideWallMode(vs: seq<Vertex>, ws: seq<Wall>, mode: Mode, p: Point, sd: real)
    requires mode != WallMode
    ensures Snap(vs, ws, mode, p, sd).None? || Snap(vs, ws, mode, p, sd).value.WallSnap?
  {}

  /**
   * A wall result is reached only when no vertex snapped; it is a candidate wall, none is strictly
   * closer, every earlier candidate is strictly farther, and there is no result only when neither
   * a vertex nor a wall qualifies.
   */
  lemma SnapNearestWall(vs: seq<Vertex>, ws: seq<Wall>, mode: Mode, p: Point, sd: real)
    ensures Snap(vs, ws, mode, p, sd).None? <==>
      (mode != WallMode || forall i :: 0 <= i < |vs| ==> !NearVertex(vs[i], p, sd)) &&
      forall j :: 0 <= j < |ws| ==> WallCandidate(vs, ws[j], p, sd).None?
    ensures var r := Snap(vs, ws, mode, p, sd);
      r.Some? && r.value.WallSnap? ==>
        (mode != WallMode || forall i :: 0 <= i < |vs| ==> !NearVertex(vs[i], p, sd)) &&
        r.value.at < |ws| && r.value.wall == ws[r.value.at] &&
        WallCandidate(vs, ws[r.value.at], p, sd) == Some(Candidate(r.value.point, Dist2(p, r.value.point)))
    ensures var r := Snap(vs, ws, mode, p, sd);
      r.Some? && r.value.WallSnap? ==>
        forall j :: 0 <= j < |ws| && WallCandidate(vs, ws[j], p, sd).Some? ==>
          Dist2(p, r.value.point) <= WallCandidate(vs, ws[j], p, sd).value.dist2
    ensures var r := Snap(vs, ws, mode, p, sd);
      r.Some? && r.value.WallSnap? ==>
        forall j :: 0 <= j < r.value.at && WallCandidate(vs, ws[j], p, sd).Some? ==>
          Dist2(p, r.value.point) < WallCandidate(vs, ws[j], p, sd).value.dist2
  {
    FirstNearIsFirst(vs, p, sd, 0);
    NearestWallFacts(vs, ws, p, sd);
  }

  /** The nearest-wall pass on its own: the strictly-less choice among the candidate walls. */
  lemma NearestWallFacts(vs: seq<Vertex>, ws: seq<Wall>, p: Point, sd: real)
    ensures NearestWall(vs, ws, p, sd).None? <==> forall j :: 0 <= j < |ws| ==> WallCandidate(vs, ws[j], p, sd).None?
    ensures var r := NearestWall(vs, ws, p, sd);
      r.Some? ==>
        r.value.WallSnap? && r.value.at < |ws| && r.value.wall == ws[r.value.at] &&
        WallCandidate(vs, ws[r.value.at], p, sd) == Some(Candidate(r.value.point, Dist2(p, r.value.point)))
    ensures var r := NearestWall(vs, ws, p, sd);
      r.Some? ==>
        forall j :: 0 <= j < |ws| && WallCandidate(vs, ws[j], p, sd).Some? ==>
          Dist2(p, r.value.point) <= WallCandidate(vs, ws[j], p, sd).value.dist2
    ensures var r := NearestWall(vs, ws, p, sd);
      r.Some? ==>
        forall j :: 0 <= j < r.value.at && WallCandidate(vs, ws[j], p, sd).Some? ==>
          Dist2(p, r.value.point) < WallCandidate(vs, ws[j], p, sd).value.dist2
  {
    var cs := Candidates(vs, ws, p, sd);
    CandidateChoice(ws, cs);
    var best := ArgMin(DistKeys(cs), |cs|);
    if best.Some? {
      assert cs[best.value] == WallCandidate(vs, ws[best.value], p, sd);
    }
  }

  /** The wall loop's choice over any candidate list: none exactly when no candidate, else a least one, the first of equals. */
  lemma CandidateChoice(ws: seq<Wall>, cs: seq<Option<Candidate>>)
    requires |cs| == |ws|
    ensures var best := ArgMin(DistKeys(cs), |cs|);
      best.None? <==> forall j :: 0 <= j < |cs| ==> cs[j].None?
    ensures var best := ArgMin(DistKeys(cs), |cs|);
      best.Some? ==> forall j :: 0 <= j < |cs| && cs[j].Some? ==> cs[best.value].value.dist2 <= cs[j].value.dist2
    ensures var best := ArgMin(DistKeys(cs), |cs|);
      best.Some? ==> forall j :: 0 <= j < best.value && cs[j].Some? ==> cs[best.value].value.dist2 < cs[j].value.dist2
  {
    var keys := DistKeys(cs);
    ArgMinIsLeast(keys, |cs|);
    forall j | 0 <= j < |cs| ensures keys[j].Some? == cs[j].Some? && (cs[j].Some? ==> keys[j].value == cs[j].value.dist2) {
    }
  }

  /** The index a snap result carries is a position of the list it came from, holding that vertex or wall. */
  lemma SnapInRange(vs: seq<Vertex>, ws: seq<Wall>, mode: Mode, p: Point, sd: real)
    ensures var r := Snap(vs, ws, mode, p, sd);
      r.Some? && r.value.VertexSnap? ==> r.value.at < |vs| && r.value.v == vs[r.value.at]
    ensures var r := Snap(vs, ws, mode, p, sd);
      r.Some? && r.value.WallSnap? ==> r.value.at < |ws| && r.value.wall == ws[r.value.at]
  {
    SnapPrefersFirstVertex(vs, ws, mode, p, sd);
    SnapNearestWall(vs, ws, mode, p, sd);
  }

  /** The clamped projection is the point of the segment closest to `p`. */
  lemma CandidateIsClosest(vs: seq<Vertex>, w: Wall, p: Point, sd: real)
    requires WallCandidate(vs, w, p, sd).Some?
    ensures var a, b := FindVertex(vs, w.startId).value.Pos(), FindVertex(vs, w.endId).value.Pos();
      forall s :: 0.0 <= s <= 1.0 ==> WallCandidate(vs, w, p, sd).value.dist2 <= Dist2(p, Along(a, b, s))
  {
    var a, b := FindVertex(vs, w.startId).value.Pos(), FindVertex(vs, w.endId).value.Pos();
    var c := WallCandidate(vs, w, p, sd).value;
    assert 0.0 < Norm2(Sub(b, a)) && c.point == Project(a, b, p);
    forall s | 0.0 <= s <= 1.0
      ensures c.dist2 <= Dist2(p, Along(a, b, s))
    {
      ProjectionIsClosest(a, b, p, s);
    }
  }

  lemma ProjectionIsClosest(a: Point, b: Point, p: Point, s: real)
    requires 0.0 < Norm2(Sub(b, a)) && 0.0 <= s <= 1.0
    ensures Dist2(p, Project(a, b, p)) <= Dist2(p, Along(a, b, s))
  {
    var d := Sub(b, a);
    var w, L := Sub(p, a), Norm2(d);
    var k := Dot(w, d);
    var t := Clamp01(k / L);
    DistAlong(a, b, p, t);
    DistAlong(a, b, p, s);
    DivSign(k, L);
    if k / L < 0.0 {
      ClampedLow(L, k, s);
    } else if k / L > 1.0 {
      ClampedHigh(L, k, s);
    } else {
      Interior(L, k, t, s);
    }
  }

  /** The squared distance from `p` to `a + u*d`, expanded as a quadratic in `u`. */
  lemma DistAlong(a: Point, b: Point, p: Point, u: real)
    ensures var w, d := Sub(p, a), Sub(b, a);
      Dist2(p, Along(a, b, u)) == Norm2(w) - 2.0 * u * Dot(w, d) + u * u * Norm2(d)
  {
    var w, d := Sub(p, a), Sub(b, a);
    var q := Along(a, b, u);
    Expand(p.x - q.x, p.y - q.y, w.x, w.y, d.x, d.y, u);
  }

  lemma Expand(ex: real, ey: real, wx: real, wy: real, dx: real, dy: real, s: real)
    requires ex == wx - s * dx && ey == wy - s * dy
    ensures ex * ex + ey * ey == (wx * wx + wy * wy) - 2.0 * s * (wx * dx + wy * dy) + s * s * (dx * dx + dy * dy)
  {}

  lemma DivSign(k: real, L: real)
    requires 0.0 < L
    ensures k / L < 0.0 <==> k < 0.0
    ensures k / L > 1.0 <==> k > L
    ensures (k / L) * L == k
  {}

  lemma Interior(L: real, k: real, t: real, s: real)
    requires 0.0 < L && k == t * L
    ensures t * t * L - 2.0 * t * k <= s * s * L - 2.0 * s * k
  {
    assert (s * s * L - 2.0 * s * k) - (t * t * L - 2.0 * t * k) == L * ((s - t) * (s - t));
    assert 0.0 <= (s - t) * (s - t);
  }

  lemma ClampedLow(L: real, k: real, s: real)
    requires 0.0 < L && k < 0.0 && 0.0 <= s
    ensures 0.0 <= s * s * L - 2.0 * s * k
  {
    assert 0.0 <= L * (s * s);
    assert 0.0 <= s * (-k);
  }

  lemma ClampedHigh(L: real, k: real, s: real)
    requires 0.0 < L && L < k && 0.0 <= s <= 1.0
    ensures 1.0 * 1.0 * L - 2.0 * 1.0 * k <= s * s * L - 2.0 * s * k
  {
    assert (s * s * L - 2.0 * s * k) - (L - 2.0 * k) == (1.0 - s) * (2.0 * k - L * (s + 1.0));
    MulNonneg(L, 1.0 - s);
    assert L * (s + 1.0) == 2.0 * L - L * (1.0 - s);
    MulNonneg(1.0 - s, 2.0 * k - L * (s + 1.0));
  }

  lemma MulNonneg(a: real, b: real)
    requires 0.0 <= a && 0.0 <= b
    ensures 0.0 <= a * b
  {}
}
