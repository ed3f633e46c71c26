/**
 * The wall outline of `renderWallPolygon`: the wall's two offset lines at half its thickness, each
 * end mitred against the neighbouring wall that meets it at the smallest angle (`getJunctionPoint`).
 * The angle itself (`Math.acos` of the normalised dot product) is a parameter: only the order of
 * angles matters here.
 */
module WallPolygon {
  import opened Wrappers
  import opened Geometry
  import opened Plan
  import opened Seqs

  /** A positive number has a positive square root. */
  lemma SqrtPositive(sqrt: real -> real, s: real)
    requires IsSqrt(sqrt) && 0.0 < s
    ensures 0.0 < sqrt(s) && sqrt(s) * sqrt(s) == s
  {
    assert 0.0 <= sqrt(s) && sqrt(s) * sqrt(s) == s;
  }

  /** `getOffsetLine(a, b, offset)` with the length `Math.hypot(dx, dy)` that it divides by. */
  function SideLine(a: Point, b: Point, offset: real, sqrt: real -> real): Segment
    requires IsSqrt(sqrt) && 0.0 < Norm2(Sub(b, a))
  {
    SqrtPositive(sqrt, Norm2(Sub(b, a)));
    GetOffsetLine(a, b, offset, sqrt(Norm2(Sub(b, a))))
  }

  /**
   * `walls.filter(w => w !== wall && (w.startId === id || w.endId === id))` over the first `n`
   * walls: exactly the walls other than the excluded one that touch `id`.
   */
  function ConnectedUpTo(ws: seq<Wall>, exclude: Option<nat>, id: Id, n: nat): (r: seq<Wall>)
    requires n <= |ws|
    ensures forall k :: 0 <= k < |r| ==> exists i :: 0 <= i < n && Some(i) != exclude && ws[i].Touches(id) && r[k] == ws[i]
    ensures forall i :: 0 <= i < n && Some(i) != exclude && ws[i].Touches(id) ==> ws[i] in r
    ensures |r| == 0 <==> forall i :: 0 <= i < n ==> Some(i) == exclude || !ws[i].Touches(id)
  {
    if n == 0 then []
    else
      var prev := ConnectedUpTo(ws, exclude, id, n - 1);
      if Some(n - 1) != exclude && ws[n - 1].Touches(id) then prev + [ws[n - 1]] else prev
  }

  /** The walls the neighbour filter runs over: the first `n`, without the excluded position. */
  function Others(ws: seq<Wall>, exclude: Option<nat>, n: nat): seq<Wall>
    requires n <= |ws|
  {
    if exclude.Some? && exclude.value < n then ws[..exclude.value] + ws[exclude.value + 1..n] else ws[..n]
  }

  lemma OthersStep(ws: seq<Wall>, exclude: Option<nat>, n: nat)
    requires 0 < n <= |ws|
    ensures Others(ws, exclude, n) == Others(ws, exclude, n - 1) + (if exclude == Some(n - 1) then [] else [ws[n - 1]])
  {
    assert ws[..n] == ws[..n - 1] + [ws[n - 1]];
    if exclude.Some? && exclude.value < n - 1 {
      var k := exclude.value;
      assert ws[..k] + ws[k + 1..n] == (ws[..k] + ws[k + 1..n - 1]) + [ws[n - 1]];
    } else if exclude == Some(n - 1) {
      assert ws[..n - 1] + ws[n..n] == ws[..n - 1];
    }
  }

  /**
   * The neighbours in plan order: the `filter` over the walls with the excluded position taken
   * out, so that they keep their order and multiplicity (see `FilterConcat`).
   */
  lemma {:induction false} ConnectedIsFilter(ws: seq<Wall>, exclude: Option<nat>, id: Id, n: nat)
    requires n <= |ws|
    ensures ConnectedUpTo(ws, exclude, id, n) == Filter(Others(ws, exclude, n), (w: Wall) => w.Touches(id))
  {
    if n == 0 {
      assert Others(ws, exclude, 0) == [];
    } else {
      ConnectedIsFilter(ws, exclude, id, n - 1);
      FilterStep(ws, exclude, id, n);
    }
  }

  /** The induction step: if the filter agrees on the first `n - 1` walls, it agrees on `n`. */
  lemma FilterStep(ws: seq<Wall>, exclude: Option<nat>, id: Id, n: nat)
    requires 0 < n <= |ws|
    requires ConnectedUpTo(ws, exclude, id, n - 1) == Filter(Others(ws, exclude, n - 1), (w: Wall) => w.Touches(id))
    ensures ConnectedUpTo(ws, exclude, id, n) == Filter(Others(ws, exclude, n), (w: Wall) => w.Touches(id))
  {
    var touches := (w: Wall) => w.Touches(id);
    var before, tail := Others(ws, exclude, n - 1), if exclude == Some(n - 1) then [] else [ws[n - 1]];
    OthersStep(ws, exclude, n);
    ConnectedStep(ws, exclude, id, n);
    FilterConcat(before, tail, touches);
  }

  /** One more wall of the plan: the neighbour filter over it. */
  lemma ConnectedStep(ws: seq<Wall>, exclude: Option<nat>, id: Id, n: nat)
    requires 0 < n <= |ws|
    ensures ConnectedUpTo(ws, exclude, id, n) ==
      ConnectedUpTo(ws, exclude, id, n - 1) + Filter(if exclude == Some(n - 1) then [] else [ws[n - 1]], (w: Wall) => w.Touches(id))
  {
    FilterSingle(ws[n - 1], (w: Wall) => w.Touches(id));
  }

  function Connected(ws: seq<Wall>, exclude: Option<nat>, id: Id): seq<Wall>
  {
    ConnectedUpTo(ws, exclude, id, |ws|)
  }

  /** Both endpoints of `w` are in view, so `getOffsetLine` can read their coordinates. */
  predicate Resolves(view: View, w: Wall)
  {
    view.Lookup(w.startId).Some? && view.Lookup(w.endId).Some?
  }

  predicate AllResolve(view: View, conn: seq<Wall>)
  {
    forall k :: 0 <= k < |conn| ==> Resolves(view, conn[k])
  }

  /** Every wall that touches `id` (other than the excluded one) has both endpoints in view. */
  predicate NeighboursResolve(view: View, ws: seq<Wall>, exclude: Option<nat>, id: Id)
  {
    forall i :: 0 <= i < |ws| && Some(i) != exclude && ws[i].Touches(id) ==> Resolves(view, ws[i])
  }

  /**
   * A computation of the outline either throws, when `getOffsetLine` reads a coordinate of a
   * vertex that is not there (`undefined.x`), or yields a value.
   */
  datatype Outcome<T> = Throws | Value(value: T)

  /** A neighbour's meeting with the base line: its angle key and the intersection of the offset lines. */
  datatype Meet = Meet(angle: real, at: Point)

  /**
   * What one pass of the junction loop finds for neighbour `w`: nothing when it has zero length
   * (its offset line, and so its angle, is `NaN`, which loses every comparison) or when its offset
   * line does not cross the base line; otherwise the angle and the crossing.
   */
  function Meeting(view: View, w: Wall, base: Segment, offset: real,
                   angle: (Point, Point) -> real, sqrt: real -> real): (r: Option<Meet>)
    requires IsSqrt(sqrt) && Resolves(view, w)
    ensures r.Some? ==> OnLine(base.a, base.b, r.value.at)
  {
    var a, b := view.Lookup(w.startId).value.Pos(), view.Lookup(w.endId).value.Pos();
    if Norm2(Sub(b, a)) == 0.0 then None
    else
      var other := SideLine(a, b, offset, sqrt);
      var meet := ComputeIntersection(Some(base.a), Some(base.b), Some(other.a), Some(other.b));
      if meet.None? then None else Some(Meet(angle(Sub(base.b, base.a), Sub(other.b, other.a)), meet.value))
  }

  /** The meetings of the neighbours that resolve, in order; an unresolved neighbour has none. */
  function Meetings(view: View, conn: seq<Wall>, base: Segment, offset: real,
                    angle: (Point, Point) -> real, sqrt: real -> real): (r: seq<Option<Meet>>)
    requires IsSqrt(sqrt)
    ensures |r| == |conn|
    ensures forall k :: 0 <= k < |conn| && Resolves(view, conn[k]) ==> r[k] == Meeting(view, conn[k], base, offset, angle, sqrt)
  {
    seq(|conn|, k requires 0 <= k < |conn| =>
      if Resolves(view, conn[k]) then Meeting(view, conn[k], base, offset, angle, sqrt) else None)
  }

  function AngleKeys(ms: seq<Option<Meet>>): (r: seq<Option<real>>)
    ensures |r| == |ms| && forall k :: 0 <= k < |ms| ==> r[k] == if ms[k].Some? then Some(ms[k].value.angle) else None
  {
    seq(|ms|, k requires 0 <= k < |ms| => if ms[k].Some? then Some(ms[k].value.angle) else None)
  }

  /** The neighbours of `id` resolve exactly when every wall `Connected` keeps does. */
  lemma ConnectedResolve(view: View, ws: seq<Wall>, exclude: Option<nat>, id: Id)
    ensures NeighboursResolve(view, ws, exclude, id) <==> AllResolve(view, Connected(ws, exclude, id))
  {
    var conn := Connected(ws, exclude, id);
    if AllResolve(view, conn) {
      forall i | 0 <= i < |ws| && Some(i) != exclude && ws[i].Touches(id) ensures Resolves(view, ws[i]) {
        assert ws[i] in conn;
        var k :| 0 <= k < |conn| && conn[k] == ws[i];
      }
    }
  }

  /**
   * The crossing the junction loop keeps over the neighbours `conn`: that of the least angle among
   * the neighbours whose crossing exists, the first winning ties, or none.
   */
  function Chosen(view: View, conn: seq<Wall>, base: Segment, offset: real,
                  angle: (Point, Point) -> real, sqrt: real -> real): (r: Option<Point>)
    requires IsSqrt(sqrt) && AllResolve(view, conn)
    ensures r.Some? ==> OnLine(base.a, base.b, r.value)
    ensures r.None? <==> forall k :: 0 <= k < |conn| ==> Meeting(view, conn[k], base, offset, angle, sqrt).None?
    ensures r.Some? ==>
      exists k :: 0 <= k < |conn| && IsChosen(view, conn, base, offset, angle, sqrt, k) &&
                  Meeting(view, conn[k], base, offset, angle, sqrt).value.at == r.value
  {
    var ms := Meetings(view, conn, base, offset, angle, sqrt);
    var keys := AngleKeys(ms);
    var best := ArgMin(keys, |ms|);
    AngleChoice(ms);
    if best.None? then
      assert forall k :: 0 <= k < |conn| ==> ms[k] == Meeting(view, conn[k], base, offset, angle, sqrt) && ms[k].None?;
      None
    else
      assert IsChosen(view, conn, base, offset, angle, sqrt, best.value);
      Some(ms[best.value].value.at)
  }

  /** The junction loop's choice over any list of meetings: none exactly when no meeting, else a least angle, the first of equals. */
  lemma AngleChoice(ms: seq<Option<Meet>>)
    ensures var best := ArgMin(AngleKeys(ms), |ms|);
      best.None? <==> forall k :: 0 <= k < |ms| ==> ms[k].None?
    ensures var best := ArgMin(AngleKeys(ms), |ms|);
      best.Some? ==> ms[best.value].Some?
    ensures var best := ArgMin(AngleKeys(ms), |ms|);
      best.Some? ==> forall j :: 0 <= j < |ms| && ms[j].Some? ==> ms[best.value].value.angle <= ms[j].value.angle
    ensures var best := ArgMin(AngleKeys(ms), |ms|);
      best.Some? ==> forall j :: 0 <= j < best.value && ms[j].Some? ==> ms[best.value].value.angle < ms[j].value.angle
  {
    var keys := AngleKeys(ms);
    ArgMinIsLeast(keys, |ms|);
    forall k | 0 <= k < |ms| ensures keys[k].Some? == ms[k].Some? && (ms[k].Some? ==> keys[k].value == ms[k].value.angle) {
    }
  }

  /** Neighbour `k` has a meeting with the least angle of all, strictly less than every earlier one. */
  ghost predicate IsChosen(view: View, conn: seq<Wall>, base: Segment, offset: real,
                           angle: (Point, Point) -> real, sqrt: real -> real, k: nat)
    requires IsSqrt(sqrt) && k < |conn| && AllResolve(view, conn)
  {
    var m := Meeting(view, conn[k], base, offset, angle, sqrt);
    m.Some? &&
    (forall j :: 0 <= j < |conn| && Meeting(view, conn[j], base, offset, angle, sqrt).Some? ==>
       m.value.angle <= Meeting(view, conn[j], base, offset, angle, sqrt).value.angle) &&
    (forall j :: 0 <= j < k && Meeting(view, conn[j], base, offset, angle, sqrt).Some? ==>
       m.value.angle < Meeting(view, conn[j], base, offset, angle, sqrt).value.angle)
  }

  /**
   * The corner `getJunctionPoint` computes at the start (`isStart`) or end of the wall p1 -> p2,
   * on the side `offset`: nothing when no other wall touches that vertex; a throw when one of
   * those walls has an endpoint out of view; else the crossing with the neighbour of smallest
   * angle among those whose crossing exists, the first winning ties; else the end of the base
   * offset line.
   */
  function Junction(view: View, ws: seq<Wall>, exclude: Option<nat>, p1: Vertex, p2: Vertex, isStart: bool,
                    offset: real, angle: (Point, Point) -> real, sqrt: real -> real): (r: Outcome<Option<Point>>)
    requires IsSqrt(sqrt) && 0.0 < Norm2(Sub(p2.Pos(), p1.Pos()))
    ensures r.Throws? <==> !NeighboursResolve(view, ws, exclude, if isStart then p1.id else p2.id)
    ensures var base := SideLine(p1.Pos(), p2.Pos(), offset, sqrt);
      r.Value? && r.value.Some? ==> OnLine(base.a, base.b, r.value.value)
    ensures r.Value? ==> (r.value.None? <==> |Connected(ws, exclude, if isStart then p1.id else p2.id)| == 0)
  {
    var at := if isStart then p1.id else p2.id;
    var base := SideLine(p1.Pos(), p2.Pos(), offset, sqrt);
    var conn := Connected(ws, exclude, at);
    ConnectedResolve(view, ws, exclude, at);
    if |conn| == 0 then Value(None)
    else if !AllResolve(view, conn) then Throws
    else
      var chosen := Chosen(view, conn, base, offset, angle, sqrt);
      if chosen.None? then
        assert OnLine(base.a, base.b, base.a) && OnLine(base.a, base.b, base.b);
        Value(Some(if isStart then base.a else base.b))
      else Value(chosen)
  }

  /** The angle and the crossing the junction loop holds when `best` is its choice among the meetings `ms`. */
  function Kept(ms: seq<Option<Meet>>, best: Option<nat>): (Option<real>, Option<Point>)
    requires best.Some? ==> best.value < |ms| && ms[best.value].Some?
  {
    if best.None? then (None, None) else (Some(ms[best.value].value.angle), Some(ms[best.value].value.at))
  }

  /**
   * One pass of the junction loop over a neighbour in view: its meeting replaces the current
   * choice only when it exists and its angle is strictly below `bestAngle`. A neighbour whose
   * angle is `NaN` (zero length) has no meeting and so is skipped.
   */
  method ConsiderNeighbour(view: View, conn: seq<Wall>, base: Segment, offset: real,
                           angle: (Point, Point) -> real, sqrt: real -> real, j: nat,
                           ghost best: Option<nat>, bestAngle: Option<real>, bestIntersection: Option<Point>)
    returns (ghost best': Option<nat>, bestAngle': Option<real>, bestIntersection': Option<Point>)
    requires IsSqrt(sqrt) && j < |conn| && Resolves(view, conn[j])
    requires best == ArgMin(AngleKeys(Meetings(view, conn, base, offset, angle, sqrt)), j)
    requires (bestAngle, bestIntersection) == Kept(Meetings(view, conn, base, offset, angle, sqrt), best)
    ensures best' == ArgMin(AngleKeys(Meetings(view, conn, base, offset, angle, sqrt)), j + 1)
    ensures (bestAngle', bestIntersection') == Kept(Meetings(view, conn, base, offset, angle, sqrt), best')
  {
    ghost var ms := Meetings(view, conn, base, offset, angle, sqrt);
    ghost var keys := AngleKeys(ms);
    var meet := Meeting(view, conn[j], base, offset, angle, sqrt);
    assert meet == ms[j] && keys[j] == (if meet.Some? then Some(meet.value.angle) else None);
    ArgMinStep(keys, j);
    if meet.Some? && (bestAngle.None? || meet.value.angle < bestAngle.value) {
      best', bestAngle', bestIntersection' := Some(j), Some(meet.value.angle), Some(meet.value.at);
    } else {
      best', bestAngle', bestIntersection' := best, bestAngle, bestIntersection;
    }
  }

  /**
   * The loop of `getJunctionPoint` over the connected walls, keeping `bestAngle` and
   * `bestIntersection`; it throws at the first neighbour with an endpoint out of view.
   */
  method BestIntersection(view: View, conn: seq<Wall>, base: Segment, offset: real,
                          angle: (Point, Point) -> real, sqrt: real -> real) returns (r: Outcome<Option<Point>>)
    requires IsSqrt(sqrt)
    ensures r.Throws? <==> !AllResolve(view, conn)
    ensures AllResolve(view, conn) ==> r == Value(Chosen(view, conn, base, offset, angle, sqrt))
  {
    ghost var ms := Meetings(view, conn, base, offset, angle, sqrt);
    ghost var best: Option<nat> := None;
    var bestAngle: Option<real> := None;  // None plays `Infinity`
    var bestIntersection: Option<Point> := None;
    for j := 0 to |conn|
      invariant AllResolve(view, conn[..j])
      invariant best == ArgMin(AngleKeys(ms), j)
      invariant (bestAngle, bestIntersection) == Kept(ms, best)
    {
      if !Resolves(view, conn[j]) {
        // `getOffsetLine(undefined, ...)` reads a coordinate of the missing vertex
        return Throws;
      }
      ResolvedPrefix(view, conn, j);
      best, bestAngle, bestIntersection := ConsiderNeighbour(view, conn, base, offset, angle, sqrt, j, best, bestAngle, bestIntersection);
    }
    assert conn[..|conn|] == conn;
    return Value(bestIntersection);
  }

  /** The neighbours in view so far, and one more. */
  lemma ResolvedPrefix(view: View, conn: seq<Wall>, j: nat)
    requires j < |conn| && AllResolve(view, conn[..j]) && Resolves(view, conn[j])
    ensures AllResolve(view, conn[..j + 1])
  {
    assert conn[..j + 1] == conn[..j] + [conn[j]];
  }

  /** `getJunctionPoint`: null without neighbours, a throw on a dangling one, else the loop's crossing or the base line's end. */
  method GetJunctionPoint(view: View, ws: seq<Wall>, exclude: Option<nat>, p1: Vertex, p2: Vertex, isStart: bool,
                          offset: real, angle: (Point, Point) -> real, sqrt: real -> real) returns (r: Outcome<Option<Point>>)
    requires IsSqrt(sqrt) && 0.0 < Norm2(Sub(p2.Pos(), p1.Pos()))
    ensures r == Junction(view, ws, exclude, p1, p2, isStart, offset, angle, sqrt)
  {
    var at := if isStart then p1.id else p2.id;
    var connected := Connected(ws, exclude, at);
    if |connected| == 0 {
      return Value(None);
    }
    var base := SideLine(p1.Pos(), p2.Pos(), offset, sqrt);
    var best := BestIntersection(view, connected, base, offset, angle, sqrt);
    if best.Throws? || best.value.Some? {
      return best;
    }
    return Value(Some(if isStart then base.a else base.b));
  }

  /** `junction || fallback`. */
  function OrElse(p: Option<Point>, fallback: Point): Point
  {
    if p.Some? then p.value else fallback
  }

  /**
   * One corner of the outline: the junction at that end on that side, or the end of the side's
   * offset line when no other wall meets the vertex; either way it lies on the offset line. It
   * throws exactly when the junction does.
   */
  function Corner(view: View, ws: seq<Wall>, exclude: Option<nat>, p1: Vertex, p2: Vertex, isStart: bool,
                  offset: real, angle: (Point, Point) -> real, sqrt: real -> real): (c: Outcome<Point>)
    requires IsSqrt(sqrt) && 0.0 < Norm2(Sub(p2.Pos(), p1.Pos()))
    ensures c.Throws? <==> !NeighboursResolve(view, ws, exclude, if isStart then p1.id else p2.id)
    ensures var side := SideLine(p1.Pos(), p2.Pos(), offset, sqrt);
      c.Value? ==> OnLine(side.a, side.b, c.value)
  {
    var side := SideLine(p1.Pos(), p2.Pos(), offset, sqrt);
    OnLineEnds(side.a, side.b);
    var junction := Junction(view, ws, exclude, p1, p2, isStart, offset, angle, sqrt);
    if junction.Throws? then Throws else Value(OrElse(junction.value, if isStart then side.a else side.b))
  }

  /** `getJunctionPoint(...) || line[k]`, the way `renderWallPolygon` fills each corner. */
  method CornerPoint(view: View, ws: seq<Wall>, exclude: Option<nat>, p1: Vertex, p2: Vertex, isStart: bool,
                     offset: real, angle: (Point, Point) -> real, sqrt: real -> real) returns (c: Outcome<Point>)
    requires IsSqrt(sqrt) && 0.0 < Norm2(Sub(p2.Pos(), p1.Pos()))
    ensures c == Corner(view, ws, exclude, p1, p2, isStart, offset, angle, sqrt)
  {
    var side := SideLine(p1.Pos(), p2.Pos(), offset, sqrt);
    var junction := GetJunctionPoint(view, ws, exclude, p1, p2, isStart, offset, angle, sqrt);
    if junction.Throws? {
      return Throws;
    }
    c := Value(OrElse(junction.value, if isStart then side.a else side.b));
  }

  /**
   * `thickness / 2` once the default parameter (`thickness = WALL_WIDTH`) has replaced a missing
   * thickness; none for a `NaN` thickness, whose offset lines are all `NaN`.
   */
  function Half(thickness: JsNumber): (r: Option<real>)
    ensures r.None? <==> thickness.NaN?
    ensures thickness.Num? ==> r == Some(thickness.value / 2.0)
    ensures thickness.Undef? ==> r == Some(5.0)
  {
    match thickness
    case Undef => Some(WALL_WIDTH / 2.0)
    case NaN => None
    case Num(t) => Some(t / 2.0)
  }

  /**
   * `renderWallPolygon(v1, v2, wall, ..., thickness)`: the corners inner-start, inner-end,
   * outer-end, outer-start, so that the long edges lie on the offset lines at `+half` and
   * `-half`. It throws exactly when a wall meeting either end has an endpoint out of view (the
   * junction loops run even when the outline is degenerate). Otherwise a zero-length wall or a
   * `NaN` thickness gives `NaN` offset lines and no outline. The caller picks `exclude`:
   * `renderWall` passes the position of the first wall joining the same two vertices in either
   * direction (`walls.find`), for a stored wall and for the wall being drawn alike, and none when
   * no wall joins the two ends.
   */
  method RenderWallPolygon(view: View, ws: seq<Wall>, exclude: Option<nat>, p1: Vertex, p2: Vertex, thickness: JsNumber,
                           angle: (Point, Point) -> real, sqrt: real -> real) returns (r: Outcome<Option<Polygon>>)
    requires IsSqrt(sqrt)
    ensures r.Throws? <==> !NeighboursResolve(view, ws, exclude, p1.id) || !NeighboursResolve(view, ws, exclude, p2.id)
    ensures r == Value(None) <==> !r.Throws? && (Norm2(Sub(p2.Pos(), p1.Pos())) == 0.0 || thickness.NaN?)
    ensures r.Value? && r.value.Some? ==> 0.0 < Norm2(Sub(p2.Pos(), p1.Pos())) && Half(thickness).Some? && |r.value.value| == 4
    ensures r.Value? && r.value.Some? && 0.0 < Norm2(Sub(p2.Pos(), p1.Pos())) && Half(thickness).Some? && |r.value.value| == 4 ==>
      var half, poly := Half(thickness).value, r.value.value;
      Corner(view, ws, exclude, p1, p2, true, half, angle, sqrt) == Value(poly[0]) &&
      Corner(view, ws, exclude, p1, p2, false, half, angle, sqrt) == Value(poly[1]) &&
      Corner(view, ws, exclude, p1, p2, false, -half, angle, sqrt) == Value(poly[2]) &&
      Corner(view, ws, exclude, p1, p2, true, -half, angle, sqrt) == Value(poly[3])
  {
    var half := Half(thickness);
    if Norm2(Sub(p2.Pos(), p1.Pos())) == 0.0 || half.None? {
      // the junction loops still run on the `NaN` lines: they throw on a neighbour out of view
      if !NeighboursResolve(view, ws, exclude, p1.id) || !NeighboursResolve(view, ws, exclude, p2.id) {
        return Throws;
      }
      return Value(None);
    }
    Norm2NonNegative(Sub(p2.Pos(), p1.Pos()));
    var outline := Outline(view, ws, exclude, p1, p2, half.value, angle, sqrt);
    if outline.Throws? {
      return Throws;
    }
    return Value(Some(outline.value));
  }

  /** The four corners of a wall of positive length, in drawing order, or the throw of the first corner that throws. */
  method Outline(view: View, ws: seq<Wall>, exclude: Option<nat>, p1: Vertex, p2: Vertex, half: real,
                 angle: (Point, Point) -> real, sqrt: real -> real) returns (r: Outcome<Polygon>)
    requires IsSqrt(sqrt) && 0.0 < Norm2(Sub(p2.Pos(), p1.Pos()))
    ensures r.Throws? <==> !NeighboursResolve(view, ws, exclude, p1.id) || !NeighboursResolve(view, ws, exclude, p2.id)
    ensures r.Value? ==> |r.value| == 4
    ensures r.Value? && |r.value| == 4 ==>
      Corner(view, ws, exclude, p1, p2, true, half, angle, sqrt) == Value(r.value[0]) &&
      Corner(view, ws, exclude, p1, p2, false, half, angle, sqrt) == Value(r.value[1]) &&
      Corner(view, ws, exclude, p1, p2, false, -half, angle, sqrt) == Value(r.value[2]) &&
      Corner(view, ws, exclude, p1, p2, true, -half, angle, sqrt) == Value(r.value[3])
  {
    var innerStart := CornerPoint(view, ws, exclude, p1, p2, true, half, angle, sqrt);
    if innerStart.Throws? {
      return Throws;
    }
    var innerEnd := CornerPoint(view, ws, exclude, p1, p2, false, half, angle, sqrt);
    if innerEnd.Throws? {
      return Throws;
    }
    var outerEnd := CornerPoint(view, ws, exclude, p1, p2, false, -half, angle, sqrt);
    var outerStart := CornerPoint(view, ws, exclude, p1, p2, true, -half, angle, sqrt);
    return Value([innerStart.value, innerEnd.value, outerEnd.value, outerStart.value]);
  }

  /** With a single neighbour whose offset line crosses the base line, the corner is that crossing. */
  lemma CornerOfOne(view: View, ws: seq<Wall>, exclude: Option<nat>, p1: Vertex, p2: Vertex, isStart: bool,
                    offset: real, angle: (Point, Point) -> real, sqrt: real -> real, w: Wall)
    requires IsSqrt(sqrt) && 0.0 < Norm2(Sub(p2.Pos(), p1.Pos()))
    requires Connected(ws, exclude, if isStart then p1.id else p2.id) == [w]
    requires Resolves(view, w)
    requires Meeting(view, w, SideLine(p1.Pos(), p2.Pos(), offset, sqrt), offset, angle, sqrt).Some?
    ensures Corner(view, ws, exclude, p1, p2, isStart, offset, angle, sqrt) ==
            Value(Meeting(view, w, SideLine(p1.Pos(), p2.Pos(), offset, sqrt), offset, angle, sqrt).value.at)
  {
    ConnectedResolve(view, ws, exclude, if isStart then p1.id else p2.id);
    var base := SideLine(p1.Pos(), p2.Pos(), offset, sqrt);
    var ms := Meetings(view, [w], base, offset, angle, sqrt);
    assert ArgMin(AngleKeys(ms), 1) == Some(0);
  }

  lemma MiterMeeting(vs: seq<Vertex>, first: Wall, second: Wall, offset: real,
                     angle: (Point, Point) -> real, sqrt: real -> real)
    requires IsSqrt(sqrt)
    requires first.endId == second.startId
    requires FindVertex(vs, first.startId).Some? && FindVertex(vs, first.endId).Some? && FindVertex(vs, second.endId).Some?
    requires var p, q, r := FindVertex(vs, first.startId).value, FindVertex(vs, first.endId).value, FindVertex(vs, second.endId).value;
      0.0 < Norm2(Sub(q.Pos(), p.Pos())) && 0.0 < Norm2(Sub(r.Pos(), q.Pos()))
    ensures var view := View(vs, None, None);
      var p, q, r := FindVertex(vs, first.startId).value, FindVertex(vs, first.endId).value, FindVertex(vs, second.endId).value;
      var s1, s2 := SideLine(p.Pos(), q.Pos(), offset, sqrt), SideLine(q.Pos(), r.Pos(), offset, sqrt);
      var meet := ComputeIntersection(Some(s1.a), Some(s1.b), Some(s2.a), Some(s2.b));
      meet.Some? ==>
        Meeting(view, second, s1, offset, angle, sqrt).Some? && Meeting(view, second, s1, offset, angle, sqrt).value.at == meet.value &&
        Meeting(view, first, s2, offset, angle, sqrt).Some? && Meeting(view, first, s2, offset, angle, sqrt).value.at == meet.value
  {
    var p, q, r := FindVertex(vs, first.startId).value, FindVertex(vs, first.endId).value, FindVertex(vs, second.endId).value;
    var s1, s2 := SideLine(p.Pos(), q.Pos(), offset, sqrt), SideLine(q.Pos(), r.Pos(), offset, sqrt);
    IntersectionSymmetric(s1.a, s1.b, s2.a, s2.b);
  }

  /**
   * An L corner in a plan of exactly the two walls p -> q and q -> r: on either side, the end corner
   * of the first and the start corner of the second are the same point, the crossing of their
   * offset lines, whenever those lines cross.
   */
  lemma MiterCornersAgree(vs: seq<Vertex>, first: Wall, second: Wall, offset: real,
                          angle: (Point, Point) -> real, sqrt: real -> real)
    requires IsSqrt(sqrt)
    requires first.endId == second.startId && first.startId != first.endId && second.startId != second.endId
    requires FindVertex(vs, first.startId).Some? && FindVertex(vs, first.endId).Some? && FindVertex(vs, second.endId).Some?
    requires var p, q, r := FindVertex(vs, first.startId).value, FindVertex(vs, first.endId).value, FindVertex(vs, second.endId).value;
      0.0 < Norm2(Sub(q.Pos(), p.Pos())) && 0.0 < Norm2(Sub(r.Pos(), q.Pos()))
    ensures var view := View(vs, None, None);
      var p, q, r := FindVertex(vs, first.startId).value, FindVertex(vs, first.endId).value, FindVertex(vs, second.endId).value;
      var s1, s2 := SideLine(p.Pos(), q.Pos(), offset, sqrt), SideLine(q.Pos(), r.Pos(), offset, sqrt);
      var meet := ComputeIntersection(Some(s1.a), Some(s1.b), Some(s2.a), Some(s2.b));
      meet.Some? ==>
        Corner(view, [first, second], Some(0), p, q, false, offset, angle, sqrt) == Value(meet.value) &&
        Corner(view, [first, second], Some(1), q, r, true, offset, angle, sqrt) == Value(meet.value)
  {
    MiterEndCorner(vs, first, second, offset, angle, sqrt);
    MiterStartCorner(vs, first, second, offset, angle, sqrt);
  }

  /** Of two walls drawn in a row, each is the other's only neighbour at the shared vertex. */
  lemma PairNeighbours(first: Wall, second: Wall)
    requires first.endId == second.startId
    ensures Connected([first, second], Some(0), first.endId) == [second]
    ensures Connected([first, second], Some(1), first.endId) == [first]
  {
    var ws, q := [first, second], first.endId;
    assert ws[0].Touches(q) && ws[1].Touches(q);
    assert ConnectedUpTo(ws, Some(0), q, 1) == [];
    assert ConnectedUpTo(ws, Some(0), q, 2) == [] + [second];
    assert ConnectedUpTo(ws, Some(1), q, 1) == [] + [first];
    assert ConnectedUpTo(ws, Some(1), q, 2) == [first];
  }

  /** In the two-wall plan of an L corner, the end corner of the first wall is the crossing of the two offset lines. */
  lemma MiterEndCorner(vs: seq<Vertex>, first: Wall, second: Wall, offset: real,
                       angle: (Point, Point) -> real, sqrt: real -> real)
    requires IsSqrt(sqrt)
    requires first.endId == second.startId && first.startId != first.endId && second.startId != second.endId
    requires FindVertex(vs, first.startId).Some? && FindVertex(vs, first.endId).Some? && FindVertex(vs, second.endId).Some?
    requires var p, q, r := FindVertex(vs, first.startId).value, FindVertex(vs, first.endId).value, FindVertex(vs, second.endId).value;
      0.0 < Norm2(Sub(q.Pos(), p.Pos())) && 0.0 < Norm2(Sub(r.Pos(), q.Pos()))
    ensures var p, q, r := FindVertex(vs, first.startId).value, FindVertex(vs, first.endId).value, FindVertex(vs, second.endId).value;
      var s1, s2 := SideLine(p.Pos(), q.Pos(), offset, sqrt), SideLine(q.Pos(), r.Pos(), offset, sqrt);
      var meet := ComputeIntersection(Some(s1.a), Some(s1.b), Some(s2.a), Some(s2.b));
      meet.Some? ==> Corner(View(vs, None, None), [first, second], Some(0), p, q, false, offset, angle, sqrt) == Value(meet.value)
  {
    var p, q, r := FindVertex(vs, first.startId).value, FindVertex(vs, first.endId).value, FindVertex(vs, second.endId).value;
    var s1, s2 := SideLine(p.Pos(), q.Pos(), offset, sqrt), SideLine(q.Pos(), r.Pos(), offset, sqrt);
    if ComputeIntersection(Some(s1.a), Some(s1.b), Some(s2.a), Some(s2.b)).Some? {
      MiterMeeting(vs, first, second, offset, angle, sqrt);
      PairNeighbours(first, second);
      var view, ws := View(vs, None, None), [first, second];
      CornerOfOne(view, ws, Some(0), p, q, false, offset, angle, sqrt, second);
    }
  }

  /** In the two-wall plan of an L corner, the start corner of the second wall is the same crossing. */
  lemma MiterStartCorner(vs: seq<Vertex>, first: Wall, second: Wall, offset: real,
                         angle: (Point, Point) -> real, sqrt: real -> real)
    requires IsSqrt(sqrt)
    requires first.endId == second.startId && first.startId != first.endId && second.startId != second.endId
    requires FindVertex(vs, first.startId).Some? && FindVertex(vs, first.endId).Some? && FindVertex(vs, second.endId).Some?
    requires var p, q, r := FindVertex(vs, first.startId).value, FindVertex(vs, first.endId).value, FindVertex(vs, second.endId).value;
      0.0 < Norm2(Sub(q.Pos(), p.Pos())) && 0.0 < Norm2(Sub(r.Pos(), q.Pos()))
    ensures var p, q, r := FindVertex(vs, first.startId).value, FindVertex(vs, first.endId).value, FindVertex(vs, second.endId).value;
      var s1, s2 := SideLine(p.Pos(), q.Pos(), offset, sqrt), SideLine(q.Pos(), r.Pos(), offset, sqrt);
      var meet := ComputeIntersection(Some(s1.a), Some(s1.b), Some(s2.a), Some(s2.b));
      meet.Some? ==> Corner(View(vs, None, None), [first, second], Some(1), q, r, true, offset, angle, sqrt) == Value(meet.value)
  {
    var p, q, r := FindVertex(vs, first.startId).value, FindVertex(vs, first.endId).value, FindVertex(vs, second.endId).value;
    var s1, s2 := SideLine(p.Pos(), q.Pos(), offset, sqrt), SideLine(q.Pos(), r.Pos(), offset, sqrt);
    if ComputeIntersection(Some(s1.a), Some(s1.b), Some(s2.a), Some(s2.b)).Some? {
      MiterMeeting(vs, first, second, offset, angle, sqrt);
      PairNeighbours(first, second);
      var view, ws := View(vs, None, None), [first, second];
      CornerOfOne(view, ws, Some(1), q, r, true, offset, angle, sqrt, first);
    }
  }
}
