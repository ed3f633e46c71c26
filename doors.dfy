/**
 * Door placement on a wall: the transform a snapped point gets (`getDoorTransformFromSnap`, in the
 * door tool's bounds-only form and in the canvas's form that also refuses overlapping doors), the
 * door record a click builds, and the rectangles it carries.
 *
 * Angles are kept as the unit vector they stand for: `atan2(dy, dx)` followed by `cos`/`sin` gives
 * back the wall's direction divided by its length, and `(1, 0)` for a zero-length wall.
 */
module Doors {
  import opened Wrappers
  import opened Geometry
  import opened Plan

  /** `DOOR_CONFIG`: a door is 70 long along the wall and 10 across. */
  const DOOR_WIDTH: real := 70.0
  const DOOR_HEIGHT: real := 10.0
  /** The canvas grows a new door's rectangle by this much on every side before testing overlap. */
  const EXPAND_MARGIN: real := 5.0
  /** The reason the canvas reports for both of its rejections, the out-of-bounds one included. */
  const OVERLAP_REASON: string := "Overlapping existing door"

  /** A door's `wallId`: the wall's `id`, or `${startId}-${endId}` for a wall without one. */
  datatype WallRef = ById(id: string) | ByPair(startId: Id, endId: Id)

  function WallRefOf(w: Wall): (r: WallRef)
    ensures r.ById? <==> w.id != ""
    ensures r.ById? ==> r.id == w.id
    ensures r.ByPair? ==> (r.startId, r.endId) == w.Key()
  {
    if w.id != "" then ById(w.id) else ByPair(w.startId, w.endId)
  }

  function Add(p: Point, q: Point): Point { Point(p.x + q.x, p.y + q.y) }

  function Scale(p: Point, k: real): Point { Point(p.x * k, p.y * k) }

  /** `{ x: -dir.y, y: dir.x }`. */
  function Perp(d: Point): Point { Point(-d.y, d.x) }

  /**
   * The rectangle of a door centred at `center`, `halfLen` along `dir` and `halfWidth` across it,
   * corners in the order back-right, front-right, front-left, back-left.
   */
  function RectCorners(center: Point, dir: Point, halfLen: real, halfWidth: real): (r: Polygon)
    ensures |r| == 4
  {
    var perp := Perp(dir);
    [Point(center.x - dir.x * halfLen - perp.x * halfWidth, center.y - dir.y * halfLen - perp.y * halfWidth),
     Point(center.x + dir.x * halfLen - perp.x * halfWidth, center.y + dir.y * halfLen - perp.y * halfWidth),
     Point(center.x + dir.x * halfLen + perp.x * halfWidth, center.y + dir.y * halfLen + perp.y * halfWidth),
     Point(center.x - dir.x * halfLen + perp.x * halfWidth, center.y - dir.y * halfLen + perp.y * halfWidth)]
  }

  function Centroid(poly: Polygon): Point
    requires |poly| == 4
  {
    Point((poly[0].x + poly[1].x + poly[2].x + poly[3].x) / 4.0, (poly[0].y + poly[1].y + poly[2].y + poly[3].y) / 4.0)
  }

  /** The corners of a door rectangle average to its centre. */
  lemma RectCentred(center: Point, dir: Point, halfLen: real, halfWidth: real)
    ensures Centroid(RectCorners(center, dir, halfLen, halfWidth)) == center
  {
  }

  /** Which side of the wall corner `i` is on: -1 for the first two, +1 for the last two. */
  function SideOf(i: nat): real { if i < 2 then -1.0 else 1.0 }

  /**
   * Two door rectangles with the same centre, direction and length differ corner by corner only
   * across the wall, by the difference of their half-widths.
   */
  lemma RectSameExtent(center: Point, dir: Point, halfLen: real, w1: real, w2: real)
    ensures forall i :: 0 <= i < 4 ==>
      Sub(RectCorners(center, dir, halfLen, w1)[i], RectCorners(center, dir, halfLen, w2)[i]) == Scale(Perp(dir), SideOf(i) * (w1 - w2))
  {
  }

  lemma UnitLength(dx: real, dy: real, len: real)
    requires 0.0 < len && len * len == dx * dx + dy * dy
    ensures (dx / len) * (dx / len) + (dy / len) * (dy / len) == 1.0
    ensures dx * (dx / len) + dy * (dy / len) == len
  {
    var q := 1.0 / len;
    DivIsMul(dx, len);
    DivIsMul(dy, len);
    InvSqN(q, len, dx * dx + dy * dy);
    assert (dx * q) * (dx * q) + (dy * q) * (dy * q) == (dx * dx + dy * dy) * (q * q);
    assert dx * (dx * q) + dy * (dy * q) == (dx * dx + dy * dy) * q;
  }

  /** `{ x: cos(atan2(dy, dx)), y: sin(atan2(dy, dx)) }`: the wall's direction of unit length. */
  function Heading(d: Point, sqrt: real -> real): (r: Point)
    requires IsSqrt(sqrt)
    ensures Norm2(r) == 1.0
    ensures Norm2(d) == 0.0 ==> r == Point(1.0, 0.0)
    ensures 0.0 < Norm2(d) ==> Cross(d, r) == 0.0 && 0.0 < Dot(d, r)
  {
    if Norm2(d) == 0.0 then Point(1.0, 0.0)
    else
      Norm2NonNegative(d);
      var len := sqrt(Norm2(d));
      assert 0.0 <= len && len * len == Norm2(d);
      assert len != 0.0;
      UnitLength(d.x, d.y, len);
      assert Cross(d, Point(d.x / len, d.y / len)) == 0.0 by {
        DivIsMul(d.x, len);
        DivIsMul(d.y, len);
        assert d.x * (d.y * (1.0 / len)) - d.y * (d.x * (1.0 / len)) == 0.0;
      }
      Point(d.x / len, d.y / len)
  }

  /** What the transform reads off the snapped wall: its start, direction vector, length and heading. */
  datatype Frame = Frame(start: Point, dir: Point, len: real, heading: Point)

  /** `None` when an endpoint does not resolve (`if (!v1 || !v2)`). */
  function WallFrame(vs: seq<Vertex>, w: Wall, sqrt: real -> real): (r: Option<Frame>)
    requires IsSqrt(sqrt)
    ensures r.None? <==> FindVertex(vs, w.startId).None? || FindVertex(vs, w.endId).None?
    ensures r.Some? ==> 0.0 <= r.value.len && r.value.len * r.value.len == Norm2(r.value.dir)
  {
    var v1, v2 := FindVertex(vs, w.startId), FindVertex(vs, w.endId);
    if v1.None? || v2.None? then None
    else
      var d := Sub(v2.value.Pos(), v1.value.Pos());
      Norm2NonNegative(d);
      Some(Frame(v1.value.Pos(), d, sqrt(Norm2(d)), Heading(d, sqrt)))
  }

  /** The distance of `p` along the wall from its start; `None` (`0 / 0`, NaN) on a zero-length wall. */
  function Offset(f: Frame, p: Point): (r: Option<real>)
    ensures r.None? <==> f.len == 0.0
    ensures r.Some? ==> r.value * f.len == Dot(Sub(p, f.start), f.dir)
  {
    if f.len == 0.0 then None else Some(Dot(Sub(p, f.start), f.dir) / f.len)
  }

  /**
   * The door fits on the wall: `!(offset < doorLength / 2 || offset > wallLength - doorLength / 2)`.
   * A NaN offset fails both comparisons and so fits.
   */
  predicate WithinWall(f: Frame, p: Point)
    ensures f.len == 0.0 ==> WithinWall(f, p)
    ensures 0.0 < f.len && WithinWall(f, p) ==> DOOR_WIDTH <= f.len
  {
    var o := Offset(f, p);
    o.None? || (DOOR_WIDTH / 2.0 <= o.value && o.value <= f.len - DOOR_WIDTH / 2.0)
  }

  /**
   * The offset of the point a fraction `k` of the way along a wall of positive length is `k` times
   * the wall's length, so the door fits exactly when that distance leaves half a door on each side.
   */
  lemma OffsetAlongWall(f: Frame, k: real)
    requires 0.0 < f.len && f.len * f.len == Norm2(f.dir)
    ensures Offset(f, Add(f.start, Scale(f.dir, k))) == Some(k * f.len)
    ensures WithinWall(f, Add(f.start, Scale(f.dir, k))) <==>
              DOOR_WIDTH / 2.0 <= k * f.len <= f.len - DOOR_WIDTH / 2.0
  {
  }

  /** `Math.min(DOOR_CONFIG.height, wall.thickness ?? WALL_WIDTH)`. */
  function DoorHeightFor(thickness: JsNumber): (r: JsNumber)
    ensures r.NaN? <==> thickness.NaN?
    ensures r.Num? ==> r.value <= DOOR_HEIGHT
    ensures thickness.Num? ==> r.Num? && r.value <= thickness.value
    ensures r.Num? ==> r.value == DOOR_HEIGHT || thickness == Num(r.value)
  {
    var t := OrDefault(thickness, WALL_WIDTH);
    if t.Num? then Num(if t.value < DOOR_HEIGHT then t.value else DOOR_HEIGHT) else NaN
  }

  /**
   * The result of `getDoorTransformFromSnap`: a bare `{ valid: false }`; a rejection that still
   * carries the placement and a `reason`; or a valid placement.
   */
  datatype Transform =
    | Refused
    | Rejected(at: Point, heading: Point, doorHeight: JsNumber, doorLength: real, reason: string)
    | Valid(at: Point, heading: Point, doorHeight: JsNumber, doorLength: real)

  /** The door tool's transform: bounds only, every failure a bare `{ valid: false }`. */
  function ToolTransform(vs: seq<Vertex>, wall: Option<Wall>, point: Option<Point>, sqrt: real -> real): (r: Transform)
    requires IsSqrt(sqrt)
    ensures !r.Rejected?
    ensures r.Valid? ==> wall.Some? && point.Some? && WallFrame(vs, wall.value, sqrt).Some?
    ensures r.Valid? <==> wall.Some? && point.Some? && WallFrame(vs, wall.value, sqrt).Some? &&
                          WithinWall(WallFrame(vs, wall.value, sqrt).value, point.value)
    ensures r.Valid? ==> r.at == point.value && r.heading == WallFrame(vs, wall.value, sqrt).value.heading
    ensures r.Valid? ==> r.doorHeight == DoorHeightFor(wall.value.thickness) && r.doorLength == DOOR_WIDTH
  {
    if wall.None? || point.None? then Refused
    else
      var frame := WallFrame(vs, wall.value, sqrt);
      if frame.None? || !WithinWall(frame.value, point.value) then Refused
      else Valid(point.value, frame.value.heading, DoorHeightFor(wall.value.thickness), DOOR_WIDTH)
  }

  /**
   * A placed door: `id`, `wallId`, the transform's `x`/`y` (absent when it was refused), the
   * direction its `angle` encodes (absent, so NaN, when refused), `center`, the `rect` size and
   * its two polygons, absent when a coordinate is NaN.
   */
  datatype Door = Door(id: string, wallId: WallRef, at: Option<Point>, heading: Option<Point>, center: Point,
                       rectWidth: real, rectHeight: real, outer: Option<Polygon>, inner: Option<Polygon>)

  /** The canvas's test rectangle: the door's at `point`, `EXPAND_MARGIN` larger on every side. */
  function Expanded(point: Point, f: Frame, thickness: JsNumber): (r: Option<Polygon>)
    ensures r.None? <==> thickness.NaN?
    ensures r.Some? ==> |r.value| == 4 && Centroid(r.value) == point
    ensures r.Some? ==> forall i :: 0 <= i < 4 ==>
      Sub(r.value[i], RectCorners(point, f.heading, DOOR_WIDTH / 2.0 + EXPAND_MARGIN,
                                  (if thickness.Undef? then WALL_WIDTH else thickness.value) / 2.0)[i])
        == Scale(Perp(f.heading), SideOf(i) * EXPAND_MARGIN)
  {
    var t := OrDefault(thickness, WALL_WIDTH);
    if t.Num? then
      RectCentred(point, f.heading, DOOR_WIDTH / 2.0 + EXPAND_MARGIN, t.value / 2.0 + EXPAND_MARGIN);
      RectSameExtent(point, f.heading, DOOR_WIDTH / 2.0 + EXPAND_MARGIN, t.value / 2.0 + EXPAND_MARGIN, t.value / 2.0);
      Some(RectCorners(point, f.heading, DOOR_WIDTH / 2.0 + EXPAND_MARGIN, t.value / 2.0 + EXPAND_MARGIN))
    else None
  }

  /**
   * Door `d` stands in the way of a door at `point` on wall `w`: it names `w` by its id, is not
   * centred exactly at `point`, and its rectangle meets the test rectangle; a NaN rectangle on either
   * side leaves every projection comparison false and so counts as meeting.
   */
  ghost predicate Blocks(d: Door, w: Wall, point: Point, expanded: Option<Polygon>)
    ensures Blocks(d, w, point, expanded) ==> d.wallId == WallRefOf(w) && w.id != ""
    ensures d.center == point ==> !Blocks(d, w, point, expanded)
    ensures w.id != "" && d.wallId == ById(w.id) && d.center != point && (expanded.None? || d.outer.None?) ==>
              Blocks(d, w, point, expanded)
  {
    w.id != "" && d.wallId == ById(w.id) && d.center != point &&
    (expanded.None? || d.outer.None? || Overlap(expanded.value, d.outer.value))
  }

  /** The canvas's transform: bounds, then no blocking door on the same wall. */
  ghost function CanvasTransform(vs: seq<Vertex>, doors: seq<Door>, wall: Option<Wall>, point: Option<Point>,
                                 sqrt: real -> real): (r: Transform)
    requires IsSqrt(sqrt)
    ensures r.Refused? <==> wall.None? || point.None? || WallFrame(vs, wall.value, sqrt).None?
    ensures r.Rejected? ==> r.reason == OVERLAP_REASON
    ensures !r.Refused? ==>
      (r.Valid? <==> WithinWall(WallFrame(vs, wall.value, sqrt).value, point.value) &&
                     forall i :: 0 <= i < |doors| ==>
                       !Blocks(doors[i], wall.value, point.value, Expanded(point.value, WallFrame(vs, wall.value, sqrt).value, wall.value.thickness)))
    ensures r.Valid? ==> r == Valid(point.value, WallFrame(vs, wall.value, sqrt).value.heading, DoorHeightFor(wall.value.thickness), DOOR_WIDTH)
    ensures r.Rejected? ==> r == Rejected(point.value, WallFrame(vs, wall.value, sqrt).value.heading, DoorHeightFor(wall.value.thickness), DOOR_WIDTH, OVERLAP_REASON)
  {
    if wall.None? || point.None? || WallFrame(vs, wall.value, sqrt).None? then Refused
    else
      var w, p, f := wall.value, point.value, WallFrame(vs, wall.value, sqrt).value;
      var expanded := Expanded(p, f, w.thickness);
      if WithinWall(f, p) && forall i :: 0 <= i < |doors| ==> !Blocks(doors[i], w, p, expanded) then
        Valid(p, f.heading, DoorHeightFor(w.thickness), DOOR_WIDTH)
      else Rejected(p, f.heading, DoorHeightFor(w.thickness), DOOR_WIDTH, OVERLAP_REASON)
  }

  /** The canvas's `getDoorTransformFromSnap`, with its loop over the existing doors. */
  method GetDoorTransformFromSnap(vs: seq<Vertex>, doors: seq<Door>, wall: Option<Wall>, point: Option<Point>,
                                  sqrt: real -> real) returns (r: Transform)
    requires IsSqrt(sqrt)
    ensures r == CanvasTransform(vs, doors, wall, point, sqrt)
  {
    if wall.None? || point.None? {
      return Refused;
    }
    var frame := WallFrame(vs, wall.value, sqrt);
    if frame.None? {
      return Refused;
    }
    var w, p, f := wall.value, point.value, frame.value;
    var doorHeight := DoorHeightFor(w.thickness);
    if !WithinWall(f, p) {
      return Rejected(p, f.heading, doorHeight, DOOR_WIDTH, OVERLAP_REASON);
    }
    if |doors| > 0 {
      var expanded := Expanded(p, f, w.thickness);
      for i := 0 to |doors|
        invariant forall j :: 0 <= j < i ==> !Blocks(doors[j], w, p, expanded)
      {
        var d := doors[i];
        if w.id == "" || d.wallId != ById(w.id) {
          continue;
        }
        if d.center == p {
          continue;
        }
        var overlap := true;
        if expanded.Some? && d.outer.Some? {
          overlap := IsPolygonOverlap(expanded.value, d.outer.value);
        }
        if overlap {
          return Rejected(p, f.heading, doorHeight, DOOR_WIDTH, OVERLAP_REASON);
        }
      }
    }
    return Valid(p, f.heading, doorHeight, DOOR_WIDTH);
  }

  /**
   * The door tool's `snapInfo`: not on a wall (`{ snapped: false, x, y }`), or snapped, holding the
   * transform spread into it, the wall, its `wallId` and the snap point.
   */
  datatype SnapInfo = Unsnapped(at: Point) | Snapped(transform: Transform, wall: Wall, wallId: WallRef, snapPoint: Point)

  /** The heading a snap info's `angle` encodes; a refused transform has no angle. */
  function InfoHeading(t: Transform): Option<Point>
  {
    if t.Refused? then None else Some(t.heading)
  }

  function InfoAt(t: Transform): Option<Point>
  {
    if t.Refused? then None else Some(t.at)
  }

  /**
   * The door record `handleClick` builds from a snapped `snapInfo`: centred at the snap point,
   * `rect` 70 by 10, the outer rectangle as thick as the wall and the inner one as thick as the
   * door, both along the snapped heading.
   */
  function NewDoor(id: string, info: SnapInfo): (r: Door)
    requires info.Snapped?
    ensures r.id == id && r.wallId == info.wallId && r.center == info.snapPoint
    ensures r.at == InfoAt(info.transform) && r.heading == InfoHeading(info.transform)
    ensures r.rectWidth == DOOR_WIDTH && r.rectHeight == DOOR_HEIGHT
    ensures r.inner.Some? <==> !info.transform.Refused?
    ensures r.outer.Some? <==> !info.transform.Refused? && !OrDefault(info.wall.thickness, WALL_WIDTH).NaN?
    ensures r.outer.Some? ==> |r.outer.value| == 4 && Centroid(r.outer.value) == info.snapPoint
    ensures r.inner.Some? ==> |r.inner.value| == 4 && Centroid(r.inner.value) == info.snapPoint
    ensures r.outer.Some? ==> forall i :: 0 <= i < 4 ==>
      Sub(r.outer.value[i], r.inner.value[i]) ==
      Scale(Perp(r.heading.value), SideOf(i) * (OrDefault(info.wall.thickness, WALL_WIDTH).value / 2.0 - DOOR_HEIGHT / 2.0))
  {
    var heading := InfoHeading(info.transform);
    var thickness := OrDefault(info.wall.thickness, WALL_WIDTH);
    var outer :=
      if heading.Some? && thickness.Num? then Some(RectCorners(info.snapPoint, heading.value, DOOR_WIDTH / 2.0, thickness.value / 2.0))
      else None;
    var inner := if heading.Some? then Some(RectCorners(info.snapPoint, heading.value, DOOR_WIDTH / 2.0, DOOR_HEIGHT / 2.0)) else None;
    if heading.Some? then
      RectCentred(info.snapPoint, heading.value, DOOR_WIDTH / 2.0, DOOR_HEIGHT / 2.0);
      if thickness.Num? then
        RectCentred(info.snapPoint, heading.value, DOOR_WIDTH / 2.0, thickness.value / 2.0);
        RectSameExtent(info.snapPoint, heading.value, DOOR_WIDTH / 2.0, thickness.value / 2.0, DOOR_HEIGHT / 2.0);
        Door(id, info.wallId, InfoAt(info.transform), heading, info.snapPoint, DOOR_WIDTH, DOOR_HEIGHT, outer, inner)
      else Door(id, info.wallId, InfoAt(info.transform), heading, info.snapPoint, DOOR_WIDTH, DOOR_HEIGHT, outer, inner)
    else Door(id, info.wallId, InfoAt(info.transform), heading, info.snapPoint, DOOR_WIDTH, DOOR_HEIGHT, outer, inner)
  }
}
