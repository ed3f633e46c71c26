/**
 * The editor's state and the handlers that change it: the shared store (`EditorContext`), the
 * canvas's pointer and key handlers, the door tool and the wall settings panel.
 *
 * A handler reads the state of the render it was created in and queues updates; each method below
 * leaves the state those updates, together with the effects they trigger, produce. Updaters that
 * the source chains (`setWalls(p => ...)` after another `setWalls`) see the previous updater's
 * result.
 */
module Editor {
  import opened Wrappers
  import opened Geometry
  import opened Plan
  import opened Seqs
  import opened Snap
  import opened Graph
  import opened Doors
  import opened Panel

  /** The result of an edit: the new vertex list, and the new wall list when `setWalls` was called. */
  datatype Edit = Edit(vertices: seq<Vertex>, walls: Option<seq<Wall>>)

  function WallsAfter(ws: seq<Wall>, e: Edit): seq<Wall>
  {
    if e.walls.Some? then e.walls.value else ws
  }

  /** The shared store: `vertices`, `walls`, `doors`, `mode` and `selectedWall`, all empty at first. */
  class Store {
    var vertices: seq<Vertex>
    var walls: seq<Wall>
    var doors: seq<Door>
    var mode: Mode
    var selectedWall: Option<Wall>

    /** What the canvas's mode effect keeps true: no wall is selected while a drawing mode is on. */
    ghost predicate Valid()
      reads this
    {
      mode != NoMode ==> selectedWall.None?
    }

    constructor ()
      ensures Valid()
      ensures vertices == [] && walls == [] && doors == [] && mode == NoMode && selectedWall.None?
    {
      vertices, walls, doors, mode, selectedWall := [], [], [], NoMode, None;
    }

    /**
     * `setWalls(ws)` and the effects keyed on `walls` that follow it. The door re-derivation looks
     * each door's wall up and returns null unless the wall has `start` and `end` fields, which no
     * wall has, so every door is dropped; the mode effect clears the selection outside the idle mode.
     */
    method SetWalls(ws: seq<Wall>)
      requires Valid()
      modifies this
      ensures Valid()
      ensures walls == ws && doors == []
      ensures vertices == old(vertices) && mode == old(mode) && selectedWall == old(selectedWall)
    {
      walls := ws;
      doors := [];
      if mode != NoMode {
        selectedWall := None;
      }
    }

    /** An edit's `setVertices`, then its `setWalls` if it made one. */
    method Apply(e: Edit)
      requires Valid()
      modifies this
      ensures Valid()
      ensures vertices == e.vertices && walls == WallsAfter(old(walls), e)
      ensures doors == (if e.walls.Some? then [] else old(doors))
      ensures mode == old(mode) && selectedWall == old(selectedWall)
    {
      vertices := e.vertices;
      if e.walls.Some? {
        SetWalls(e.walls.value);
      }
    }

    /** `setMode(m)` and the mode effect (`if (mode !== null) setSelectedWall(null)`). */
    method SetMode(m: Mode)
      requires Valid()
      modifies this
      ensures Valid() && mode == m
      ensures selectedWall == (if m == NoMode then old(selectedWall) else None)
      ensures vertices == old(vertices) && walls == old(walls) && doors == old(doors)
    {
      mode := m;
      if m != NoMode {
        selectedWall := None;
      }
    }
  }

  /** `rawMousePoint`: a plain point, or the snapped vertex object itself, id included. */
  datatype Pointer = Free(p: Point) | AtVertex(v: Vertex)
  {
    function Pos(): Point
    {
      if Free? then p else v.Pos()
    }
  }

  /** `{ ...v, ...pointer }`: a plain point moves `v`; a vertex replaces it, id and all. */
  function Spread(v: Vertex, pointer: Pointer): (r: Vertex)
    ensures r.Pos() == pointer.Pos()
    ensures pointer.Free? ==> r.id == v.id
    ensures pointer.AtVertex? ==> r == pointer.v
  {
    if pointer.Free? then v.(x := pointer.p.x, y := pointer.p.y) else pointer.v
  }

  /** The drag's last resort: every vertex with id `id` becomes `{ ...v, ...pointer }`, the others stay. */
  function MoveVertex(vs: seq<Vertex>, id: Id, pointer: Pointer): (r: seq<Vertex>)
    ensures |r| == |vs|
    ensures forall i :: 0 <= i < |vs| && vs[i].id != id ==> r[i] == vs[i]
    ensures forall i :: 0 <= i < |vs| && vs[i].id == id ==> r[i].Pos() == pointer.Pos()
    ensures pointer.Free? ==> forall i :: 0 <= i < |vs| ==> r[i].id == vs[i].id
  {
    seq(|vs|, i requires 0 <= i < |vs| => if vs[i].id == id then Spread(vs[i], pointer) else vs[i])
  }

  /** `Math.hypot(v.x - x, v.y - y) < 10`: the radius within which a press grabs a vertex. */
  const HIT_RADIUS: real := 10.0

  predicate Grabs(v: Vertex, p: Point)
    ensures v.Pos() == p ==> Grabs(v, p)
    ensures Grabs(v, p) ==> -HIT_RADIUS < v.x - p.x < HIT_RADIUS && -HIT_RADIUS < v.y - p.y < HIT_RADIUS
  {
    Dist2(v.Pos(), p) < HIT_RADIUS * HIT_RADIUS
  }

  /** The wall a snap result selects: its wall, or none for a vertex or no result. */
  function SelectedBy(snap: Option<SnapTarget>): Option<Wall>
  {
    if snap.Some? && snap.value.WallSnap? then Some(snap.value.wall) else None
  }

  /**
   * The point the pointer stands for: the snap's point, or the pointer, locked to the axes of the
   * wall start while a wall is drawn; at most one coordinate moves, onto the start's.
   */
  function LockedTarget(snap: Option<SnapTarget>, p: Point, mode: Mode, tempStart: Option<Vertex>): (r: Point)
    ensures !(mode == WallMode && tempStart.Some?) ==> r == (if snap.Some? then snap.value.Spot() else p)
    ensures mode == WallMode && tempStart.Some? ==>
      var target, start := (if snap.Some? then snap.value.Spot() else p), tempStart.value.Pos();
      r == target || r == target.(x := start.x) || r == target.(y := start.y)
  {
    var target := if snap.Some? then snap.value.Spot() else p;
    if mode == WallMode && tempStart.Some? then AxisLock(target, tempStart.value.Pos(), CANVAS_SNAP_DISTANCE) else target
  }

  /** The snap result once the lock has written `q` into its point object. */
  function Relocated(snap: Option<SnapTarget>, q: Point): (r: Option<SnapTarget>)
    ensures r.None? <==> snap.None?
    ensures r.Some? ==> r.value.Spot() == q && r.value.at == snap.value.at && r.value.VertexSnap? == snap.value.VertexSnap?
    ensures r.Some? && r.value.VertexSnap? ==> r.value.v.id == snap.value.v.id
    ensures r.Some? && r.value.WallSnap? ==> r.value.wall == snap.value.wall
  {
    match snap
    case None => None
    case Some(VertexSnap(v, k)) => Some(VertexSnap(v.(x := q.x, y := q.y), k))
    case Some(WallSnap(w, k, _)) => Some(WallSnap(w, k, q))
  }

  /**
   * The drag branch of `handleMouseUp`, vertex `md` released at `target`: merged into another vertex
   * it snapped to, moved onto a wall it snapped to (splitting the wall there), or just moved.
   */
  function DragEdit(vs: seq<Vertex>, ws: seq<Wall>, md: Vertex, target: Pointer, snap: Option<SnapTarget>,
                    freshVertex: Id, id1: string, id2: string): (r: Edit)
    requires snap.Some? && snap.value.WallSnap? ==> snap.value.at < |ws|
    // a merge: `md` is gone from the vertices and from every wall
    ensures snap.Some? && snap.value.VertexSnap? && snap.value.v.id != md.id ==>
      r.walls.Some? && (forall v :: v in r.vertices <==> v in vs && v.id != md.id) &&
      forall w :: w in r.walls.value ==> !w.Touches(md.id)
    // a split: `md` moves onto the wall, which is replaced by two halves through it
    ensures snap.Some? && snap.value.WallSnap? ==>
      r.walls.Some? && |r.walls.value| == |ws| + 1 && |r.vertices| == |vs| &&
      r.walls.value[|ws| - 1].Key() == (ws[snap.value.at].startId, md.id) &&
      r.walls.value[|ws|].Key() == (md.id, ws[snap.value.at].endId) &&
      forall i :: 0 <= i < |vs| ==> r.vertices[i] == if vs[i].id == md.id then Vertex(md.id, target.Pos().x, target.Pos().y) else vs[i]
    // otherwise only the vertices with `md`'s id move, and the walls are not set
    ensures !(snap.Some? && snap.value.VertexSnap? && snap.value.v.id != md.id) && !(snap.Some? && snap.value.WallSnap?) ==>
      r.walls.None? && r.vertices == MoveVertex(vs, md.id, target)
  {
    if snap.Some? && snap.value.VertexSnap? && snap.value.v.id != md.id then
      var m := MergeVertices(vs, ws, snap.value.v.id, md.id);
      assert forall w :: w in m.1 ==> !w.Touches(md.id);
      Edit(m.0, Some(m.1))
    else if snap.Some? && snap.value.WallSnap? then
      var s := SplitWallAtPoint(vs, ws, snap.value.at, target.Pos(), Some(md.id), freshVertex, id1, id2);
      Edit(s.vertices, Some(s.walls))
    else Edit(MoveVertex(vs, md.id, target), None)
  }

  /** A click's new wall end: the snapped vertex, the vertex splitting the snapped wall, or a new vertex. */
  datatype Click = Click(edit: Edit, end: Vertex)

  /**
   * The vertex a wall-mode click lands on: the snapped vertex as it is; on a snapped wall, a fresh
   * vertex at the snap point that splits the wall into two halves through it; elsewhere a fresh
   * vertex at the click, appended to the vertices.
   */
  function ClickStart(vs: seq<Vertex>, ws: seq<Wall>, t: Point, snap: Option<SnapTarget>,
                      freshVertex: Id, id1: string, id2: string): (r: Click)
    requires snap.Some? && snap.value.WallSnap? ==> snap.value.at < |ws|
    ensures snap.None? ==> r.end == Vertex(freshVertex, t.x, t.y) && r.edit == Edit(vs + [r.end], None)
    ensures snap.Some? && snap.value.VertexSnap? ==> r.end == snap.value.v && r.edit == Edit(vs, None)
    ensures snap.Some? && snap.value.WallSnap? ==>
      r.end == Vertex(freshVertex, snap.value.point.x, snap.value.point.y) && r.edit.vertices == vs + [r.end] &&
      r.edit.walls.Some? && |r.edit.walls.value| == |ws| + 1 &&
      r.edit.walls.value[..|ws| - 1] == Without(ws, snap.value.at) &&
      r.edit.walls.value[|ws| - 1].Key() == (ws[snap.value.at].startId, r.end.id) &&
      r.edit.walls.value[|ws|].Key() == (r.end.id, ws[snap.value.at].endId)
  {
    if snap.Some? && snap.value.VertexSnap? then Click(Edit(vs, None), snap.value.v)
    else if snap.Some? then
      var s := SplitWallAtPoint(vs, ws, snap.value.at, snap.value.point, None, freshVertex, id1, id2);
      Click(Edit(s.vertices, Some(s.walls)), s.newVertex)
    else
      var v := Vertex(freshVertex, t.x, t.y);
      Click(Edit(vs + [v], None), v)
  }

  /**
   * The click branch of `handleMouseUp` in wall mode, as the handler writes it: find the click's
   * vertex; then, if a wall was being drawn from `tempStart`, decide with `walls.some(...)` on the
   * walls of the render `ws` whether the two are joined, and if not append the new wall to the
   * walls as they stand after any split (`Graph.CommitAgainstSnapshot`). The walls are set when
   * the click split a wall or the commit appended one.
   */
  function ClickEdit(vs: seq<Vertex>, ws: seq<Wall>, t: Point, snap: Option<SnapTarget>, tempStart: Option<Vertex>,
                     freshVertex: Id, id1: string, id2: string, id3: string): (r: Click)
    requires snap.Some? && snap.value.WallSnap? ==> snap.value.at < |ws|
    ensures var start := ClickStart(vs, ws, t, snap, freshVertex, id1, id2);
      r.end == start.end && r.edit.vertices == start.edit.vertices
    ensures tempStart.None? ==> r == ClickStart(vs, ws, t, snap, freshVertex, id1, id2)
    ensures var start := ClickStart(vs, ws, t, snap, freshVertex, id1, id2);
      tempStart.Some? && Joined(ws, tempStart.value.id, r.end.id) ==> r.edit == start.edit
    ensures var start := ClickStart(vs, ws, t, snap, freshVertex, id1, id2);
      tempStart.Some? && !Joined(ws, tempStart.value.id, r.end.id) ==>
        r.edit.walls == Some(WallsAfter(ws, start.edit) + [NewWall(id3, tempStart.value.id, r.end.id)])
  {
    var c := ClickStart(vs, ws, t, snap, freshVertex, id1, id2);
    if tempStart.None? then c
    else
      var after := WallsAfter(ws, c.edit);
      var committed := CommitAgainstSnapshot(ws, after, tempStart.value.id, c.end.id, id3);
      Click(Edit(c.edit.vertices, if c.edit.walls.Some? || !Joined(ws, tempStart.value.id, c.end.id) then Some(committed) else None), c.end)
  }

  /** The click with the corrected commit (`Graph.CommitWall`), checked against the walls after the split. */
  function ClickEditCorrected(vs: seq<Vertex>, ws: seq<Wall>, t: Point, snap: Option<SnapTarget>, tempStart: Option<Vertex>,
                              freshVertex: Id, id1: string, id2: string, id3: string): (r: Click)
    requires snap.Some? && snap.value.WallSnap? ==> snap.value.at < |ws|
    ensures var start := ClickStart(vs, ws, t, snap, freshVertex, id1, id2);
      r.end == start.end && r.edit.vertices == start.edit.vertices
    ensures tempStart.None? ==> r == ClickStart(vs, ws, t, snap, freshVertex, id1, id2)
    ensures var after := WallsAfter(ws, ClickStart(vs, ws, t, snap, freshVertex, id1, id2).edit);
      tempStart.Some? && (tempStart.value.id == r.end.id || Joined(after, tempStart.value.id, r.end.id)) ==>
        r.edit == ClickStart(vs, ws, t, snap, freshVertex, id1, id2).edit
    ensures var after := WallsAfter(ws, ClickStart(vs, ws, t, snap, freshVertex, id1, id2).edit);
      tempStart.Some? && tempStart.value.id != r.end.id && !Joined(after, tempStart.value.id, r.end.id) ==>
        r.edit.walls == Some(after + [NewWall(id3, tempStart.value.id, r.end.id)])
    ensures tempStart.Some? && tempStart.value.id != r.end.id ==> Joined(WallsAfter(ws, r.edit), tempStart.value.id, r.end.id)
  {
    var c := ClickStart(vs, ws, t, snap, freshVertex, id1, id2);
    if tempStart.None? then c
    else
      var base := WallsAfter(ws, c.edit);
      var committed := CommitWall(base, tempStart.value.id, c.end.id, id3);
      Click(Edit(c.edit.vertices, if c.edit.walls.Some? || committed != base then Some(committed) else None), c.end)
  }

  /**
   * As written, a click while drawing always leaves the wall start joined to the click's vertex
   * (by a self-loop when they are the same vertex), provided the fresh id is unused.
   */
  lemma ClickJoins(vs: seq<Vertex>, ws: seq<Wall>, t: Point, snap: Option<SnapTarget>, tempStart: Option<Vertex>,
                   freshVertex: Id, id1: string, id2: string, id3: string)
    requires snap.Some? && snap.value.WallSnap? ==> snap.value.at < |ws|
    requires tempStart.Some? && !Used(ws, freshVertex)
    ensures var c := ClickEdit(vs, ws, t, snap, tempStart, freshVertex, id1, id2, id3);
      Joined(WallsAfter(ws, c.edit), tempStart.value.id, c.end.id)
  {
    var c := ClickEdit(vs, ws, t, snap, tempStart, freshVertex, id1, id2, id3);
    var start := ClickStart(vs, ws, t, snap, freshVertex, id1, id2);
    var a := tempStart.value.id;
    if !Joined(ws, a, c.end.id) {
      var after := WallsAfter(ws, c.edit);
      assert after[|after| - 1].Key() == (a, c.end.id);
    }
  }

  /**
   * Away from both findings, the handler's commit is the corrected one: when the click splits no
   * wall and does not land on the wall start, both clicks produce the same edit.
   */
  lemma ClickMatchesCorrected(vs: seq<Vertex>, ws: seq<Wall>, t: Point, snap: Option<SnapTarget>, tempStart: Option<Vertex>,
                              freshVertex: Id, id1: string, id2: string, id3: string)
    requires !(snap.Some? && snap.value.WallSnap?)
    requires tempStart.Some? ==> tempStart.value.id != ClickStart(vs, ws, t, snap, freshVertex, id1, id2).end.id
    ensures ClickEdit(vs, ws, t, snap, tempStart, freshVertex, id1, id2, id3) ==
            ClickEditCorrected(vs, ws, t, snap, tempStart, freshVertex, id1, id2, id3)
  {
  }

  /**
   * With the corrected commit, drawing by clicks keeps a plan free of self-loops and of pairs
   * joined twice, and joins the wall start to the clicked vertex whenever the two differ.
   */
  lemma ClickKeepsWellFormed(vs: seq<Vertex>, ws: seq<Wall>, t: Point, tempStart: Option<Vertex>,
                             freshVertex: Id, id1: string, id2: string, id3: string)
    requires NoSelfLoops(ws) && UniquePairs(ws) && !Used(ws, freshVertex)
    ensures var snap := Snap.Snap(vs, ws, WallMode, t, CANVAS_SNAP_DISTANCE);
      snap.Some? && snap.value.WallSnap? ==> snap.value.at < |ws|
    ensures var snap := Snap.Snap(vs, ws, WallMode, t, CANVAS_SNAP_DISTANCE);
      (snap.Some? && snap.value.WallSnap? ==> snap.value.at < |ws|) &&
      var c := ClickEditCorrected(vs, ws, t, snap, tempStart, freshVertex, id1, id2, id3);
      var after := WallsAfter(ws, c.edit);
      NoSelfLoops(after) && UniquePairs(after) &&
      (tempStart.Some? && tempStart.value.id != c.end.id ==> Joined(after, tempStart.value.id, c.end.id))
  {
    var snap := Snap.Snap(vs, ws, WallMode, t, CANVAS_SNAP_DISTANCE);
    SnapNearestWall(vs, ws, WallMode, t, CANVAS_SNAP_DISTANCE);
    if snap.Some? && snap.value.WallSnap? {
      SplitKeepsWellFormed(vs, ws, snap.value.at, snap.value.point, freshVertex, id1, id2);
    }
  }

  /** The canvas: its pointer state and the handlers that read and change it and the store. */
  class Canvas {
    const store: Store
    var tempStartPoint: Option<Vertex>
    var lastCreatedVertexId: Option<Id>
    var mouseDownVertex: Option<Vertex>
    var dragPreviewVertex: Option<Vertex>
    var snapTarget: Option<SnapTarget>
    var rawMousePoint: Option<Pointer>
    var hoverVertex: Option<Vertex>
    var hoverPoint: Option<Point>
    var hoverWallId: Option<(Id, Id)>

    /** The store's invariant, and a speculative start vertex is always the start of the wall being drawn. */
    ghost predicate Valid()
      reads this, store
    {
      store.Valid() &&
      (lastCreatedVertexId.Some? ==> tempStartPoint.Some? && tempStartPoint.value.id == lastCreatedVertexId.value)
    }

    constructor (s: Store)
      requires s.Valid()
      ensures Valid() && store == s
      ensures tempStartPoint.None? && lastCreatedVertexId.None? && mouseDownVertex.None? && dragPreviewVertex.None?
      ensures snapTarget.None? && rawMousePoint.None? && hoverVertex.None? && hoverPoint.None? && hoverWallId.None?
    {
      store := s;
      tempStartPoint, lastCreatedVertexId, mouseDownVertex, dragPreviewVertex := None, None, None, None;
      snapTarget, rawMousePoint, hoverVertex, hoverPoint, hoverWallId := None, None, None, None, None;
    }

    /** `getEffectiveVertex`: the vertices as the canvas draws them during a drag. */
    function Effective(): (r: View)
      reads this, store
      ensures mouseDownVertex.None? || dragPreviewVertex.None? ==>
        forall id :: r.Lookup(id) == FindVertex(store.vertices, id)
      ensures mouseDownVertex.Some? ==>
        forall id :: id != mouseDownVertex.value.id ==> r.Lookup(id) == FindVertex(store.vertices, id)
      ensures mouseDownVertex.Some? && dragPreviewVertex.Some? ==> r.Lookup(mouseDownVertex.value.id) == dragPreviewVertex
    {
      View(store.vertices, dragPreviewVertex, mouseDownVertex)
    }

    /**
     * Escape: in wall mode the wall being drawn is abandoned, its speculative start vertex removed
     * if no wall uses it; in every mode the pointer state and the selection are cleared.
     */
    method OnEscape()
      requires Valid()
      modifies this, store
      ensures Valid()
      ensures old(store.mode) == WallMode ==>
        store.vertices == RollbackStart(old(store.vertices), old(store.walls), old(lastCreatedVertexId)) &&
        lastCreatedVertexId.None? && tempStartPoint.None? && hoverPoint.None?
      ensures old(store.mode) != WallMode ==>
        store.vertices == old(store.vertices) && lastCreatedVertexId == old(lastCreatedVertexId) &&
        tempStartPoint == old(tempStartPoint) && hoverPoint == old(hoverPoint)
      ensures hoverVertex.None? && mouseDownVertex.None? && dragPreviewVertex.None? && snapTarget.None? && store.selectedWall.None?
      ensures store.walls == old(store.walls) && store.doors == old(store.doors) && store.mode == old(store.mode)
      ensures rawMousePoint == old(rawMousePoint) && hoverWallId == old(hoverWallId)
    {
      if store.mode == WallMode {
        if lastCreatedVertexId.Some? {
          store.vertices := RollbackStart(store.vertices, store.walls, lastCreatedVertexId);
          lastCreatedVertexId := None;
        }
        tempStartPoint := None;
        hoverPoint := None;
      }
      hoverVertex, mouseDownVertex, dragPreviewVertex, snapTarget := None, None, None, None;
      store.selectedWall := None;
    }

    /**
     * `handleMouseDown` at `p`: a press within 10 of a vertex grabs the first such vertex; a press
     * elsewhere in the idle mode selects the wall it snaps to, or clears the selection.
     */
    method HandleMouseDown(p: Point)
      requires Valid()
      modifies this, store
      ensures Valid()
      ensures var hit := Find(old(store.vertices), (v: Vertex) => Grabs(v, p));
        mouseDownVertex == (if hit.Some? then hit else old(mouseDownVertex))
      ensures var hit := Find(old(store.vertices), (v: Vertex) => Grabs(v, p));
        store.selectedWall ==
          if hit.None? && old(store.mode) == NoMode
          then SelectedBy(Snap.Snap(old(store.vertices), old(store.walls), NoMode, p, CANVAS_SNAP_DISTANCE))
          else old(store.selectedWall)
      ensures store.vertices == old(store.vertices) && store.walls == old(store.walls) && store.doors == old(store.doors)
      ensures store.mode == old(store.mode)
      ensures tempStartPoint == old(tempStartPoint) && lastCreatedVertexId == old(lastCreatedVertexId)
      ensures dragPreviewVertex == old(dragPreviewVertex) && snapTarget == old(snapTarget) && rawMousePoint == old(rawMousePoint)
      ensures hoverVertex == old(hoverVertex) && hoverPoint == old(hoverPoint) && hoverWallId == old(hoverWallId)
    {
      var hit := Find(store.vertices, (v: Vertex) => Grabs(v, p));
      if hit.Some? {
        mouseDownVertex := hit;
      }
      if hit.None? && store.mode == NoMode {
        var snap := FindSnapTarget(store.vertices, store.walls, NoMode, p, CANVAS_SNAP_DISTANCE);
        store.selectedWall := SelectedBy(snap);
      }
    }

    /**
     * `handleMouseMove` at `p`: the snap result and the point it stands for, locked to the axes of
     * the wall start while drawing. The lock writes into the snapped point object itself, so a
     * snapped vertex moves in the store as well; a grabbed vertex gets a preview there.
     */
    method HandleMouseMove(p: Point)
      requires Valid()
      modifies this, store
      ensures Valid()
      ensures var snap := Snap.Snap(old(store.vertices), old(store.walls), old(store.mode), p, CANVAS_SNAP_DISTANCE);
        snapTarget == Relocated(snap, LockedTarget(snap, p, old(store.mode), old(tempStartPoint)))
      ensures var snap := Snap.Snap(old(store.vertices), old(store.walls), old(store.mode), p, CANVAS_SNAP_DISTANCE);
        rawMousePoint.Some? && rawMousePoint.value.Pos() == LockedTarget(snap, p, old(store.mode), old(tempStartPoint))
      ensures snapTarget.Some? && snapTarget.value.VertexSnap? ==>
        snapTarget.value.at < |old(store.vertices)| &&
        store.vertices == old(store.vertices)[snapTarget.value.at := snapTarget.value.v] &&
        rawMousePoint == Some(AtVertex(snapTarget.value.v)) && hoverVertex == Some(snapTarget.value.v)
      ensures !(snapTarget.Some? && snapTarget.value.VertexSnap?) ==>
        store.vertices == old(store.vertices) && rawMousePoint.value.Free? && hoverVertex.None?
      ensures hoverPoint ==
        if (snapTarget.Some? && snapTarget.value.VertexSnap?) || old(tempStartPoint).Some?
        then Some(rawMousePoint.value.Pos()) else None
      ensures dragPreviewVertex ==
        if old(mouseDownVertex).Some? then Some(Spread(old(mouseDownVertex).value, rawMousePoint.value)) else old(dragPreviewVertex)
      ensures hoverWallId ==
        if old(store.mode) == NoMode && snapTarget.Some? && snapTarget.value.WallSnap?
        then Some(snapTarget.value.wall.Key()) else None
      ensures store.walls == old(store.walls) && store.doors == old(store.doors) && store.mode == old(store.mode)
      ensures store.selectedWall == old(store.selectedWall)
      ensures tempStartPoint == old(tempStartPoint) && lastCreatedVertexId == old(lastCreatedVertexId)
      ensures mouseDownVertex == old(mouseDownVertex)
    {
      var vs, ws, mode := store.vertices, store.walls, store.mode;
      var snap := FindSnapTarget(vs, ws, mode, p, CANVAS_SNAP_DISTANCE);
      SnapInRange(vs, ws, mode, p, CANVAS_SNAP_DISTANCE);
      var q := LockedTarget(snap, p, mode, tempStartPoint);
      ShowPointer(Relocated(snap, q), q);
    }

    /**
     * The rest of `handleMouseMove` once the snap result `moved` holds the locked point `q`: a vertex
     * snap writes the moved vertex into the list, and the hover and drag preview follow the pointer.
     */
    method ShowPointer(moved: Option<SnapTarget>, q: Point)
      requires Valid()
      requires moved.Some? && moved.value.VertexSnap? ==> moved.value.at < |store.vertices|
      modifies this, store
      ensures Valid()
      ensures snapTarget == moved
      ensures moved.Some? && moved.value.VertexSnap? ==>
        store.vertices == old(store.vertices)[moved.value.at := moved.value.v] &&
        rawMousePoint == Some(AtVertex(moved.value.v)) && hoverVertex == Some(moved.value.v) && hoverPoint == Some(q)
      ensures !(moved.Some? && moved.value.VertexSnap?) ==>
        store.vertices == old(store.vertices) && rawMousePoint == Some(Free(q)) && hoverVertex.None? &&
        hoverPoint == if old(tempStartPoint).Some? then Some(q) else None
      ensures dragPreviewVertex ==
        if old(mouseDownVertex).Some? then Some(Spread(old(mouseDownVertex).value, rawMousePoint.value)) else old(dragPreviewVertex)
      ensures hoverWallId == if store.mode == NoMode && moved.Some? && moved.value.WallSnap? then Some(moved.value.wall.Key()) else None
      ensures store.walls == old(store.walls) && store.doors == old(store.doors) && store.mode == old(store.mode)
      ensures store.selectedWall == old(store.selectedWall)
      ensures tempStartPoint == old(tempStartPoint) && lastCreatedVertexId == old(lastCreatedVertexId)
      ensures mouseDownVertex == old(mouseDownVertex)
    {
      snapTarget := moved;
      if moved.Some? && moved.value.VertexSnap? {
        store.vertices := store.vertices[moved.value.at := moved.value.v];
        rawMousePoint := Some(AtVertex(moved.value.v));
        hoverVertex := Some(moved.value.v);
        hoverPoint := Some(q);
      } else {
        rawMousePoint := Some(Free(q));
        hoverVertex := None;
        hoverPoint := if tempStartPoint.Some? then Some(q) else None;
      }
      if mouseDownVertex.Some? {
        dragPreviewVertex := Some(Spread(mouseDownVertex.value, rawMousePoint.value));
      }
      hoverWallId := if store.mode == NoMode && moved.Some? && moved.value.WallSnap? then Some(moved.value.wall.Key()) else None;
    }

    /** A grabbed vertex released at `target` with the snap result `snap`, then nothing is grabbed. */
    method Drop(target: Pointer, snap: Option<SnapTarget>, freshVertex: Id, id1: string, id2: string)
      requires Valid() && mouseDownVertex.Some?
      requires snap.Some? && snap.value.WallSnap? ==> snap.value.at < |store.walls|
      modifies this, store
      ensures Valid()
      ensures var e := DragEdit(old(store.vertices), old(store.walls), old(mouseDownVertex).value, target, snap, freshVertex, id1, id2);
        store.vertices == e.vertices && store.walls == WallsAfter(old(store.walls), e) &&
        store.doors == (if e.walls.Some? then [] else old(store.doors))
      ensures store.mode == old(store.mode) && store.selectedWall == old(store.selectedWall)
      ensures mouseDownVertex.None? && dragPreviewVertex.None?
      ensures tempStartPoint == old(tempStartPoint) && lastCreatedVertexId == old(lastCreatedVertexId)
      ensures snapTarget == old(snapTarget) && rawMousePoint == old(rawMousePoint)
      ensures hoverVertex == old(hoverVertex) && hoverPoint == old(hoverPoint) && hoverWallId == old(hoverWallId)
    {
      store.Apply(DragEdit(store.vertices, store.walls, mouseDownVertex.value, target, snap, freshVertex, id1, id2));
      mouseDownVertex := None;
      dragPreviewVertex := None;
    }

    /** A click in wall mode at `t` with the snap result `snap`: the click's vertex becomes the wall start. */
    method Place(t: Point, snap: Option<SnapTarget>, freshVertex: Id, id1: string, id2: string, id3: string)
      requires Valid()
      requires snap.Some? && snap.value.WallSnap? ==> snap.value.at < |store.walls|
      modifies this, store
      ensures Valid()
      ensures var c := ClickEdit(old(store.vertices), old(store.walls), t, snap, old(tempStartPoint), freshVertex, id1, id2, id3);
        store.vertices == c.edit.vertices && store.walls == WallsAfter(old(store.walls), c.edit) &&
        store.doors == (if c.edit.walls.Some? then [] else old(store.doors)) &&
        tempStartPoint == Some(c.end) && lastCreatedVertexId == (if old(tempStartPoint).None? then Some(c.end.id) else None)
      ensures store.mode == old(store.mode) && store.selectedWall == old(store.selectedWall)
      ensures mouseDownVertex == old(mouseDownVertex) && dragPreviewVertex == old(dragPreviewVertex)
      ensures snapTarget == old(snapTarget) && rawMousePoint == old(rawMousePoint)
      ensures hoverVertex == old(hoverVertex) && hoverPoint == old(hoverPoint) && hoverWallId == old(hoverWallId)
    {
      var c := ClickEdit(store.vertices, store.walls, t, snap, tempStartPoint, freshVertex, id1, id2, id3);
      store.Apply(c.edit);
      lastCreatedVertexId := if tempStartPoint.None? then Some(c.end.id) else None;
      tempStartPoint := Some(c.end);
    }

    /**
     * `handleMouseUp` at `pointer`. A grabbed vertex released after a hold (`!isClick`) is merged,
     * moved onto a wall, or moved. A quick left click in wall mode adds the click's vertex and
     * commits a wall from the wall start to it. Afterwards nothing is grabbed, and in the idle mode
     * the wall of the previous snap result becomes the selection. `freshVertex` and the wall ids
     * stand for the `Date.now() + Math.random()` and `uuidv4()` the handler draws.
     */
    method HandleMouseUp(pointer: Point, isClick: bool, leftButton: bool, freshVertex: Id,
                         id1: string, id2: string, id3: string)
      requires Valid()
      // the click reads `rawMousePoint`, which the handler would dereference while still null
      requires leftButton && store.mode == WallMode && isClick ==> rawMousePoint.Some?
      modifies this, store
      ensures Valid()
      ensures var target := if old(rawMousePoint).Some? then old(rawMousePoint).value else Free(pointer);
        snapTarget == Snap.Snap(old(store.vertices), old(store.walls), old(store.mode), target.Pos(), CANVAS_SNAP_DISTANCE)
      ensures snapTarget.Some? && snapTarget.value.WallSnap? ==> snapTarget.value.at < |old(store.walls)|
      ensures mouseDownVertex.None? && dragPreviewVertex.None?
      ensures old(mouseDownVertex).Some? && !isClick ==>
        var target := if old(rawMousePoint).Some? then old(rawMousePoint).value else Free(pointer);
        var e := DragEdit(old(store.vertices), old(store.walls), old(mouseDownVertex).value, target, snapTarget, freshVertex, id1, id2);
        store.vertices == e.vertices && store.walls == WallsAfter(old(store.walls), e) &&
        store.doors == (if e.walls.Some? then [] else old(store.doors)) &&
        tempStartPoint == old(tempStartPoint) && lastCreatedVertexId == old(lastCreatedVertexId) &&
        store.selectedWall == old(store.selectedWall)
      ensures !(old(mouseDownVertex).Some? && !isClick) && leftButton && old(store.mode) == WallMode && isClick ==>
        var c := ClickEdit(old(store.vertices), old(store.walls), old(rawMousePoint).value.Pos(), snapTarget, old(tempStartPoint),
                           freshVertex, id1, id2, id3);
        store.vertices == c.edit.vertices && store.walls == WallsAfter(old(store.walls), c.edit) &&
        store.doors == (if c.edit.walls.Some? then [] else old(store.doors)) &&
        tempStartPoint == Some(c.end) && lastCreatedVertexId == (if old(tempStartPoint).None? then Some(c.end.id) else None)
      ensures !(old(mouseDownVertex).Some? && !isClick) && !(leftButton && old(store.mode) == WallMode && isClick) ==>
        store.vertices == old(store.vertices) && store.walls == old(store.walls) && store.doors == old(store.doors) &&
        tempStartPoint == old(tempStartPoint) && lastCreatedVertexId == old(lastCreatedVertexId)
      ensures !(old(mouseDownVertex).Some? && !isClick) ==>
        store.selectedWall == if old(store.mode) == NoMode then SelectedBy(old(snapTarget)) else old(store.selectedWall)
      ensures store.mode == old(store.mode) && rawMousePoint == old(rawMousePoint)
      ensures hoverVertex == old(hoverVertex) && hoverPoint == old(hoverPoint) && hoverWallId == old(hoverWallId)
    {
      var previous := snapTarget;
      var target := if rawMousePoint.Some? then rawMousePoint.value else Free(pointer);
      var snapNow := FindSnapTarget(store.vertices, store.walls, store.mode, target.Pos(), CANVAS_SNAP_DISTANCE);
      SnapInRange(store.vertices, store.walls, store.mode, target.Pos(), CANVAS_SNAP_DISTANCE);
      snapTarget := snapNow;
      if mouseDownVertex.Some? && !isClick {
        Drop(target, snapNow, freshVertex, id1, id2);
        return;
      }
      if leftButton && store.mode == WallMode && isClick {
        // `findSnapTarget(rawMousePoint)` again: the same point, so the same result as `snapNow`
        Place(rawMousePoint.value.Pos(), snapNow, freshVertex, id1, id2, id3);
      }
      Release(previous);
    }

    /** The end of `handleMouseUp` after a click or a plain release: nothing is grabbed, and the previous snap's wall is selected. */
    method Release(previous: Option<SnapTarget>)
      requires Valid()
      modifies this, store
      ensures Valid()
      ensures mouseDownVertex.None? && dragPreviewVertex.None?
      ensures store.selectedWall == if store.mode == NoMode then SelectedBy(previous) else old(store.selectedWall)
      ensures store.vertices == old(store.vertices) && store.walls == old(store.walls) && store.doors == old(store.doors)
      ensures store.mode == old(store.mode) && rawMousePoint == old(rawMousePoint) && snapTarget == old(snapTarget)
      ensures tempStartPoint == old(tempStartPoint) && lastCreatedVertexId == old(lastCreatedVertexId)
      ensures hoverVertex == old(hoverVertex) && hoverPoint == old(hoverPoint) && hoverWallId == old(hoverWallId)
    {
      mouseDownVertex := None;
      dragPreviewVertex := None;
      if store.mode == NoMode {
        store.selectedWall := SelectedBy(previous);
      }
    }
  }

  /** The door tool: the snap info under the pointer, and placing a door on a click. */
  class DoorTool {
    const store: Store
    var snapInfo: Option<SnapInfo>

    constructor (s: Store)
      ensures store == s && snapInfo.None?
    {
      store := s;
      snapInfo := None;
    }

    /**
     * The door tool's `handleMove` at `p`: snapped to a wall within 50, the transform of the snap
     * point with the wall and its `wallId`; otherwise unsnapped at the pointer.
     */
    method HandleMove(p: Point, sqrt: real -> real)
      requires IsSqrt(sqrt)
      modifies this
      ensures var snap := Snap.Snap(store.vertices, store.walls, store.mode, p, DOOR_SNAP_DISTANCE);
        snapInfo == Some(
          if snap.Some? && snap.value.WallSnap?
          then Snapped(ToolTransform(store.vertices, Some(snap.value.wall), Some(snap.value.point), sqrt),
                       snap.value.wall, WallRefOf(snap.value.wall), snap.value.point)
          else Unsnapped(p))
    {
      var snap := FindSnapTarget(store.vertices, store.walls, store.mode, p, DOOR_SNAP_DISTANCE);
      if snap.Some? && snap.value.WallSnap? {
        var transform := ToolTransform(store.vertices, Some(snap.value.wall), Some(snap.value.point), sqrt);
        snapInfo := Some(Snapped(transform, snap.value.wall, WallRefOf(snap.value.wall), snap.value.point));
      } else {
        snapInfo := Some(Unsnapped(p));
      }
    }

    /**
     * The door tool's `handleClick`: in door mode with a snapped snap info, exactly one door is
     * appended and the others stay; a refused placement is appended all the same. Otherwise
     * nothing changes.
     */
    method HandleClick(freshId: string)
      requires store.Valid()
      modifies store
      ensures store.Valid()
      ensures store.mode == DoorMode && snapInfo.Some? && snapInfo.value.Snapped? ==>
        store.doors == old(store.doors) + [NewDoor(freshId, snapInfo.value)]
      ensures !(store.mode == DoorMode && snapInfo.Some? && snapInfo.value.Snapped?) ==> store.doors == old(store.doors)
      ensures store.vertices == old(store.vertices) && store.walls == old(store.walls)
      ensures store.mode == old(store.mode) && store.selectedWall == old(store.selectedWall)
    {
      if store.mode != DoorMode || snapInfo.None? || !snapInfo.value.Snapped? {
        return;
      }
      store.doors := store.doors + [NewDoor(freshId, snapInfo.value)];
    }
  }

  /** The wall settings panel: its form, refreshed from the selection, and its handlers. */
  class SettingsPanel {
    const store: Store
    var formData: Option<Form>

    constructor (s: Store)
      ensures store == s && formData.None?
    {
      store := s;
      formData := None;
    }

    /** The panel's effect on the selection and the vertices. */
    method Refresh()
      modifies this
      ensures formData == FormDefaults(store.vertices, store.selectedWall)
    {
      formData := FormDefaults(store.vertices, store.selectedWall);
    }

    /** `handleChange(field, value)`; the inputs exist only while the form is shown. */
    method Change(field: Field, value: string, parse: string -> Option<real>)
      requires formData.Some?
      modifies this
      ensures formData == Some(HandleChange(old(formData).value, field, value, parse))
    {
      formData := Some(HandleChange(formData.value, field, value, parse));
    }

    /** `handleBlur`: the form is merged into the selected wall's pair, which drops the doors as every `setWalls` does. */
    method Blur()
      requires store.Valid()
      modifies store
      ensures store.Valid()
      ensures var r := HandleBlur(old(store.walls), old(store.selectedWall), formData);
        (r.Some? ==> store.walls == r.value && store.doors == []) &&
        (r.None? ==> store.walls == old(store.walls) && store.doors == old(store.doors))
      ensures store.vertices == old(store.vertices) && store.mode == old(store.mode) && store.selectedWall == old(store.selectedWall)
    {
      var r := HandleBlur(store.walls, store.selectedWall, formData);
      if r.Some? {
        store.SetWalls(r.value);
      }
    }

    /** `handleDelete`: the selected wall goes, with its orphaned endpoints; the selection and the form are cleared. */
    method Delete()
      requires store.Valid()
      modifies this, store
      ensures store.Valid()
      ensures var r := HandleDelete(old(store.vertices), old(store.walls), old(store.selectedWall));
        (r.Some? ==> store.vertices == r.value.0 && store.walls == r.value.1 && store.doors == [] &&
                     store.selectedWall.None? && formData.None?) &&
        (r.None? ==> store.vertices == old(store.vertices) && store.walls == old(store.walls) &&
                     store.doors == old(store.doors) && store.selectedWall.None? && formData == old(formData))
      ensures store.mode == old(store.mode)
    {
      var r := HandleDelete(store.vertices, store.walls, store.selectedWall);
      if r.None? {
        return;
      }
      store.SetWalls(r.value.1);
      store.vertices := r.value.0;
      store.selectedWall := None;
      formData := None;
    }
  }
}
