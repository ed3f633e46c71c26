# Floor-plan editor core, modelled in Dafny

This project models the plan-editing logic of a 2D floor-plan editor written with React and Konva.
Every part of the editor shares one store holding the `vertices`, `walls`, `doors`, the drawing
`mode` (`"wall"`, `"door"` or none) and the `selectedWall`. Dafny proves the plan's invariants for
that state.

The model covers:

- the geometry the canvas draws with: line intersection, offset lines and the separating-axis
  overlap test;
- the snap resolver, in both of its copies: the canvas's (distance 10) and the door tool's
  (distance 50);
- the graph edits: merging two vertices, splitting a wall at a point, deleting a wall, committing
  a drawn wall, the Escape rollback and the axis lock;
- the miter junction that shapes each wall's outline;
- door placement: its two transforms, the door record with its polygons, and the effect that
  re-derives doors after every wall change;
- the wall settings panel: form defaults, change, blur and delete;
- the handlers that tie these together, as classes over the store.

The modules follow the program:

- `Geometry`, `Plan` (the records), `Snap`, `Graph` (the list edits), `WallPolygon`, `Doors`,
  `Panel` and `Editor` (the classes `Store`, `Canvas`, `DoorTool`, `SettingsPanel`);
- two helper modules, `Wrappers` (`Option`) and `Seqs` (`filter`, `find`, and the argmin that
  both the snap loop and the junction loop perform).

How JavaScript values are modelled:

- Coordinates are `real`. The model works on exact reals, not IEEE doubles.
- A wall's `thickness` and `height` are `JsNumber = Undef | NaN | Num(r)`, because `?? 10`,
  `isNaN(Number(..))`, `parseFloat` and `Math.min(10, NaN)` all tell the three apart.
- Wherever the source compares with `NaN`, the comparison is false, and the model spells that out:
  - a zero-length wall is skipped by the snap loop and the junction loop;
  - a zero-length wall, or one whose thickness is `NaN`, has no outline;
  - a door placed on a zero-length wall passes the bounds check;
  - a polygon with `NaN` corners (`None` here) "overlaps" everything.
- `Math.hypot` and `Math.sqrt` are replaced by a function parameter `sqrt` with
  `IsSqrt(sqrt)`, i.e. `sqrt(s) * sqrt(s) == s` and `sqrt(s) >= 0` for `s >= 0`. Snapping compares
  squared distances.
- `cos(atan2(dy, dx))` and `sin(atan2(dy, dx))` become the unit heading of the wall (`Doors.Heading`).
- The `acos` angle of the junction loop is an uninterpreted key, given as a function parameter.
- Identity tests on wall objects (`w !== wall`) become positions in the wall list.
- Reading a coordinate of a vertex that is not there (`undefined.x`) throws a `TypeError`. The
  outline computation models that throw as `WallPolygon.Outcome.Throws`: it happens when a wall
  meeting an end of the rendered wall has an endpoint out of view
  (`src/components/CanvasGrid.jsx:160-167`).

How React state is modelled:

- A handler reads the state of the render that created it.
- A method here leaves the state that the handler's queued updates, with the effects they
  trigger, produce.
- Updaters that chain (`setWalls(p => ...)` twice) see each other's results.

The model keeps these behaviours of the code as they are:

- `mergeVertices` de-duplicates walls by the directed key `${startId}-${endId}`
  (`src/components/CanvasGrid.jsx:626`), so A→B and B→A both survive a merge.
- The door re-derivation effect (`src/components/CanvasGrid.jsx:712-780`) drops every door each
  time `walls` changes. It looks for `wall.start` and `wall.end` fields that no wall has.
  `Editor.Store.SetWalls` therefore empties `doors`.
- The door tool appends a door whenever its snap info is `snapped`, even a placement it refused.
  The canvas's own `getDoorTransformFromSnap` and `deleteWall` are never called by the program;
  they are modelled all the same.
- The canvas reports the out-of-bounds rejection with the reason "Overlapping existing door",
  the same text it uses for a real overlap.
- Dragging a vertex onto a snapped vertex runs `{ ...v, ...target }`, which copies the target's
  `id` as well (`Editor.Spread`).
- The axis lock writes into the snap result's own point object. When that object is a stored
  vertex, the vertex moves in the store (`Editor.Canvas.HandleMouseMove`).
- Rendering a wall throws when a wall meeting one of its ends has an endpoint that no vertex
  carries: `getOffsetLine` then reads `undefined.x` (`src/components/CanvasGrid.jsx:119-120`).
  Such a wall can arise from the id-copying spread above. The model keeps the throw
  (`WallPolygon.RenderWallPolygon`).
- Clicking the same vertex twice while drawing commits a wall from that vertex to itself. The
  handler's `exists` test (`src/components/CanvasGrid.jsx:845-849`) shows that a commit is meant
  to add a wall only between vertices it does not already join, and `mergeVertices` drops every
  wall with `startId === endId` (`src/components/CanvasGrid.jsx:624`). The model keeps the
  handler's commit as written (`Editor.ClickEdit`, which the canvas's methods use) and proves the
  plan's invariants about a corrected one (`Editor.ClickEditCorrected`, see Findings).

## Model

| member | source | states |
|---|---|---|
| Geometry.ComputeIntersection | src/components/CanvasGrid.jsx:98-114 | null exactly when an argument is missing or the determinant's magnitude is below 1e-6; otherwise the point lies on both lines and is the only point that does |
| Geometry.CramerUnique | src/components/CanvasGrid.jsx:108-113 | with a nonzero determinant, any point satisfying both line equations is Cramer's solution |
| Geometry.IntersectionSymmetric | src/components/CanvasGrid.jsx:98-114 | swapping the two lines gives the same intersection (or none) |
| Geometry.GetOffsetLine | src/components/CanvasGrid.jsx:116-126 | both ends move by the same vector, keeping direction and length; the shift is perpendicular to the segment, has length abs(offset), and goes left of v1→v2 for a positive offset |
| Geometry.MinProjection | src/components/CanvasGrid.jsx:235-241 | the projection minimum is at most every vertex's projection and is attained by one |
| Geometry.MaxProjection | src/components/CanvasGrid.jsx:235-241 | the projection maximum is at least every vertex's projection and is attained by one |
| Geometry.ProjectionRange | src/components/CanvasGrid.jsx:235-249 | the min/max loop yields no bounds for an empty polygon and otherwise exactly the least and greatest projection |
| Geometry.AxisSeparates | src/components/CanvasGrid.jsx:235-253 | the two projection loops and the comparison of each range's maximum with the other's minimum say exactly whether the normal separates A and B |
| Geometry.NoEdgeSeparates | src/components/CanvasGrid.jsx:225-254 | the edge loop of one polygon runs to its end exactly when none of its edge normals separates A and B |
| Geometry.IsPolygonOverlap | src/components/CanvasGrid.jsx:219-257 | the nested loops return false exactly when some edge normal of A or of B separates the projections of the two polygons |
| Geometry.OverlapSymmetric | src/components/CanvasGrid.jsx:219-257 | overlap does not depend on the order of the two polygons |
| Plan.FindVertex | src/components/CanvasGrid.jsx:87 | `vertices.find` by id: none exactly when no vertex has the id; otherwise the first vertex carrying it |
| Plan.View.Lookup | src/components/CanvasGrid.jsx:88-91 | `getEffectiveVertex`: while a vertex is dragged with a preview, its id reads as the preview; every other id, and every id when nothing is dragged, reads as the stored vertex `find` gives |
| Plan.Used | src/components/CanvasGrid.jsx:941-942 | `walls.some(...)` for a wall ending at the id: true exactly when `find` for such a wall succeeds |
| Seqs.Find | src/components/CanvasGrid.jsx:788 | `find`: none exactly when no element qualifies; otherwise the first element that does |
| Seqs.Filter | src/components/CanvasGrid.jsx:144-147 | `filter`: no longer than the list; every kept element satisfies the predicate and comes from the list; every element of the list that satisfies it is kept |
| Seqs.FilterConcat | src/components/CanvasGrid.jsx:144-147 | filtering keeps order and multiplicity: the filter of a concatenation is the concatenation of the filters |
| Seqs.ArgMin | src/components/CanvasGrid.jsx:157-190 | the position the strict-less loop keeps is one of the keys seen so far, and a present one |
| Seqs.ArgMinIsLeast | src/components/CanvasGrid.jsx:157-190 | the strict-less argmin loop starting from Infinity: no result exactly when no key is present; otherwise a present key that is least, strictly less than every earlier present key |
| Snap.WallCandidate | src/components/CanvasGrid.jsx:585-606 | a wall qualifies only if both endpoints resolve; its point is v1 + t(v2−v1) with t in [0,1]; its squared distance lies within the band thickness/2 + distance (thickness 10 if missing, never NaN) |
| Snap.FindSnapTarget | src/components/CanvasGrid.jsx:572-610 | the two loops compute exactly the resolver Snap(vertices, walls, mode, point, distance) |
| Snap.Snap | src/components/CanvasGrid.jsx:572-610 | a vertex result only in wall mode, the first vertex within the distance at its list position; in wall mode a vertex within the distance always wins; a wall result carries its own position |
| Snap.FirstNear | src/components/CanvasGrid.jsx:574-581 | the vertex scan from position i: the first vertex within the distance, every vertex before it being outside; nothing exactly when no vertex from i on is within it |
| Snap.FirstNearVertex | src/components/CanvasGrid.jsx:574-581 | the vertex loop with its early return computes FirstNear from the first vertex |
| Snap.NearestWallLoop | src/components/CanvasGrid.jsx:583-609 | the wall loop keeping `closest` and `minDist` computes NearestWall |
| Snap.ConsiderWall | src/components/CanvasGrid.jsx:585-606 | one pass over a wall moves the loop's choice from the first i walls to the first i+1, a candidate winning only when strictly closer |
| Snap.CandidateChoice | src/components/CanvasGrid.jsx:583-609 | over any candidate list the choice is absent exactly when no wall qualifies, and otherwise a least distance, strictly below every earlier candidate |
| Snap.NearestWallFacts | src/components/CanvasGrid.jsx:583-609 | the wall pass alone: null exactly when no wall qualifies; otherwise a wall at its position whose candidate is closest, strictly closer than every earlier one |
| Snap.SnapInRange | src/components/CanvasGrid.jsx:572-610 | the index a result carries is a position of the vertex or wall list holding that vertex or wall |
| Snap.FirstNearIsFirst | src/components/CanvasGrid.jsx:574-581 | the vertex scan finds nothing exactly when no vertex is within the distance; otherwise it finds the first such vertex in list order |
| Snap.SnapPrefersFirstVertex | src/components/CanvasGrid.jsx:574-581 | in wall mode a vertex within the distance always wins; a vertex result is only returned in wall mode and is the first near vertex, at its list position |
| Snap.SnapNoVertexOutsideWallMode | src/components/CanvasGrid.jsx:575-577 | outside wall mode the result is never a vertex |
| Snap.SnapNearestWall | src/components/CanvasGrid.jsx:583-609 | null exactly when no vertex (in wall mode) and no wall qualifies; a wall result is the candidate at its position; no candidate is strictly closer, and every earlier candidate is strictly farther |
| Snap.CandidateIsClosest | src/components/CanvasGrid.jsx:590-598 | a wall's snap point is the point of the wall segment closest to the pointer |
| Snap.ProjectionIsClosest | src/components/CanvasGrid.jsx:593-597 | the clamped projection is at least as close as any point of the segment |
| Graph.Remap | src/components/CanvasGrid.jsx:615-620 | same length; after remapping, no wall touches the removed id; each wall differs from its original only in its endpoints |
| Graph.Dedupe | src/components/CanvasGrid.jsx:622-631 | the `seen`-set filter keeps only walls of the list that are no self-loops and have no key already seen, and never keeps a directed pair twice |
| Graph.FirstsUpTo | src/components/CanvasGrid.jsx:622-631 | the kept walls are exactly the first occurrences of each directed pair that is no self-loop, in order, with distinct pairs |
| Graph.DedupeIsFirsts | src/components/CanvasGrid.jsx:622-631 | the `seen`-set filter keeps exactly the first occurrences (FirstsUpTo) |
| Graph.FirstIffUnseen | src/components/CanvasGrid.jsx:624-630 | a wall is kept exactly when it is no self-loop and its key is not yet in `seen`, and `seen` then grows by that key unless the wall is a self-loop |
| Graph.DedupeStep | src/components/CanvasGrid.jsx:623-631 | one step of the filter keeps wall k exactly when it is the first of its key |
| Graph.DedupeFrom | src/components/CanvasGrid.jsx:622-631 | the filter over a suffix, with the pairs seen so far, completes the first occurrences of the prefix |
| Graph.MergeVertices | src/components/CanvasGrid.jsx:612-635 | a no-op when keep == remove; otherwise no wall touches the removed id or is a self-loop; directed pairs are distinct, with first occurrences kept in order; the vertex list is the filter dropping the removed id, in order |
| Graph.Without | src/components/CanvasGrid.jsx:654 | dropping one wall keeps all the others, in order |
| Graph.SplitWallAtPoint | src/components/CanvasGrid.jsx:637-679 | the other walls stay in order, followed by start→new and new→end, which copy thickness, height and name; the new vertex is appended at the point, or the existing vertex is moved there with the others unchanged |
| Graph.SplitKeepsPath | src/components/CanvasGrid.jsx:637-679 | after a split at a fresh vertex, lookups find the new vertex and every old one unchanged; both old endpoints stay used; only the two new walls touch the new vertex |
| Graph.SplitKeepsWellFormed | src/components/CanvasGrid.jsx:653-676 | splitting at a vertex no wall uses keeps the walls free of self-loops and of pairs joined twice |
| Graph.FindAppended | src/components/CanvasGrid.jsx:643 | appending a vertex with a fresh id makes it findable and changes no other lookup |
| Graph.DeleteWall | src/components/CanvasGrid.jsx:933-952 | the walls are the filter keeping those with another directed pair, in order; the vertices are the filter keeping those that are no endpoint of the deleted wall or that some wall of the list before the deletion uses, in order |
| Graph.DeleteWallKeepsVertices | src/components/CanvasGrid.jsx:941-951 | deleting a stored wall never removes a vertex, because the use test sees the wall itself |
| Graph.Joined | src/components/CanvasGrid.jsx:845-849 | the commit's `exists` test: for two distinct vertices, true exactly when some wall ends at both, in either direction; a joined vertex is used |
| Graph.NewWall | src/components/CanvasGrid.jsx:850-861 | the committed wall: the given id, start→end as the directed pair, so it joins the two, thickness 10, height 300 and the name "Wall" |
| Graph.CommitAgainstSnapshot | src/components/CanvasGrid.jsx:845-863 | the commit as written: the new wall is appended to the current walls unless the render's walls join the pair in either direction |
| Graph.CommitAgainstSnapshotDuplicates | src/components/CanvasGrid.jsx:845-863 | a plan where the commit as written joins a pair twice, while the corrected commit does not |
| Graph.CommitAgainstSnapshotSelfLoop | src/components/CanvasGrid.jsx:845-863 | the commit as written appends the self-loop 1→1, which the corrected commit refuses |
| Graph.CommitWall | src/components/CanvasGrid.jsx:845-863 | corrected commit: afterwards two distinct vertices are joined; nothing is appended for a self-loop or an already joined pair; otherwise exactly the wall a→b (thickness 10, height 300, "Wall") is appended; no self-loops and no pair joined twice are preserved |
| Graph.RollbackStart | src/components/CanvasGrid.jsx:686-697 | a vertex is removed iff it is the speculative start vertex and no wall uses it, the list then being its filter without that id, in order; otherwise the list is unchanged |
| Graph.AxisLock | src/components/CanvasGrid.jsx:887-895 | within 10 of the vertical through the start (abs(dx) < 10 and abs(dx) < abs(dy)) the point takes the start's x; within 10 of the horizontal, symmetrically, its y; otherwise it is unchanged |
| Graph.AxisLockIdempotent | src/components/CanvasGrid.jsx:887-895 | locking an already locked point changes nothing |
| WallPolygon.ConnectedUpTo | src/components/CanvasGrid.jsx:144-147 | every kept wall is a wall other than the rendered one that touches the vertex, and every such wall is kept; none is kept exactly when there is no such wall |
| WallPolygon.ConnectedIsFilter | src/components/CanvasGrid.jsx:144-147 | the neighbours are exactly the `filter` of the walls without the rendered one, in plan order and with multiplicity |
| WallPolygon.ConnectedResolve | src/components/CanvasGrid.jsx:160-167 | every wall touching the vertex has both endpoints in view exactly when every neighbour the filter keeps does |
| WallPolygon.Meeting | src/components/CanvasGrid.jsx:161-189 | a neighbour's meeting, when it exists, lies on the base offset line |
| WallPolygon.Meetings | src/components/CanvasGrid.jsx:160-190 | one entry per connected wall, in order; the entry of each neighbour in view is its meeting |
| WallPolygon.AngleKeys | src/components/CanvasGrid.jsx:176-178 | one angle key per meeting, absent where the meeting is |
| WallPolygon.Junction | src/components/CanvasGrid.jsx:143-193 | throws exactly when a wall meeting the vertex has an endpoint out of view (`getOffsetLine` reads `undefined.x`); otherwise null exactly when no other wall touches the vertex, and else a point on the base offset line |
| WallPolygon.Chosen | src/components/CanvasGrid.jsx:157-190 | over neighbours all in view: no crossing exactly when no neighbour's offset line crosses the base line; otherwise the crossing of a neighbour whose angle is least among those with a crossing and strictly less than every earlier one's |
| WallPolygon.AngleChoice | src/components/CanvasGrid.jsx:157-190 | over any list of meetings the choice is absent exactly when there is none, and otherwise a least angle, strictly below every earlier one |
| WallPolygon.BestIntersection | src/components/CanvasGrid.jsx:157-190 | the loop keeping bestAngle and bestIntersection throws exactly when some neighbour has an endpoint out of view, and otherwise computes Chosen |
| WallPolygon.ConsiderNeighbour | src/components/CanvasGrid.jsx:161-189 | one pass over a neighbour in view moves the loop's choice from the first j neighbours to the first j+1, a meeting winning only when its angle is strictly smaller |
| WallPolygon.GetJunctionPoint | src/components/CanvasGrid.jsx:143-193 | computes Junction: null without neighbours, a throw when a neighbour is out of view, else the loop's crossing, else the base line's start (at the start) or end (at the end) |
| WallPolygon.Corner | src/components/CanvasGrid.jsx:195-198 | a corner throws exactly when its junction does, and otherwise lies on its side's offset line |
| WallPolygon.CornerPoint | src/components/CanvasGrid.jsx:195-198 | the junction point, or the side line's end when there is none, or the junction's throw, computes Corner |
| WallPolygon.RenderWallPolygon | src/components/CanvasGrid.jsx:128-218 | throws exactly when a wall meeting either end has an endpoint out of view; otherwise no outline exactly for a zero-length wall or a NaN thickness, and else the four corners inner-start, inner-end, outer-end, outer-start at offsets ±thickness/2 |
| WallPolygon.Half | src/components/CanvasGrid.jsx:135-138 | `thickness / 2` after the default parameter: 5 for a missing thickness, none exactly for NaN, else half the number |
| WallPolygon.Outline | src/components/CanvasGrid.jsx:195-198 | for a wall of positive length, the four corners in drawing order, throwing exactly when a neighbour at either end is out of view |
| WallPolygon.CornerOfOne | src/components/CanvasGrid.jsx:143-193 | with a single neighbour in view whose line crosses the base line, the corner is that crossing |
| WallPolygon.MiterMeeting | src/components/CanvasGrid.jsx:179-184 | in a plan of exactly the two walls p→q and q→r (an L corner), the two walls' loops compute the same crossing point |
| WallPolygon.MiterEndCorner | src/components/CanvasGrid.jsx:195-198 | in the two-wall plan of an L corner, the end corner of the first wall is the crossing of the two offset lines |
| WallPolygon.MiterStartCorner | src/components/CanvasGrid.jsx:195-198 | in the two-wall plan of an L corner, the start corner of the second wall is that same crossing |
| WallPolygon.MiterCornersAgree | src/components/CanvasGrid.jsx:195-198 | in a plan of exactly two walls forming an L corner, the walls share their miter: the first's end corner and the second's start corner are the same crossing, on either side; the general choice among several neighbours is WallPolygon.Chosen's |
| Doors.RectCorners | src/components/SnapDoorWindowToWall.jsx:187-204 | a door rectangle has four corners |
| Doors.RectCentred | src/components/SnapDoorWindowToWall.jsx:187-204 | the four corners average to the centre |
| Doors.RectSameExtent | src/components/SnapDoorWindowToWall.jsx:206-223 | two rectangles with the same centre, heading and length differ corner by corner only across the wall, by the difference of their half-widths |
| Doors.Heading | src/components/CanvasGrid.jsx:302 | the heading has unit length; it is (1, 0) for a zero-length wall; otherwise it is parallel to the wall and points the same way |
| Doors.WallFrame | src/components/CanvasGrid.jsx:263-269 | none exactly when an endpoint does not resolve; the length squared is the squared length of the direction vector |
| Doors.WallRefOf | src/components/SnapDoorWindowToWall.jsx:162 | a door's `wallId`: the wall's own id when it has one, otherwise the wall's directed pair `${startId}-${endId}` |
| Doors.Offset | src/components/SnapDoorWindowToWall.jsx:124 | the scalar projection of the point on the wall from its start: absent (NaN) exactly on a zero-length wall, otherwise times the wall's length it is the dot product of the point's displacement with the wall's direction |
| Doors.OffsetAlongWall | src/components/CanvasGrid.jsx:277-279 | the point a fraction k along a wall of positive length has offset k·length, and the door fits there exactly when 35 ≤ k·length ≤ length − 35 |
| Doors.WithinWall | src/components/SnapDoorWindowToWall.jsx:126 | the bounds test: on a zero-length wall the offset is NaN, both comparisons are false and the door fits; on a wall of positive length a door fits only if the wall is at least 70 long |
| Doors.Expanded | src/components/CanvasGrid.jsx:305-326 | the test rectangle: absent exactly when the thickness is NaN (a missing thickness counts as 10); four corners averaging to the point; each corner lies 5 beyond the door's own rectangle across the wall, with the along-wall half-length 35 + 5 |
| Doors.Blocks | src/components/CanvasGrid.jsx:327-341 | only a door whose wallId is the wall's own (non-missing) id can block; a door centred exactly at the point never blocks; with a NaN test rectangle or a NaN door polygon, every other door on the same wall blocks |
| Doors.DoorHeightFor | src/components/CanvasGrid.jsx:274-275 | `min(10, thickness ?? 10)`: NaN iff the thickness is NaN, never above 10 or the thickness, and one of the two |
| Doors.ToolTransform | src/components/SnapDoorWindowToWall.jsx:106-140 | never a rejection with a reason; valid iff wall and point are present, both endpoints resolve and 35 ≤ offset ≤ length − 35 (a NaN offset passes, since both comparisons are false on NaN); then it has the point, the heading, doorHeight = min(10, thickness) and doorLength 70 |
| Doors.CanvasTransform | src/components/CanvasGrid.jsx:259-356 | refused iff wall, point or an endpoint is missing; rejected with "Overlapping existing door" when out of bounds or when a door on the same wall, not centred at the point, overlaps the expanded rectangle; otherwise valid with the same fields |
| Doors.GetDoorTransformFromSnap | src/components/CanvasGrid.jsx:259-356 | the loop with its `continue`s and the overlap test computes CanvasTransform |
| Doors.NewDoor | src/components/SnapDoorWindowToWall.jsx:171-240 | the record carries the id, the wallId, the snap point as centre, the info's point and heading, and a 70×10 rect; the polygons exist iff the transform was not refused (outer also needs a non-NaN thickness); both are centred at the snap point, and outer differs from inner only across the wall by thickness/2 − 5 |
| Panel.FormDefaults | src/components/WallSettingsPanel.jsx:8-23 | no form exactly without a selection; name "Wall" when empty; thickness 10 and height 300 when not numeric, else the wall's own; length "0" iff an endpoint is missing, else the measured length |
| Panel.HandleChange | src/components/WallSettingsPanel.jsx:25-30 | thickness and height are parsed (NaN when unparsable), the name is stored verbatim, and every other field is unchanged |
| Panel.HandleChangeCommutes | src/components/WallSettingsPanel.jsx:25-30 | edits to two different fields commute |
| Panel.Merged | src/components/WallSettingsPanel.jsx:37 | `{ ...w, ...formData }` keeps id and endpoints and takes the form's fields |
| Panel.HandleBlur | src/components/WallSettingsPanel.jsx:32-41 | a no-op without a selection; otherwise walls with the selected directed pair are merged with the form and all others are unchanged |
| Panel.HandleBlurIdempotent | src/components/WallSettingsPanel.jsx:32-41 | blurring twice with the same form equals blurring once |
| Panel.FormRoundTrip | src/components/WallSettingsPanel.jsx:14-19 | writing the unedited form back and reopening the panel shows the same form |
| Panel.UsedElsewhere | src/components/WallSettingsPanel.jsx:50-54 | `isUsed`: some wall outside the selected directed pair ends at the id, which is exactly being used by the walls the delete keeps |
| Panel.Keeps | src/components/WallSettingsPanel.jsx:56-59 | the vertex filter keeps a vertex exactly when it is not an endpoint of the selected wall or another wall still uses it |
| Panel.HandleDelete | src/components/WallSettingsPanel.jsx:43-63 | nothing without a selection; otherwise the walls are the filter keeping those with another directed pair, and the vertices the filter dropping the endpoints of the deleted wall that no other wall uses, both in order |
| Panel.HandleDeleteKeepsEndpoints | src/components/WallSettingsPanel.jsx:46-59 | if every wall's endpoints resolved before, they all still resolve after the delete |
| Panel.KeptEndpoint | src/components/WallSettingsPanel.jsx:50-59 | an endpoint of a surviving wall keeps its vertex |
| Editor.Store.constructor | src/context/EditorContext.jsx:6-10 | the store starts with empty lists, no mode and no selection |
| Editor.Store.SetWalls | src/components/CanvasGrid.jsx:712-780 | `setWalls` with the effects it triggers: the walls are replaced, every door is dropped, nothing else changes, and no wall is selected in a drawing mode |
| Editor.Store.Apply | src/components/CanvasGrid.jsx:612-679 | an edit's `setVertices` and, when it made one, its `setWalls` (as in `mergeVertices` and `splitWallAtPoint`): the vertices are the edit's, the walls are replaced only when the edit has walls, and then the doors are dropped; mode and selection are kept |
| Editor.Store.SetMode | src/components/CanvasGrid.jsx:681-682 | the mode changes; any drawing mode clears the selection |
| Editor.Grabs | src/components/CanvasGrid.jsx:788 | the press hit test `hypot < 10`, on squared distances: a press exactly on a vertex grabs it, and a grabbed vertex lies within 10 of the press on each axis |
| Editor.Spread | src/components/CanvasGrid.jsx:900 | `{ ...v, ...pointer }` lands at the pointer; a plain point keeps v's id, a vertex replaces v entirely |
| Editor.MoveVertex | src/components/CanvasGrid.jsx:818-820 | vertices with the id move to the pointer; all others are unchanged; list length is kept |
| Editor.Relocated | src/components/CanvasGrid.jsx:885-895 | after the lock writes into the snap result's point object, the result keeps its kind, position, wall and vertex id, and its point is the locked point |
| Editor.LockedTarget | src/components/CanvasGrid.jsx:883-895 | outside a wall draw the target is the snap's point or the pointer; while drawing, at most one of its coordinates moves, onto the start's |
| Editor.DragEdit | src/components/CanvasGrid.jsx:809-825 | released on another vertex: the dragged id leaves the vertices and every wall; on a wall: the vertex moves there and the wall becomes two halves through it; otherwise only the vertices with that id move and the walls are not set |
| Editor.ClickStart | src/components/CanvasGrid.jsx:826-843 | a click's vertex: the snapped vertex with nothing changed; on a wall a fresh vertex at the snap point, appended, with the wall replaced by its two halves through it; elsewhere a fresh vertex at the click, appended |
| Editor.ClickEdit | src/components/CanvasGrid.jsx:826-866 | as written: the click's vertex and vertices are ClickStart's; without a wall start nothing more; with one, if the render's walls join the pair the edit is ClickStart's, else the new wall start→vertex is appended to the walls after any split |
| Editor.ClickEditCorrected | src/components/CanvasGrid.jsx:845-866 | the click with the corrected commit: the end vertex and vertices are ClickStart's; a click on the start or on a pair already joined after the split changes no more than ClickStart; otherwise exactly the wall start→end is appended to the walls after the split; afterwards a start distinct from the end is joined to it |
| Editor.ClickJoins | src/components/CanvasGrid.jsx:845-863 | as written, a click while drawing always leaves the wall start joined to the clicked vertex (by a self-loop when they coincide) |
| Editor.ClickMatchesCorrected | src/components/CanvasGrid.jsx:845-863 | when the click splits no wall and lands off the wall start, the handler's commit gives the same edit as the corrected one |
| Editor.ClickKeepsWellFormed | src/components/CanvasGrid.jsx:826-866 | with the corrected commit, a wall-mode click keeps the walls free of self-loops and of pairs joined twice, and joins the wall start to the clicked vertex when they differ |
| Editor.Canvas.constructor | src/components/CanvasGrid.jsx:73-83 | all canvas pointer state starts empty |
| Editor.Canvas.Effective | src/components/CanvasGrid.jsx:88-91 | the canvas's view of the vertices: with no grabbed vertex or no preview it is the store's, and only the grabbed vertex's id reads as the preview |
| Editor.Canvas.OnEscape | src/components/CanvasGrid.jsx:683-707 | in wall mode: the speculative start vertex rolls back and the drawing state clears; in every mode: hover, grab, preview, snap and selection clear; nothing else changes |
| Editor.Canvas.HandleMouseDown | src/components/CanvasGrid.jsx:785-795 | grabs the first vertex within 10; with no hit in idle mode, selects the snapped wall or clears the selection; nothing else changes |
| Editor.Canvas.HandleMouseMove | src/components/CanvasGrid.jsx:880-931 | the snap result relocated to the locked point; a snapped vertex is rewritten in the store at its position and becomes the raw point and the hover vertex; the drag preview, hover point and hovered wall key follow the source |
| Editor.Canvas.Drop | src/components/CanvasGrid.jsx:809-825 | a drag release merges, splits or moves as DragEdit says, with the doors dropped when walls change, and clears the grab |
| Editor.Canvas.Place | src/components/CanvasGrid.jsx:826-866 | a wall-mode click applies ClickEdit, the handler's commit as written; its vertex becomes the wall start, which counts as speculative only on the first point |
| Editor.Canvas.ShowPointer | src/components/CanvasGrid.jsx:883-931 | stores the relocated snap; a vertex snap rewrites that vertex in the store and becomes the raw point and hover vertex; otherwise the raw point is the free locked point; drag preview and hovered wall key follow; the plan's walls, doors, mode and selection are unchanged |
| Editor.Canvas.Release | src/components/CanvasGrid.jsx:869-877 | nothing is grabbed afterwards; in idle mode the previous snap's wall (or none) becomes the selection; the plan is unchanged |
| Editor.Canvas.HandleMouseUp | src/components/CanvasGrid.jsx:797-878 | the snap at the raw point becomes the new snap result; a drag release applies DragEdit; a left click in wall mode applies ClickEdit, the commit as written; otherwise the plan is unchanged; in idle mode the previous snap's wall becomes the selection |
| Editor.DoorTool.constructor | src/components/SnapDoorWindowToWall.jsx:9 | no snap info at first |
| Editor.DoorTool.HandleMove | src/components/SnapDoorWindowToWall.jsx:143-169 | a wall snap within 50 gives its transform, wall, wallId and snap point; anything else gives an unsnapped info at the pointer |
| Editor.DoorTool.HandleClick | src/components/SnapDoorWindowToWall.jsx:171-244 | does nothing unless in door mode with a snapped info; then exactly one door is appended and the existing ones are unchanged |
| Editor.SettingsPanel.constructor | src/components/WallSettingsPanel.jsx:6 | no form at first |
| Editor.SettingsPanel.Refresh | src/components/WallSettingsPanel.jsx:8-23 | the form is the defaults of the selected wall |
| Editor.SettingsPanel.Change | src/components/WallSettingsPanel.jsx:25-30 | the form takes HandleChange's result |
| Editor.SettingsPanel.Blur | src/components/WallSettingsPanel.jsx:32-41 | with a selection, the walls take HandleBlur's result (and the doors are dropped); without one, nothing changes |
| Editor.SettingsPanel.Delete | src/components/WallSettingsPanel.jsx:43-63 | with a selection, vertices and walls take HandleDelete's result (filters that keep order) and the selection and form clear; without one, nothing changes |

## Left out

- Konva and SVG rendering (shapes, grid lines, dimension labels, measurements, door previews): drawing, not logic.
- `toWorldCoords`, `toScreenCoords` and the window listeners: foreign library and DOM calls. Pointer positions are parameters.
- Wheel zoom and stage drag, and the whole of `src/components/SvgGrid.jsx`: viewport UI, and SvgGrid is not used by the application.
- `src/components/Layout3d.jsx`, `src/components/LeftToolbar.jsx` and `src/App.js`: 3D preview and chrome, with no plan logic.
- `Date.now()` and the 300 ms click threshold: the click-versus-drag decision is a boolean parameter.
- `Date.now() + Math.random()` and `uuidv4()`: fresh ids are parameters.
- Floating point: coordinates are exact reals, so rounding and the 1e-6 threshold act on exact values.
- `Math.hypot`, `sqrt`, `acos`, `atan2`, `cos`, `sin`:
  - lengths come from a square-root parameter;
  - headings are unit vectors;
  - the junction angle is an uninterpreted key;
  - angles in degrees (`angle` fields of transforms and doors) are not kept;
  - `toFixed(2)` is kept as the squared length it formats.
- The thickness-handle drag: it depends on rendered handle positions.
- `draggedWallPreview` and the `type: "wall"` field of new walls: display state only.
- Editor.Canvas.HandleMouseUp: requires `rawMousePoint` for a wall-mode click; the handler would throw on `null` there.
- Editor.Canvas.HandleMouseUp: the click branch reuses the first snap result, which is computed at the same point.
- Editor.Canvas.HandleMouseMove: the axis lock's write is tracked in the stored vertex only; other copies of that object (`tempStartPoint`, a `hoverVertex` from an earlier render) are not aliased in the model.
- Editor.SettingsPanel.Refresh: stands for the panel's effect on `[selectedWall, vertices]`, which the model runs explicitly instead of after every store change.
- Doors.CanvasTransform: the transform carries the wall's unit heading where the source returns `angle: angleDeg`, and the test rectangle is built from that heading instead of `cos`/`sin` of `atan2`; the `x`, `y` fields of a refused transform are absent.

## Findings

| source | as written | input that shows it | evidently intended | confidence | as-written member | corrected member |
|---|---|---|---|---|---|---|
| src/components/CanvasGrid.jsx:845-863 | whether the pair is joined is checked on the walls of the render, while the new wall is appended to the walls after this click's split | walls [1→2], start at vertex 1; a click on wall 1→2 splits it at new vertex 3 into 1→3 and 3→2; the commit from 1 to 3 appends a second 1→3 | check the walls after the split, so a commit never joins a pair twice | not executed | Graph.CommitAgainstSnapshotDuplicates | Graph.CommitWall |
| src/components/CanvasGrid.jsx:845-863 | the commit does not compare the start with the clicked vertex | empty plan; click once (vertex 1 becomes the start), click again on the same spot (snaps to vertex 1): the wall 1→1 is appended | refuse a wall from a vertex to itself: the `exists` test at lines 845-849 keeps commits to pairs not yet joined, and `mergeVertices` drops `startId === endId` walls at line 624 | not executed | Graph.CommitAgainstSnapshotSelfLoop | Graph.CommitWall |
