/**
 * The edits the canvas makes to the vertex and wall lists: merging two vertices, splitting a wall
 * at a point, deleting a wall, committing a drawn wall, the Escape rollback of a speculative start
 * vertex, and the horizontal/vertical lock while drawing. Each is a pure function of the lists it
 * replaces, as the editor's `map`/`filter` updaters are.
 */
module Graph {
  import opened Wrappers
  import opened Geometry
  import opened Plan
  import opened Seqs

  predicate SelfLoop(w: Wall) { w.startId == w.endId }

  /** No two walls carry the same directed pair. */
  predicate DistinctKeys(ws: seq<Wall>)
  {
    forall i, j :: 0 <= i < j < |ws| ==> ws[i].Key() != ws[j].Key()
  }

  // --- mergeVertices ---

  /** Every endpoint equal to `remove` becomes `keep`; nothing else about a wall changes. */
  function Remap(ws: seq<Wall>, keep: Id, remove: Id): (r: seq<Wall>)
    ensures |r| == |ws|
    ensures keep != remove ==> forall i :: 0 <= i < |r| ==> !r[i].Touches(remove)
    ensures forall i :: 0 <= i < |r| ==> r[i].(startId := ws[i].startId, endId := ws[i].endId) == ws[i]
  {
    seq(|ws|, i requires 0 <= i < |ws| =>
      ws[i].(startId := if ws[i].startId == remove then keep else ws[i].startId,
             endId := if ws[i].endId == remove then keep else ws[i].endId))
  }

  /**
   * The `filter` with a `seen` set of `mergeVertices`: self-loops are dropped, and of several walls
   * with the same directed key only the first is kept.
   */
  function Dedupe(ws: seq<Wall>, seen: set<(Id, Id)>): (r: seq<Wall>)
    // the kept walls come from `ws`, are no self-loops, have unseen keys, and no key twice
    ensures |r| <= |ws|
    ensures forall k :: 0 <= k < |r| ==> r[k] in ws && !SelfLoop(r[k]) && r[k].Key() !in seen
    ensures forall k, l :: 0 <= k < l < |r| ==> r[k].Key() != r[l].Key()
  {
    if ws == [] then []
    else if SelfLoop(ws[0]) || ws[0].Key() in seen then Dedupe(ws[1..], seen)
    else [ws[0]] + Dedupe(ws[1..], seen + {ws[0].Key()})
  }

  /** Wall `i` is kept by the dedupe: it is no self-loop, and no earlier wall has its key. */
  predicate FirstOfKey(ws: seq<Wall>, i: nat)
    requires i < |ws|
  {
    !SelfLoop(ws[i]) && forall j :: 0 <= j < i ==> ws[j].Key() != ws[i].Key()
  }

  /**
   * The reference definition of the dedupe: the walls among the first `n` that are the first of
   * their key, in their original order.
   */
  function FirstsUpTo(ws: seq<Wall>, n: nat): (r: seq<Wall>)
    requires n <= |ws|
    ensures forall k :: 0 <= k < |r| ==> !SelfLoop(r[k])
    ensures forall k :: 0 <= k < |r| ==> exists i :: 0 <= i < n && r[k] == ws[i] && FirstOfKey(ws, i)
    ensures forall i :: 0 <= i < n && FirstOfKey(ws, i) ==> ws[i] in r
    ensures DistinctKeys(r)
  {
    if n == 0 then []
    else
      var prev := FirstsUpTo(ws, n - 1);
      if FirstOfKey(ws, n - 1) then
        var r := prev + [ws[n - 1]];
        assert forall k :: 0 <= k < |prev| ==> r[k] == prev[k] && prev[k].Key() != ws[n - 1].Key();
        assert r[|prev|] == ws[n - 1] && FirstOfKey(ws, n - 1);
        AppendKeepsDistinct(prev, ws[n - 1]);
        r
      else
        assert forall k :: 0 <= k < |prev| ==> exists i :: 0 <= i < n - 1 && prev[k] == ws[i] && FirstOfKey(ws, i);
        prev
  }

  /** Appending a wall whose key is new keeps the keys distinct. */
  lemma AppendKeepsDistinct(prev: seq<Wall>, w: Wall)
    requires DistinctKeys(prev) && forall k :: 0 <= k < |prev| ==> prev[k].Key() != w.Key()
    ensures DistinctKeys(prev + [w])
  {
    var r := prev + [w];
    forall i, j | 0 <= i < j < |r| ensures r[i].Key() != r[j].Key() {
      assert r[i] == prev[i];
      if j < |prev| {
        assert r[j] == prev[j];
      }
    }
  }

  /** The keys of the walls before `k` that are not self-loops: the `seen` set after `k` steps. */
  ghost function SeenBefore(ws: seq<Wall>, k: nat): set<(Id, Id)>
    requires k <= |ws|
  {
    set i | 0 <= i < k && !SelfLoop(ws[i]) :: ws[i].Key()
  }

  /** A wall is the first of its key exactly when it is no self-loop and its key has not been seen. */
  lemma FirstIffUnseen(ws: seq<Wall>, k: nat)
    requires k < |ws|
    ensures FirstOfKey(ws, k) <==> !SelfLoop(ws[k]) && ws[k].Key() !in SeenBefore(ws, k)
    ensures SeenBefore(ws, k + 1) == if SelfLoop(ws[k]) then SeenBefore(ws, k) else SeenBefore(ws, k) + {ws[k].Key()}
  {
    if !SelfLoop(ws[k]) && ws[k].Key() in SeenBefore(ws, k) {
      var i :| 0 <= i < k && !SelfLoop(ws[i]) && ws[i].Key() == ws[k].Key();
    }
    if !FirstOfKey(ws, k) && !SelfLoop(ws[k]) {
      var j :| 0 <= j < k && ws[j].Key() == ws[k].Key();
      assert !SelfLoop(ws[j]);
    }
  }

  /** One step of the filter: wall `k` is kept exactly when it is the first of its key. */
  lemma DedupeStep(ws: seq<Wall>, k: nat)
    requires k < |ws|
    ensures Dedupe(ws[k..], SeenBefore(ws, k)) ==
      (if FirstOfKey(ws, k) then [ws[k]] else []) + Dedupe(ws[k + 1..], SeenBefore(ws, k + 1))
    ensures FirstsUpTo(ws, k + 1) == FirstsUpTo(ws, k) + (if FirstOfKey(ws, k) then [ws[k]] else [])
  {
    var seen := SeenBefore(ws, k);
    assert ws[k..][0] == ws[k] && ws[k..][1..] == ws[k + 1..];
    FirstIffUnseen(ws, k);
    if !SelfLoop(ws[k]) && ws[k].Key() in seen {
      assert seen + {ws[k].Key()} == seen;
    }
  }

  /** The dedupe after `k` steps has produced exactly the reference prefix. */
  lemma {:induction false} DedupeFrom(ws: seq<Wall>, k: nat)
    requires k <= |ws|
    ensures FirstsUpTo(ws, k) + Dedupe(ws[k..], SeenBefore(ws, k)) == FirstsUpTo(ws, |ws|)
    decreases |ws| - k
  {
    if k < |ws| {
      DedupeStep(ws, k);
      DedupeFrom(ws, k + 1);
      var prefix, step, rest := FirstsUpTo(ws, k), if FirstOfKey(ws, k) then [ws[k]] else [], Dedupe(ws[k + 1..], SeenBefore(ws, k + 1));
      assert prefix + (step + rest) == (prefix + step) + rest;
    } else {
      assert ws[k..] == [];
    }
  }

  /** The `seen`-set filter keeps exactly the first wall of every key, in order. */
  lemma DedupeIsFirsts(ws: seq<Wall>)
    ensures Dedupe(ws, {}) == FirstsUpTo(ws, |ws|)
  {
    DedupeFrom(ws, 0);
    assert SeenBefore(ws, 0) == {};
    assert ws[0..] == ws;
  }

  /**
   * `mergeVertices(keep, remove)`: nothing happens when the two ids are equal. Otherwise no wall
   * refers to `remove` any more, no wall is a self-loop, no two walls share a directed pair (of
   * several, the first is kept, in order), and exactly the vertices with another id remain, in
   * their order (`Filter`, see `FilterConcat`).
   */
  function MergeVertices(vs: seq<Vertex>, ws: seq<Wall>, keep: Id, remove: Id): (r: (seq<Vertex>, seq<Wall>))
    ensures keep == remove ==> r == (vs, ws)
    ensures keep != remove ==> forall i :: 0 <= i < |r.1| ==> !r.1[i].Touches(remove) && !SelfLoop(r.1[i])
    ensures keep != remove ==> DistinctKeys(r.1)
    ensures keep != remove ==> r.1 == FirstsUpTo(Remap(ws, keep, remove), |ws|)
    ensures keep != remove ==> forall v :: v in r.0 <==> v in vs && v.id != remove
    ensures keep != remove ==> r.0 == Filter(vs, (v: Vertex) => v.id != remove)
  {
    if keep == remove then (vs, ws)
    else
      var remapped := Remap(ws, keep, remove);
      DedupeIsFirsts(remapped);
      var walls := Dedupe(remapped, {});
      assert forall i :: 0 <= i < |walls| ==> walls[i] in remapped;
      (Filter(vs, (v: Vertex) => v.id != remove), walls)
  }

  // --- splitWallAtPoint ---

  datatype Split = Split(vertices: seq<Vertex>, walls: seq<Wall>, newVertex: Vertex)

  /** The list without its element at `k`: `filter(w => w !== wall)` when `wall` is `ws[k]`. */
  function Without<T>(s: seq<T>, k: nat): (r: seq<T>)
    requires k < |s|
    ensures |r| == |s| - 1
    ensures forall i :: 0 <= i < |r| ==> r[i] == (if i < k then s[i] else s[i + 1])
  {
    s[..k] + s[k + 1..]
  }

  /**
   * `splitWallAtPoint(ws[k], p, existing)`: the vertex at `p` is `existing` moved there, or a new
   * vertex with a fresh id; the wall is replaced by two walls through it, appended after all the
   * others, that copy its thickness, height and name and get fresh ids.
   */
  function SplitWallAtPoint(vs: seq<Vertex>, ws: seq<Wall>, k: nat, p: Point, existing: Option<Id>,
                            freshVertex: Id, freshWall1: string, freshWall2: string): (r: Split)
    requires k < |ws|
    ensures r.newVertex == Vertex(if existing.Some? then existing.value else freshVertex, p.x, p.y)
    // the vertex list: the new vertex appended, or the existing one moved and the rest unchanged
    ensures existing.None? ==> r.vertices == vs + [r.newVertex]
    ensures existing.Some? ==> |r.vertices| == |vs|
    ensures existing.Some? ==>
      forall i :: 0 <= i < |vs| ==> r.vertices[i] == if vs[i].id == existing.value then r.newVertex else vs[i]
    // the wall list: the other walls in order, then start -> new, then new -> end
    ensures |r.walls| == |ws| + 1 && r.walls[..|ws| - 1] == Without(ws, k)
    ensures var w1, w2 := r.walls[|ws| - 1], r.walls[|ws|];
      w1.startId == ws[k].startId && w1.endId == r.newVertex.id &&
      w2.startId == r.newVertex.id && w2.endId == ws[k].endId
    ensures forall w :: w in r.walls[|ws| - 1..] ==>
      w.thickness == ws[k].thickness && w.height == ws[k].height && w.name == ws[k].name && w.length.None?
    ensures r.walls[|ws| - 1].id == freshWall1 && r.walls[|ws|].id == freshWall2
  {
    var id := if existing.Some? then existing.value else freshVertex;
    var v := Vertex(id, p.x, p.y);
    var vertices :=
      if existing.None? then vs + [v]
      else seq(|vs|, i requires 0 <= i < |vs| => if vs[i].id == id then vs[i].(x := p.x, y := p.y) else vs[i]);
    var wall := ws[k];
    var w1 := Wall(freshWall1, wall.startId, id, wall.thickness, wall.height, wall.name, None);
    var w2 := Wall(freshWall2, id, wall.endId, wall.thickness, wall.height, wall.name, None);
    var walls := Without(ws, k) + [w1, w2];
    assert walls[..|ws| - 1] == Without(ws, k);
    Split(vertices, walls, v)
  }

  /** Splitting a wall at a fresh vertex keeps the path between the wall's endpoints, through the new vertex. */
  lemma SplitKeepsPath(vs: seq<Vertex>, ws: seq<Wall>, k: nat, p: Point, freshVertex: Id, id1: string, id2: string)
    requires k < |ws|
    requires forall i :: 0 <= i < |vs| ==> vs[i].id != freshVertex
    requires !Used(ws, freshVertex)
    ensures var r := SplitWallAtPoint(vs, ws, k, p, None, freshVertex, id1, id2);
      FindVertex(r.vertices, freshVertex) == Some(Vertex(freshVertex, p.x, p.y)) &&
      (forall id :: id != freshVertex ==> FindVertex(r.vertices, id) == FindVertex(vs, id)) &&
      Used(r.walls, ws[k].startId) && Used(r.walls, ws[k].endId) &&
      forall i :: 0 <= i < |r.walls| && r.walls[i].Touches(freshVertex) ==> i >= |ws| - 1
  {
    var r := SplitWallAtPoint(vs, ws, k, p, None, freshVertex, id1, id2);
    FindAppended(vs, Vertex(freshVertex, p.x, p.y));
    forall i | 0 <= i < |ws| - 1 ensures !r.walls[i].Touches(freshVertex) {
      assert r.walls[i] == ws[if i < k then i else i + 1];
    }
    assert r.walls[|ws| - 1].Touches(ws[k].startId) && r.walls[|ws|].Touches(ws[k].endId);
  }

  /**
   * Splitting a wall that is no self-loop at a vertex no wall uses yet keeps a plan free of
   * self-loops and of pairs joined twice.
   */
  lemma SplitKeepsWellFormed(vs: seq<Vertex>, ws: seq<Wall>, k: nat, p: Point, freshVertex: Id, id1: string, id2: string)
    requires k < |ws| && NoSelfLoops(ws) && UniquePairs(ws)
    requires !Used(ws, freshVertex)
    ensures var r := SplitWallAtPoint(vs, ws, k, p, None, freshVertex, id1, id2);
      NoSelfLoops(r.walls) && UniquePairs(r.walls)
  {
    var r := SplitWallAtPoint(vs, ws, k, p, None, freshVertex, id1, id2);
    var n := |ws|;
    assert forall i :: 0 <= i < n - 1 ==> r.walls[i] == ws[if i < k then i else i + 1];
    assert ws[k].Touches(ws[k].startId) && ws[k].Touches(ws[k].endId);
    assert ws[k].startId != freshVertex && ws[k].endId != freshVertex;
    forall i | 0 <= i < n - 1 ensures !r.walls[i].Touches(freshVertex) {
      assert r.walls[i] == ws[if i < k then i else i + 1];
    }
  }

  /** A lookup in an extended list is unchanged for every id the old list holds, and finds the new vertex otherwise. */
  lemma {:induction false} FindAppended(vs: seq<Vertex>, v: Vertex)
    requires forall i :: 0 <= i < |vs| ==> vs[i].id != v.id
    ensures FindVertex(vs + [v], v.id) == Some(v)
    ensures forall id :: id != v.id ==> FindVertex(vs + [v], id) == FindVertex(vs, id)
  {
    if vs == [] {
    } else {
      assert (vs + [v])[1..] == vs[1..] + [v];
      FindAppended(vs[1..], v);
    }
  }

  // --- deleteWall (canvas) ---

  /**
   * The canvas's `deleteWall(wall)`: every wall with the same directed pair goes, and an endpoint
   * of `wall` is kept only if some wall of the list BEFORE the deletion uses it; both lists keep
   * the order of what remains. Its `setSelectedWall(null)` is not part of this function: the
   * canvas never calls `deleteWall`, and the panel's delete clears the selection itself.
   */
  function DeleteWall(vs: seq<Vertex>, ws: seq<Wall>, wall: Wall): (r: (seq<Vertex>, seq<Wall>))
    ensures forall w :: w in r.1 <==> w in ws && w.Key() != wall.Key()
    ensures forall v :: v in r.0 <==> v in vs && (wall.Touches(v.id) ==> Used(ws, v.id))
    ensures r.1 == Filter(ws, (w: Wall) => w.Key() != wall.Key())
    ensures r.0 == Filter(vs, (v: Vertex) => !wall.Touches(v.id) || Used(ws, v.id))
  {
    (Filter(vs, (v: Vertex) => !wall.Touches(v.id) || Used(ws, v.id)), Filter(ws, (w: Wall) => w.Key() != wall.Key()))
  }

  /** Because the pruning looks at the walls before the deletion, deleting a stored wall never removes a vertex. */
  lemma DeleteWallKeepsVertices(vs: seq<Vertex>, ws: seq<Wall>, wall: Wall)
    requires wall in ws
    ensures DeleteWall(vs, ws, wall).0 == vs
  {
    var i :| 0 <= i < |ws| && ws[i] == wall;
    FilterAll(vs, (v: Vertex) => !wall.Touches(v.id) || Used(ws, v.id));
  }

  // --- wall commit and the Escape rollback (handleMouseUp, the Escape handler) ---

  /**
   * Some wall joins `a` and `b`, in either direction (the `exists` test of the commit). For two
   * distinct vertices that is a wall ending at both; either way both are used.
   */
  predicate Joined(ws: seq<Wall>, a: Id, b: Id)
    ensures a != b ==> (Joined(ws, a, b) <==> exists i :: 0 <= i < |ws| && ws[i].Touches(a) && ws[i].Touches(b))
    ensures Joined(ws, a, b) ==> Used(ws, a) && Used(ws, b)
  {
    exists i :: 0 <= i < |ws| && ((ws[i].startId == a && ws[i].endId == b) || (ws[i].endId == a && ws[i].startId == b))
  }

  /** No two walls join the same two vertices, in either direction. */
  predicate UniquePairs(ws: seq<Wall>)
  {
    forall i, j :: 0 <= i < j < |ws| ==>
      !((ws[i].startId == ws[j].startId && ws[i].endId == ws[j].endId) ||
        (ws[i].startId == ws[j].endId && ws[i].endId == ws[j].startId))
  }

  /** The wall a commit appends: thickness 10, height 300, named "Wall". */
  function NewWall(id: string, a: Id, b: Id): (r: Wall)
    ensures r.id == id && r.Key() == (a, b) && Joined([r], a, b)
    ensures r.thickness == Num(WALL_WIDTH) && r.height == Num(WALL_HEIGHT) && r.name == "Wall"
  {
    var r := Wall(id, a, b, Num(WALL_WIDTH), Num(WALL_HEIGHT), "Wall", None);
    assert [r][0] == r;
    r
  }

  /**
   * The commit as the handler writes it: whether the pair is already joined is decided on the
   * walls of the render snapshot `checked`, and the wall is appended to `current`, which may
   * already hold the halves of a wall split by the same click.
   */
  function CommitAgainstSnapshot(checked: seq<Wall>, current: seq<Wall>, a: Id, b: Id, id: string): (r: seq<Wall>)
    ensures Joined(checked, a, b) ==> r == current
    ensures !Joined(checked, a, b) ==> r == current + [NewWall(id, a, b)]
  {
    if Joined(checked, a, b) then current else current + [NewWall(id, a, b)]
  }

  /** No wall runs from a vertex to itself. */
  predicate NoSelfLoops(ws: seq<Wall>)
  {
    forall i :: 0 <= i < |ws| ==> !SelfLoop(ws[i])
  }

  /**
   * The commit as intended: the wall from `a` to `b` is appended unless it would be a self-loop or
   * a wall of the same list already joins the two vertices; afterwards two distinct vertices are
   * joined, and the list gains neither a self-loop nor a pair joined twice.
   */
  function CommitWall(ws: seq<Wall>, a: Id, b: Id, id: string): (r: seq<Wall>)
    ensures a != b ==> Joined(r, a, b)
    ensures a == b || Joined(ws, a, b) ==> r == ws
    ensures a != b && !Joined(ws, a, b) ==> r == ws + [NewWall(id, a, b)]
    ensures UniquePairs(ws) ==> UniquePairs(r)
    ensures NoSelfLoops(ws) ==> NoSelfLoops(r)
  {
    if a == b || Joined(ws, a, b) then ws
    else
      var r := ws + [NewWall(id, a, b)];
      assert r[|ws|].startId == a && r[|ws|].endId == b;
      r
  }

  /**
   * Clicking twice on the same spot of an empty plan: the first click creates vertex 1 and starts
   * a wall there, the second snaps to vertex 1, and the handler's commit appends the self-loop
   * 1 -> 1, which the intended commit refuses.
   */
  lemma CommitAgainstSnapshotSelfLoop()
    ensures !NoSelfLoops(CommitAgainstSnapshot([], [], 1, 1, "c"))
    ensures CommitWall([], 1, 1, "c") == []
  {
    assert !Joined([], 1, 1);
    assert SelfLoop(CommitAgainstSnapshot([], [], 1, 1, "c")[0]);
  }

  /**
   * A plan the snapshot check gets wrong: the walls 1 -> 2 (start vertex 1), a click on that wall
   * splits it at the fresh vertex 3, and the commit from 1 to 3 is checked against the walls
   * before the split, so the half 1 -> 3 is appended a second time.
   */
  lemma CommitAgainstSnapshotDuplicates()
    ensures var before := [NewWall("w", 1, 2)];
      var s := SplitWallAtPoint([Vertex(1, 0.0, 0.0), Vertex(2, 100.0, 0.0)], before, 0, Point(50.0, 0.0), None, 3, "a", "b");
      UniquePairs(before) && UniquePairs(s.walls) &&
      !UniquePairs(CommitAgainstSnapshot(before, s.walls, 1, s.newVertex.id, "c")) &&
      UniquePairs(CommitWall(s.walls, 1, s.newVertex.id, "c"))
  {
    var before := [NewWall("w", 1, 2)];
    var s := SplitWallAtPoint([Vertex(1, 0.0, 0.0), Vertex(2, 100.0, 0.0)], before, 0, Point(50.0, 0.0), None, 3, "a", "b");
    assert s.walls == [s.walls[0], s.walls[1]];
    assert s.walls[0].Key() == (1, 3) && s.walls[1].Key() == (3, 2);
    PairUnique(s.walls[0], s.walls[1]);
    assert Joined(s.walls, 1, 3) && !Joined(before, 1, 3);
    var r := CommitAgainstSnapshot(before, s.walls, 1, 3, "c");
    assert r[0].Key() == r[2].Key();
  }

  /** Two walls that do not join the same pair of vertices form a list without a repeated pair. */
  lemma PairUnique(w1: Wall, w2: Wall)
    requires !(w1.startId == w2.startId && w1.endId == w2.endId) && !(w1.startId == w2.endId && w1.endId == w2.startId)
    ensures UniquePairs([w1, w2])
  {
  }

  /**
   * The Escape rollback: the vertex created for a wall that was never finished is removed exactly
   * when no wall uses it; every other vertex stays, in order.
   */
  function RollbackStart(vs: seq<Vertex>, ws: seq<Wall>, lastCreated: Option<Id>): (r: seq<Vertex>)
    ensures forall v :: v in r <==> v in vs && !(lastCreated == Some(v.id) && !Used(ws, v.id))
    ensures lastCreated.None? || Used(ws, lastCreated.value) ==> r == vs
    ensures lastCreated.Some? && !Used(ws, lastCreated.value) ==> r == Filter(vs, (v: Vertex) => v.id != lastCreated.value)
  {
    if lastCreated.Some? && !Used(ws, lastCreated.value) then Filter(vs, (v: Vertex) => v.id != lastCreated.value)
    else vs
  }

  // --- the axis lock of handleMouseMove ---

  /**
   * While a wall is being drawn from `start`, a target less than the snap distance off the
   * vertical through `start` (and closer to it than to the horizontal) is moved onto it, and
   * likewise for the horizontal.
   */
  function AxisLock(target: Point, start: Point, sd: real): (r: Point)
    ensures r == target || r == target.(x := start.x) || r == target.(y := start.y)
    ensures r.x != target.x ==> r.x == start.x && Abs(target.x - start.x) < sd && Abs(target.x - start.x) < Abs(target.y - start.y)
    ensures r.y != target.y ==> r.y == start.y && Abs(target.y - start.y) < sd && Abs(target.y - start.y) < Abs(target.x - start.x)
    // the lock happens: near the vertical it takes the start's x, near the horizontal its y, else nothing moves
    ensures Abs(target.x - start.x) < sd && Abs(target.x - start.x) < Abs(target.y - start.y) ==> r == target.(x := start.x)
    ensures Abs(target.y - start.y) < sd && Abs(target.y - start.y) < Abs(target.x - start.x) ==> r == target.(y := start.y)
    ensures (!(Abs(target.x - start.x) < sd && Abs(target.x - start.x) < Abs(target.y - start.y)) &&
             !(Abs(target.y - start.y) < sd && Abs(target.y - start.y) < Abs(target.x - start.x))) ==> r == target
  {
    var dx, dy := Abs(target.x - start.x), Abs(target.y - start.y);
    if dx < sd && dx < dy then target.(x := start.x)
    else if dy < sd && dy < dx then target.(y := start.y)
    else target
  }

  /** Locking a locked point changes nothing. */
  lemma AxisLockIdempotent(target: Point, start: Point, sd: real)
    ensures AxisLock(AxisLock(target, start, sd), start, sd) == AxisLock(target, start, sd)
  {}
}
