/**
 * The records every part of the editor shares: vertices, walls and the drawing mode, as they sit
 * in the editor store (`vertices`, `walls`, `doors`, `mode`, `selectedWall`).
 */
module Plan {
  import opened Wrappers
  import opened Geometry
  import opened Seqs

  /**
   * Vertex ids are generated as positive numbers (`Date.now() + Math.random()`), so every
   * truthiness test the editor makes on an id is a presence test; only equality of ids is used.
   */
  type Id = int

  /** A stored number as JavaScript sees it: absent (`undefined`), `NaN`, or a finite value. */
  datatype JsNumber = Undef | NaN | Num(value: real)

  datatype Vertex = Vertex(id: Id, x: real, y: real)
  {
    function Pos(): Point { Point(x, y) }
  }

  /**
   * The `length` entry of the settings form: literal text, or the measured length printed by
   * `toFixed(2)`, kept here as the squared length it is computed from.
   */
  datatype LengthText = Literal(text: string) | Fixed2(len2: real)

  /**
   * A wall joins the vertex `startId` to the vertex `endId`. An empty `id` or `name` stands for a
   * missing (falsy) one; `length` is present only after the settings form was merged into the wall.
   */
  datatype Wall = Wall(id: string, startId: Id, endId: Id, thickness: JsNumber, height: JsNumber,
                       name: string, length: Option<LengthText>)
  {
    /** The directed pair `${startId}-${endId}` the editor uses as a wall's key. */
    function Key(): (Id, Id) { (startId, endId) }

    predicate Touches(id: Id) { startId == id || endId == id }
  }

  /** The editing mode: `"wall"`, `"door"` or `null`. */
  datatype Mode = WallMode | DoorMode | NoMode

  /** Default wall thickness and height. */
  const WALL_WIDTH: real := 10.0
  const WALL_HEIGHT: real := 300.0

  /** `n ?? d`: only a missing value takes the default; `NaN` stays `NaN`. */
  function OrDefault(n: JsNumber, d: real): JsNumber
  {
    if n.Undef? then Num(d) else n
  }

  /** `vertices.find(v => v.id === id)`: the first vertex carrying `id`, if any. */
  function FindVertex(vs: seq<Vertex>, id: Id): (r: Option<Vertex>)
    ensures r.None? <==> forall i :: 0 <= i < |vs| ==> vs[i].id != id
    ensures r.Some? ==> r.value.id == id
    ensures r.Some? ==> exists i :: 0 <= i < |vs| && vs[i] == r.value && forall j :: 0 <= j < i ==> vs[j].id != id
  {
    if |vs| == 0 then None
    else if vs[0].id == id then Some(vs[0])
    else
      var r := FindVertex(vs[1..], id);
      if r.Some? then
        var i :| 0 <= i < |vs| - 1 && vs[1..][i] == r.value && forall j :: 0 <= j < i ==> vs[1..][j].id != id;
        assert vs[i + 1] == r.value && forall j :: 0 <= j < i + 1 ==> vs[j].id != id;
        r
      else r
  }

  /**
   * `walls.some(w => w.startId === id || w.endId === id)`: some wall ends at `id`, which is to say
   * that `find` for such a wall succeeds.
   */
  predicate Used(ws: seq<Wall>, id: Id)
    ensures Used(ws, id) <==> Find(ws, (w: Wall) => w.Touches(id)).Some?
  {
    exists i :: 0 <= i < |ws| && ws[i].Touches(id)
  }

  /** Every wall's endpoints name vertices that exist. */
  predicate EndpointsResolve(vs: seq<Vertex>, ws: seq<Wall>)
  {
    forall i :: 0 <= i < |ws| ==> FindVertex(vs, ws[i].startId).Some? && FindVertex(vs, ws[i].endId).Some?
  }

  /**
   * What the canvas reads a vertex as (`getEffectiveVertex`): while a vertex is dragged, its
   * preview stands in for it; otherwise the stored vertex with that id.
   */
  datatype View = View(vertices: seq<Vertex>, preview: Option<Vertex>, dragged: Option<Vertex>)
  {
    function Lookup(id: Id): (r: Option<Vertex>)
      ensures preview.None? || dragged.None? ==> r == FindVertex(vertices, id)
      ensures dragged.Some? && id != dragged.value.id ==> r == FindVertex(vertices, id)
      ensures preview.Some? && dragged.Some? && id == dragged.value.id ==> r == preview
    {
      if preview.Some? && dragged.Some? && id == dragged.value.id then preview else FindVertex(vertices, id)
    }
  }
}
