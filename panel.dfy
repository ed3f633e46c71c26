/**
 * The wall settings panel: the form it fills from the selected wall, the edits a field makes, the
 * merge of the form into the wall on blur, and deleting the selected wall.
 */
module Panel {
  import opened Wrappers
  import opened Geometry
  import opened Plan
  import opened Seqs

  /** The panel's `formData`: name, thickness, height and the (read-only) length text. */
  datatype Form = Form(name: string, thickness: JsNumber, height: JsNumber, length: LengthText)

  /**
   * The form the panel shows for the selected wall (`useEffect` on the selection): the name, or
   * "Wall" when it has none; thickness 10 and height 300 where the stored value is not a number;
   * the length when both endpoints exist, else "0".
   */
  function FormDefaults(vs: seq<Vertex>, selected: Option<Wall>): (r: Option<Form>)
    ensures r.None? <==> selected.None?
    ensures r.Some? ==> r.value.name == (if selected.value.name == "" then "Wall" else selected.value.name)
    ensures r.Some? ==> r.value.thickness.Num? && r.value.height.Num?
    ensures r.Some? ==> (selected.value.thickness.Num? ==> r.value.thickness == selected.value.thickness)
    ensures r.Some? ==> (!selected.value.thickness.Num? ==> r.value.thickness == Num(WALL_WIDTH))
    ensures r.Some? ==> (selected.value.height.Num? ==> r.value.height == selected.value.height)
    ensures r.Some? ==> (!selected.value.height.Num? ==> r.value.height == Num(WALL_HEIGHT))
    ensures r.Some? ==> (r.value.length == Literal("0") <==>
                         FindVertex(vs, selected.value.startId).None? || FindVertex(vs, selected.value.endId).None?)
    ensures r.Some? ==> var v1, v2 := FindVertex(vs, selected.value.startId), FindVertex(vs, selected.value.endId);
      v1.Some? && v2.Some? ==> r.value.length == Fixed2(Norm2(Sub(v2.value.Pos(), v1.value.Pos())))
  {
    if selected.None? then None
    else
      var w := selected.value;
      var v1, v2 := FindVertex(vs, w.startId), FindVertex(vs, w.endId);
      var length := if v1.Some? && v2.Some? then Fixed2(Norm2(Sub(v2.value.Pos(), v1.value.Pos()))) else Literal("0");
      Some(Form(if w.name == "" then "Wall" else w.name, Num(if w.thickness.Num? then w.thickness.value else WALL_WIDTH),
                Num(if w.height.Num? then w.height.value else WALL_HEIGHT), length))
  }

  /** The fields the panel lets the user edit. */
  datatype Field = NameField | ThicknessField | HeightField

  /**
   * `handleChange(field, value)`: the name is stored as typed, thickness and height as
   * `parseFloat(value)` (`parse` returns `None` where `parseFloat` gives NaN); the other fields keep
   * their values.
   */
  function HandleChange(form: Form, field: Field, value: string, parse: string -> Option<real>): (r: Form)
    ensures r.length == form.length
    ensures r.name == (if field == NameField then value else form.name)
    ensures field == ThicknessField ==> r.thickness == (if parse(value).Some? then Num(parse(value).value) else NaN)
    ensures field != ThicknessField ==> r.thickness == form.thickness
    ensures field == HeightField ==> r.height == (if parse(value).Some? then Num(parse(value).value) else NaN)
    ensures field != HeightField ==> r.height == form.height
  {
    var parsed := if parse(value).Some? then Num(parse(value).value) else NaN;
    match field
    case NameField => form.(name := value)
    case ThicknessField => form.(thickness := parsed)
    case HeightField => form.(height := parsed)
  }

  /** Edits to two different fields can be made in either order. */
  lemma HandleChangeCommutes(form: Form, f1: Field, v1: string, f2: Field, v2: string, parse: string -> Option<real>)
    requires f1 != f2
    ensures HandleChange(HandleChange(form, f1, v1, parse), f2, v2, parse) ==
            HandleChange(HandleChange(form, f2, v2, parse), f1, v1, parse)
  {
  }

  /** `{ ...w, ...formData }`: the form's fields replace the wall's, the rest of the wall stays. */
  function Merged(w: Wall, form: Option<Form>): (r: Wall)
    ensures r.id == w.id && r.startId == w.startId && r.endId == w.endId
    ensures form.None? ==> r == w
    ensures form.Some? ==> r.name == form.value.name && r.thickness == form.value.thickness &&
                           r.height == form.value.height && r.length == Some(form.value.length)
  {
    if form.None? then w
    else w.(name := form.value.name, thickness := form.value.thickness, height := form.value.height,
            length := Some(form.value.length))
  }

  /**
   * `handleBlur`: without a selection nothing is written (`None`); otherwise every wall with the
   * selected wall's directed pair takes the form's values and every other wall is left alone.
   */
  function HandleBlur(ws: seq<Wall>, selected: Option<Wall>, form: Option<Form>): (r: Option<seq<Wall>>)
    ensures r.None? <==> selected.None?
    ensures r.Some? ==> |r.value| == |ws|
    ensures r.Some? ==> forall i :: 0 <= i < |ws| && ws[i].Key() == selected.value.Key() ==> r.value[i] == Merged(ws[i], form)
    ensures r.Some? ==> forall i :: 0 <= i < |ws| && ws[i].Key() != selected.value.Key() ==> r.value[i] == ws[i]
  {
    if selected.None? then None
    else Some(seq(|ws|, i requires 0 <= i < |ws| => if ws[i].Key() == selected.value.Key() then Merged(ws[i], form) else ws[i]))
  }

  /** Blurring a second time with the same form changes nothing more. */
  lemma HandleBlurIdempotent(ws: seq<Wall>, selected: Option<Wall>, form: Option<Form>)
    requires selected.Some?
    ensures HandleBlur(HandleBlur(ws, selected, form).value, selected, form) == HandleBlur(ws, selected, form)
  {
    var once := HandleBlur(ws, selected, form).value;
    var twice := HandleBlur(once, selected, form).value;
    forall i | 0 <= i < |ws| ensures twice[i] == once[i] {
      if ws[i].Key() == selected.value.Key() {
        assert once[i] == Merged(ws[i], form);
        assert once[i].Key() == ws[i].Key();
        assert twice[i] == Merged(once[i], form);
      }
    }
    assert twice == once;
  }

  /** Writing back the unedited form and reopening the panel shows the same form. */
  lemma FormRoundTrip(vs: seq<Vertex>, w: Wall)
    ensures FormDefaults(vs, Some(Merged(w, FormDefaults(vs, Some(w))))) == FormDefaults(vs, Some(w))
  {
  }

  /** `isUsed(id)` of `handleDelete`: some wall other than the selected pair ends at `id`. */
  predicate UsedElsewhere(ws: seq<Wall>, key: (Id, Id), id: Id)
    ensures UsedElsewhere(ws, key, id) <==> Used(Filter(ws, (w: Wall) => w.Key() != key), id)
  {
    exists i :: 0 <= i < |ws| && ws[i].Key() != key && ws[i].Touches(id)
  }

  /** A vertex `handleDelete` keeps: not an endpoint of the deleted wall that no other wall uses. */
  predicate Keeps(ws: seq<Wall>, selected: Wall, v: Vertex)
    ensures Keeps(ws, selected, v) <==> !selected.Touches(v.id) || UsedElsewhere(ws, selected.Key(), v.id)
  {
    !(v.id == selected.startId && !UsedElsewhere(ws, selected.Key(), v.id)) &&
    !(v.id == selected.endId && !UsedElsewhere(ws, selected.Key(), v.id))
  }

  /**
   * `handleDelete`: without a selection nothing happens (`None`); otherwise the walls with the
   * selected directed pair are gone, the others stay in order, and an endpoint of the deleted wall
   * goes exactly when no other wall still uses it.
   */
  function HandleDelete(vs: seq<Vertex>, ws: seq<Wall>, selected: Option<Wall>): (r: Option<(seq<Vertex>, seq<Wall>)>)
    ensures r.None? <==> selected.None?
    ensures r.Some? ==> forall w :: w in r.value.1 <==> w in ws && w.Key() != selected.value.Key()
    ensures r.Some? ==> forall v :: v in r.value.0 <==>
      v in vs && !(selected.value.Touches(v.id) && !UsedElsewhere(ws, selected.value.Key(), v.id))
    // both lists keep the order and multiplicity of what remains (see `FilterConcat`)
    ensures r.Some? ==> r.value.1 == Filter(ws, (w: Wall) => w.Key() != selected.value.Key())
    ensures r.Some? ==> r.value.0 == Filter(vs, (v: Vertex) => Keeps(ws, selected.value, v))
  {
    if selected.None? then None
    else
      var sel := selected.value;
      Some((Filter(vs, (v: Vertex) => Keeps(ws, sel, v)), Filter(ws, (w: Wall) => w.Key() != sel.Key())))
  }

  /** Deleting a wall never leaves another wall with an endpoint that no longer resolves. */
  lemma HandleDeleteKeepsEndpoints(vs: seq<Vertex>, ws: seq<Wall>, selected: Wall)
    requires EndpointsResolve(vs, ws)
    ensures var r := HandleDelete(vs, ws, Some(selected)).value;
      EndpointsResolve(r.0, r.1)
  {
    var r := HandleDelete(vs, ws, Some(selected)).value;
    forall k | 0 <= k < |r.1| ensures FindVertex(r.0, r.1[k].startId).Some? && FindVertex(r.0, r.1[k].endId).Some? {
      var w := r.1[k];
      assert w in ws && w.Key() != selected.Key();
      var i :| 0 <= i < |ws| && ws[i] == w;
      KeptEndpoint(vs, ws, selected, i, w.startId);
      KeptEndpoint(vs, ws, selected, i, w.endId);
    }
  }

  /** An endpoint of a surviving wall keeps its vertex. */
  lemma KeptEndpoint(vs: seq<Vertex>, ws: seq<Wall>, selected: Wall, i: nat, id: Id)
    requires i < |ws| && ws[i].Key() != selected.Key() && ws[i].Touches(id)
    requires FindVertex(vs, id).Some?
    ensures FindVertex(HandleDelete(vs, ws, Some(selected)).value.0, id).Some?
  {
    var r := HandleDelete(vs, ws, Some(selected)).value;
    var v := FindVertex(vs, id).value;
    assert UsedElsewhere(ws, selected.Key(), id);
    assert v in vs;
    assert v in r.0;
  }
}
