/**
 * The GladeInspector: a tree view whose store mirrors the widget hierarchy of
 * the project it is bound to. It rebuilds the store when the project changes,
 * keeps it up to date on the project's add / remove / rename notifications,
 * and copies selections between the project and the view in both directions.
 *
 * The project's objects, their GladeWidgets and the adaptors' child lists
 * belong to the outside world; the inspector only reads them, so they are
 * passed in as a `World` of functions.
 */
module Inspector {
  import opened Optional
  import opened TreeStore

  /** A GObject of the project, known by its identity. */
  datatype Obj = Obj(id: nat)

  /**
   * What the inspector reads from the rest of the program:
   * - widgetOf: glade_widget_get_from_gobject (None when the object has no GladeWidget);
   * - objectOf: glade_widget_get_object;
   * - parent: the GladeWidget's parent (None for a toplevel);
   * - children: glade_widget_adaptor_get_children on the widget's object;
   * - name, internal, specialChildType: the widget's name, its internal-child
   *   tag and its object's "special-child-type" data;
   * - height: a rank that falls from a widget to the widgets of its children,
   *   witnessing that the child lists describe a finite, acyclic hierarchy.
   */
  datatype World = World(
    widgetOf: Obj -> Option<Widget>,
    objectOf: Widget -> Obj,
    parent: Widget -> Option<Widget>,
    children: Widget -> seq<Obj>,
    name: Widget -> string,
    internal: Widget -> Option<string>,
    specialChildType: Widget -> Option<string>,
    height: Widget -> nat)
  {
    ghost predicate Acyclic()
    {
      forall w: Widget, i :: 0 <= i < |children(w)| && widgetOf(children(w)[i]).Some? ==>
        height(widgetOf(children(w)[i]).value) < height(w)
    }
  }

  // ---------------------------------------------------------------------
  // Building rows (fill_model, update_model)
  // ---------------------------------------------------------------------

  /** One more than the highest height of a widget among `objs` (0 if none). */
  function Rank(world: World, objs: seq<Obj>): nat
  {
    if objs == [] then 0
    else
      var here := match world.widgetOf(objs[0]) case Some(w) => world.height(w) + 1 case None => 0;
      var rest := Rank(world, objs[1..]);
      if here < rest then rest else here
  }

  lemma {:induction false} RankAt(world: World, objs: seq<Obj>, i: nat)
    requires i < |objs| && world.widgetOf(objs[i]).Some?
    ensures world.height(world.widgetOf(objs[i]).value) < Rank(world, objs)
    decreases i
  {
    if i > 0 {
      RankAt(world, objs[1..], i - 1);
    }
  }

  lemma {:induction false} RankBelow(world: World, objs: seq<Obj>, h: nat)
    requires forall o :: o in objs && world.widgetOf(o).Some? ==> world.height(world.widgetOf(o).value) < h
    ensures Rank(world, objs) <= h
    decreases |objs|
  {
    if objs != [] {
      RankBelow(world, objs[1..], h);
    }
  }

  /** The children of a widget rank no higher than the widget itself. */
  lemma ChildrenRank(world: World, w: Widget)
    requires world.Acyclic()
    ensures Rank(world, world.children(w)) <= world.height(w)
  {
    forall o | o in world.children(w) && world.widgetOf(o).Some?
      ensures world.height(world.widgetOf(o).value) < world.height(w)
    {
      var i :| 0 <= i < |world.children(w)| && world.children(w)[i] == o;
    }
    RankBelow(world, world.children(w), world.height(w));
  }

  /** The rows fill_model appends for a list of objects. */
  function RowsOf(world: World, objs: seq<Obj>): seq<Row>
    requires world.Acyclic()
    decreases Rank(world, objs), |objs|
  {
    if objs == [] then []
    else match world.widgetOf(objs[0])
      case None => RowsOf(world, objs[1..])
      case Some(w) => [Subtree(world, w)] + RowsOf(world, objs[1..])
  }

  /** The row of one widget, unselected, with the rows of its adaptor's children under it. */
  function Subtree(world: World, w: Widget): Row
    requires world.Acyclic()
    decreases world.height(w) + 1, 0
  {
    ChildrenRank(world, w);
    Row(w, false, RowsOf(world, world.children(w)))
  }

  /** The GladeWidgets of the objects that have one, in list order. */
  function WidgetsOf(world: World, objs: seq<Obj>): seq<Widget>
  {
    if objs == [] then []
    else match world.widgetOf(objs[0])
      case None => WidgetsOf(world, objs[1..])
      case Some(w) => [w] + WidgetsOf(world, objs[1..])
  }

  /**
   * fill_model appends one row per listed object that has a GladeWidget, in
   * list order, skipping the others; each row holds its widget and, under it,
   * the rows of that widget's adaptor children.
   */
  lemma {:induction false} RowsOfShape(world: World, objs: seq<Obj>)
    requires world.Acyclic()
    ensures |RowsOf(world, objs)| == |WidgetsOf(world, objs)|
    ensures forall k :: 0 <= k < |RowsOf(world, objs)| ==>
      RowsOf(world, objs)[k] == Row(WidgetsOf(world, objs)[k], false, RowsOf(world, world.children(WidgetsOf(world, objs)[k])))
    decreases |objs|
  {
    if objs != [] {
      RowsOfShape(world, objs[1..]);
    }
  }

  lemma {:induction false} RowsOfConcat(world: World, a: seq<Obj>, b: seq<Obj>)
    requires world.Acyclic()
    ensures RowsOf(world, a + b) == RowsOf(world, a) + RowsOf(world, b)
    decreases |a|
  {
    if a == [] {
      assert a + b == b;
    } else {
      assert (a + b)[0] == a[0] && (a + b)[1..] == a[1..] + b;
      RowsOfConcat(world, a[1..], b);
    }
  }

  /** The row appended for one object, if it has a GladeWidget. */
  lemma RowsOfOne(world: World, o: Obj)
    requires world.Acyclic()
    ensures RowsOf(world, [o]) == match world.widgetOf(o) case None => [] case Some(w) => [Subtree(world, w)]
  {
    assert [o][1..] == [];
  }

  /**
   * fill_model (model, widgets, parent_iter): for each listed object that has
   * a GladeWidget, append a row for it under `parent` and fill in its
   * adaptor's children under that new row.
   */
  method FillModel(store: Store, world: World, objs: seq<Obj>, parent: Path)
    requires world.Acyclic()
    requires IsParent(store.forest, parent)
    modifies store
    ensures store.forest == AppendAt(old(store.forest), parent, RowsOf(world, objs))
    decreases Rank(world, objs)
  {
    ghost var f0 := store.forest;
    AppendAtNothing(f0, parent);
    var i := 0;
    while i < |objs|
      invariant 0 <= i <= |objs|
      invariant store.forest == AppendAt(f0, parent, RowsOf(world, objs[..i]))
    {
      ghost var built := RowsOf(world, objs[..i]);
      RowsOfConcat(world, objs[..i], [objs[i]]);
      RowsOfOne(world, objs[i]);
      assert objs[..i + 1] == objs[..i] + [objs[i]];
      match world.widgetOf(objs[i]) {
        case None =>
          assert built + [] == built;
        case Some(w) =>
          AppendAtTwice(f0, parent, built, [Row(w, false, [])]);
          AppendAtChildren(f0, parent, built);
          var iter := store.Append(parent, w);
          var children := world.children(w);
          AppendUnderLast(f0, parent, built, Row(w, false, []), RowsOf(world, children));
          assert Subtree(world, w) == Row(w, false, [] + RowsOf(world, children));
          if children != [] {
            RankAt(world, objs, i);
            ChildrenRank(world, w);
            FillModel(store, world, children, iter);
          } else {
            AppendAtNothing(store.forest, iter);
          }
      }
      i := i + 1;
    }
    assert objs[..|objs|] == objs;
  }

  /** The object has a GladeWidget and that widget has no parent. */
  predicate IsToplevel(world: World, o: Obj)
  {
    world.widgetOf(o).Some? && world.parent(world.widgetOf(o).value).None?
  }

  /** The list update_model builds by prepending each toplevel object it meets. */
  function Toplevels(world: World, objs: seq<Obj>): seq<Obj>
    decreases |objs|
  {
    if objs == [] then []
    else
      var last := objs[|objs| - 1];
      (if IsToplevel(world, last) then [last] else []) + Toplevels(world, objs[..|objs| - 1])
  }

  /** Toplevels come out in reverse project order. */
  lemma {:induction false} ToplevelsConcat(world: World, a: seq<Obj>, b: seq<Obj>)
    ensures Toplevels(world, a + b) == Toplevels(world, b) + Toplevels(world, a)
    decreases |b|
  {
    if b == [] {
      assert a + b == a;
    } else {
      var n := |b| - 1;
      assert (a + b)[..|a + b| - 1] == a + b[..n];
      ToplevelsConcat(world, a, b[..n]);
    }
  }

  /** Exactly the parent-less objects become roots. */
  lemma {:induction false} ToplevelsMember(world: World, objs: seq<Obj>, o: Obj)
    ensures o in Toplevels(world, objs) <==> o in objs && IsToplevel(world, o)
    decreases |objs|
  {
    if objs != [] {
      var n := |objs| - 1;
      ToplevelsMember(world, objs[..n], o);
      assert objs == objs[..n] + [objs[n]];
    }
  }

  /** Every object has a GladeWidget (update_model asserts this of the project). */
  ghost predicate AllHaveWidgets(world: World, objs: seq<Obj>)
  {
    forall o :: o in objs ==> world.widgetOf(o).Some?
  }

  // ---------------------------------------------------------------------
  // Notifications from the project
  // ---------------------------------------------------------------------

  /** The store after project_add_widget_cb for `w`. */
  function AfterAdd(world: World, f: seq<Row>, w: Widget): seq<Row>
    requires world.Acyclic()
  {
    match world.parent(w)
    case None => AppendAt(f, [], [Subtree(world, w)])
    case Some(pw) =>
      match Find(f, pw)
      case None => f
      case Some(p) => AppendAt(f, p, [Subtree(world, w)])
  }

  /**
   * The add notification is dropped when the widget's parent has no row.
   * Otherwise the widget's row, with its children filled in, becomes the
   * last child of its parent's (first) row, or the last root; its subtree is
   * inserted into the depth-first order, and every row outside the parent's
   * subtree keeps its place, widget and selection flag.
   */
  lemma AddWidgetEffect(world: World, f: seq<Row>, w: Widget)
    requires world.Acyclic()
    ensures world.parent(w).Some? && world.parent(w).value !in Preorder(f) ==> AfterAdd(world, f, w) == f
    ensures world.parent(w).None? ==> AfterAdd(world, f, w) == f + [Subtree(world, w)]
    ensures world.parent(w).Some? && world.parent(w).value in Preorder(f) ==>
      var p := Find(f, world.parent(w).value).value;
      ValidPath(f, p) && At(f, p).widget == world.parent(w).value && End(f, p) <= |Preorder(f)| &&
      FirstAt(Preorder(f), Offset(f, p), world.parent(w).value) &&
      IsParent(AfterAdd(world, f, w), p) &&
      ChildrenAt(AfterAdd(world, f, w), p) == ChildrenAt(f, p) + [Subtree(world, w)] &&
      SameOutside(f, AfterAdd(world, f, w), p) &&
      Preorder(AfterAdd(world, f, w)) == Preorder(f)[..End(f, p)] + RowPreorder(Subtree(world, w)) + Preorder(f)[End(f, p)..]
  {
    match world.parent(w)
    case None =>
    case Some(pw) =>
      match Find(f, pw)
      case None =>
      case Some(p) =>
        FindFirst(f, pw);
        AppendAtChildren(f, p, [Subtree(world, w)]);
        AppendAtKeeps(f, p, [Subtree(world, w)]);
        AppendAtPreorder(f, p, [Subtree(world, w)]);
        assert Preorder([Subtree(world, w)]) == RowPreorder(Subtree(world, w));
  }

  /** Adding never loses a row that was there. */
  lemma AddKeeps(world: World, f: seq<Row>, w: Widget, x: Widget)
    requires world.Acyclic()
    requires x in Preorder(f)
    ensures x in Preorder(AfterAdd(world, f, w))
  {
    match world.parent(w)
    case None =>
      PreorderConcat(f, [Subtree(world, w)]);
    case Some(pw) =>
      match Find(f, pw)
      case None =>
      case Some(p) =>
        AppendAtPreorder(f, p, [Subtree(world, w)]);
        var e := End(f, p);
        var ws := Preorder(f);
        assert ws == ws[..e] + ws[e..];
  }

  /** The store after a sequence of add notifications. */
  function AddAll(world: World, f: seq<Row>, ws: seq<Widget>): seq<Row>
    requires world.Acyclic()
    decreases |ws|
  {
    if ws == [] then f else AddAll(world, AfterAdd(world, f, ws[0]), ws[1..])
  }

  /**
   * When widgets are announced parents first (each widget's parent already
   * has a row or was announced earlier), every announced widget gets a row
   * and no row is lost.
   */
  lemma {:induction false} AddParentsFirst(world: World, f: seq<Row>, ws: seq<Widget>)
    requires world.Acyclic()
    requires forall k :: 0 <= k < |ws| && world.parent(ws[k]).Some? ==>
      world.parent(ws[k]).value in Preorder(f) || world.parent(ws[k]).value in ws[..k]
    ensures forall x :: x in Preorder(f) ==> x in Preorder(AddAll(world, f, ws))
    ensures forall k :: 0 <= k < |ws| ==> ws[k] in Preorder(AddAll(world, f, ws))
    decreases |ws|
  {
    if ws != [] {
      var g := AfterAdd(world, f, ws[0]);
      forall x | x in Preorder(f) ensures x in Preorder(g) {
        AddKeeps(world, f, ws[0], x);
      }
      assert ws[0] in Preorder(g) by {
        AddWidgetEffect(world, f, ws[0]);
        if world.parent(ws[0]).None? {
          PreorderConcat(f, [Subtree(world, ws[0])]);
        } else {
          var p := Find(f, world.parent(ws[0]).value).value;
          var e := End(f, p);
          assert RowPreorder(Subtree(world, ws[0]))[0] == ws[0];
          assert Preorder(g)[e] == ws[0];
        }
      }
      var rest := ws[1..];
      forall k | 0 <= k < |rest| && world.parent(rest[k]).Some?
        ensures world.parent(rest[k]).value in Preorder(g) || world.parent(rest[k]).value in rest[..k]
      {
        assert rest[k] == ws[k + 1];
        assert ws[..k + 1] == [ws[0]] + rest[..k];
      }
      AddParentsFirst(world, g, rest);
      assert ws[0] in Preorder(AddAll(world, f, ws));
      forall k | 0 <= k < |ws| ensures ws[k] in Preorder(AddAll(world, f, ws)) {
        if k > 0 {
          assert ws[k] == rest[k - 1];
        }
      }
    }
  }

  /** The store after project_remove_widget_cb for `w`. */
  function AfterRemove(f: seq<Row>, w: Widget): seq<Row>
  {
    match Find(f, w)
    case None => f
    case Some(p) => RemoveAt(f, p)
  }

  /**
   * Removing a widget with no row changes nothing. Otherwise the widget's
   * first row goes with its whole subtree and nothing else: putting that
   * subtree back where the row was gives the old depth-first order, its
   * parent keeps its other children in order, and every row outside that
   * parent's subtree keeps its place, widget and selection flag.
   */
  lemma RemoveWidgetEffect(world: World, f: seq<Row>, w: Widget)
    ensures w !in Preorder(f) ==> AfterRemove(f, w) == f
    ensures w in Preorder(f) ==>
      var p := Find(f, w).value;
      var k := Offset(f, p);
      ValidPath(f, p) && At(f, p).widget == w && FirstAt(Preorder(f), k, w) &&
      k <= |Preorder(AfterRemove(f, w))| &&
      Preorder(f) == Preorder(AfterRemove(f, w))[..k] + RowPreorder(At(f, p)) + Preorder(AfterRemove(f, w))[k..]
    ensures w in Preorder(f) ==>
      var p := Find(f, w).value;
      ValidPath(f, p) &&
      var q, i := p[..|p| - 1], p[|p| - 1];
      IsParent(f, q) && IsParent(AfterRemove(f, w), q) && i < |ChildrenAt(f, q)| &&
      ChildrenAt(AfterRemove(f, w), q) == ChildrenAt(f, q)[..i] + ChildrenAt(f, q)[i + 1..] &&
      SameOutside(f, AfterRemove(f, w), q)
  {
    if w in Preorder(f) {
      var p := Find(f, w).value;
      FindFirst(f, w);
      RemoveAtPreorder(f, p);
      RemoveAtChildren(f, p);
      RemoveAtKeeps(f, p);
    }
  }

  // ---------------------------------------------------------------------
  // Selection, both ways
  // ---------------------------------------------------------------------

  /** Select the row found for one selected object, if any. */
  function MarkSelected(world: World, f: seq<Row>, o: Obj): seq<Row>
  {
    match world.widgetOf(o)
    case None => f
    case Some(w) =>
      match Find(f, w)
      case None => f
      case Some(p) => SelectAt(f, p)
  }

  /** The store after project_selection_changed_cb has handled the first `n`
      objects of the project selection `sel`. */
  function SelectFirst(world: World, f: seq<Row>, sel: seq<Obj>, n: nat): seq<Row>
    requires n <= |sel|
    decreases n
  {
    if n == 0 then Unselected(f)
    else MarkSelected(world, SelectFirst(world, f, sel, n - 1), sel[n - 1])
  }

  /** The store after project_selection_changed_cb for the project selection `sel`. */
  function ApplyProjectSelection(world: World, f: seq<Row>, sel: seq<Obj>): seq<Row>
  {
    SelectFirst(world, f, sel, |sel|)
  }

  /** The row `p` is the row found for one of the first `n` selected objects. */
  ghost predicate FoundFor(world: World, f: seq<Row>, sel: seq<Obj>, n: nat, p: Path)
    requires n <= |sel|
  {
    exists j :: 0 <= j < n && world.widgetOf(sel[j]).Some? && Find(f, world.widgetOf(sel[j]).value) == Some(p)
  }

  /** The rows that selecting `sel` in the view should select. */
  ghost predicate ToSelect(world: World, f: seq<Row>, sel: seq<Obj>, p: Path)
  {
    exists o :: o in sel && world.widgetOf(o).Some? && Find(f, world.widgetOf(o).value) == Some(p)
  }

  lemma {:induction false} SelectFirstSpec(world: World, f: seq<Row>, sel: seq<Obj>, n: nat)
    requires n <= |sel|
    ensures SameShape(f, SelectFirst(world, f, sel, n))
    ensures forall q :: ValidPath(SelectFirst(world, f, sel, n), q) ==>
      (At(SelectFirst(world, f, sel, n), q).selected <==> FoundFor(world, f, sel, n, q))
    decreases n
  {
    if n == 0 {
      UnselectAllSpec(f);
    } else {
      SelectFirstSpec(world, f, sel, n - 1);
      SelectFirstStep(world, f, sel, n);
    }
  }

  /** The row `q` is the row found for the selected object `o`. */
  ghost predicate Marks(world: World, f: seq<Row>, o: Obj, q: Path)
  {
    world.widgetOf(o).Some? && Find(f, world.widgetOf(o).value) == Some(q)
  }

  /** Handling one object selects exactly its row, if it has one, and keeps
      the rows and every other flag. */
  lemma MarkSelectedSpec(world: World, f: seq<Row>, o: Obj)
    ensures SameShape(f, MarkSelected(world, f, o))
    ensures forall q :: ValidPath(f, q) ==> (ValidPath(MarkSelected(world, f, o), q) &&
      (At(MarkSelected(world, f, o), q).selected <==> At(f, q).selected || Marks(world, f, o, q)))
  {
    var g := MarkSelected(world, f, o);
    SameShapeRefl(f);
    if world.widgetOf(o).Some? && Find(f, world.widgetOf(o).value).Some? {
      var p := Find(f, world.widgetOf(o).value).value;
      SelectAtShape(f, p);
      forall q | ValidPath(f, q)
        ensures ValidPath(g, q) && (At(g, q).selected <==> At(f, q).selected || Marks(world, f, o, q))
      {
        SelectAtFlag(f, p, q);
      }
    }
  }

  /** Widening the prefix of the selection by one object. */
  lemma FoundForStep(world: World, f: seq<Row>, sel: seq<Obj>, n: nat, q: Path)
    requires 0 < n <= |sel|
    ensures FoundFor(world, f, sel, n, q) <==> FoundFor(world, f, sel, n - 1, q) || Marks(world, f, sel[n - 1], q)
  {
    if FoundFor(world, f, sel, n, q) && !Marks(world, f, sel[n - 1], q) {
      var j :| 0 <= j < n && world.widgetOf(sel[j]).Some? && Find(f, world.widgetOf(sel[j]).value) == Some(q);
      assert j < n - 1;
    }
  }

  /** One more selected object handled. */
  lemma SelectFirstStep(world: World, f: seq<Row>, sel: seq<Obj>, n: nat)
    requires 0 < n <= |sel|
    requires SameShape(f, SelectFirst(world, f, sel, n - 1))
    requires forall q {:trigger At(SelectFirst(world, f, sel, n - 1), q)} :: ValidPath(SelectFirst(world, f, sel, n - 1), q) ==>
      (At(SelectFirst(world, f, sel, n - 1), q).selected <==> FoundFor(world, f, sel, n - 1, q))
    ensures SameShape(f, SelectFirst(world, f, sel, n))
    ensures forall q :: ValidPath(SelectFirst(world, f, sel, n), q) ==>
      (At(SelectFirst(world, f, sel, n), q).selected <==> FoundFor(world, f, sel, n, q))
  {
    var h := SelectFirst(world, f, sel, n - 1);
    var g := SelectFirst(world, f, sel, n);
    MarkSelectedSpec(world, h, sel[n - 1]);
    SameShapeTrans(f, h, g);
    SameShapeOrder(f, h);
    forall q | ValidPath(g, q) ensures At(g, q).selected <==> FoundFor(world, f, sel, n, q) {
      SameShapeAt(h, g, q);
      FoundForStep(world, f, sel, n, q);
      assert Marks(world, h, sel[n - 1], q) <==> Marks(world, f, sel[n - 1], q);
    }
  }

  /**
   * After a project selection change the view's selection is exactly the
   * rows found for the selected objects' widgets; selected objects whose
   * widgets have no row are ignored, and the rows themselves do not change.
   */
  lemma ApplyProjectSelectionSpec(world: World, f: seq<Row>, sel: seq<Obj>)
    ensures SameShape(f, ApplyProjectSelection(world, f, sel))
    ensures forall q :: ValidPath(ApplyProjectSelection(world, f, sel), q) ==>
      (At(ApplyProjectSelection(world, f, sel), q).selected <==> ToSelect(world, f, sel, q))
  {
    SelectFirstSpec(world, f, sel, |sel|);
    forall q | ValidPath(ApplyProjectSelection(world, f, sel), q)
      ensures FoundFor(world, f, sel, |sel|, q) <==> ToSelect(world, f, sel, q)
    {
      if ToSelect(world, f, sel, q) {
        var o :| o in sel && world.widgetOf(o).Some? && Find(f, world.widgetOf(o).value) == Some(q);
        var j :| 0 <= j < |sel| && sel[j] == o;
      }
    }
  }

  /** The objects selection_foreach_func adds for the first `n` rows of `ps`,
      in that order. */
  function Collected(world: World, f: seq<Row>, ps: seq<Path>, n: nat): seq<Obj>
    requires n <= |ps|
    requires forall p :: p in ps ==> ValidPath(f, p)
    decreases n
  {
    if n == 0 then []
    else
      var r := At(f, ps[n - 1]);
      Collected(world, f, ps, n - 1) + (if r.selected then [world.objectOf(r.widget)] else [])
  }

  /** The objects of the selected rows, visited in tree order as
      gtk_tree_selection_selected_foreach does. */
  function SelectedObjects(world: World, f: seq<Row>): seq<Obj>
  {
    PreorderPathsValid(f);
    Collected(world, f, PreorderPaths(f), |PreorderPaths(f)|)
  }

  lemma {:induction false} CollectedMember(world: World, f: seq<Row>, ps: seq<Path>, n: nat, x: Obj)
    requires n <= |ps|
    requires forall p :: p in ps ==> ValidPath(f, p)
    ensures x in Collected(world, f, ps, n) <==>
      exists j :: 0 <= j < n && At(f, ps[j]).selected && world.objectOf(At(f, ps[j]).widget) == x
    decreases n
  {
    if n > 0 {
      CollectedMember(world, f, ps, n - 1, x);
      if exists j :: 0 <= j < n && At(f, ps[j]).selected && world.objectOf(At(f, ps[j]).widget) == x {
        var j :| 0 <= j < n && At(f, ps[j]).selected && world.objectOf(At(f, ps[j]).widget) == x;
        if j != n - 1 {
          assert 0 <= j < n - 1;
        }
      }
    }
  }

  /**
   * gtk_tree_selection_selected_foreach with selection_foreach_func: walk the
   * rows in tree order and collect the object of every selected one.
   */
  method GatherSelected(world: World, f: seq<Row>) returns (selected: seq<Obj>)
    ensures selected == SelectedObjects(world, f)
  {
    var paths := PreorderPaths(f);
    PreorderPathsValid(f);
    selected := [];
    var i := 0;
    while i < |paths|
      invariant 0 <= i <= |paths|
      invariant selected == Collected(world, f, paths, i)
    {
      var row := At(f, paths[i]);
      if row.selected {
        selected := selected + [world.objectOf(row.widget)];
      }
      i := i + 1;
    }
  }

  /**
   * After the view's selection changes, the app selection holds the object
   * of every selected row and nothing else.
   */
  lemma SelectedObjectsSpec(world: World, f: seq<Row>, x: Obj)
    ensures x in SelectedObjects(world, f) <==>
      exists p :: ValidPath(f, p) && At(f, p).selected && world.objectOf(At(f, p).widget) == x
  {
    var ps := PreorderPaths(f);
    PreorderPathsValid(f);
    CollectedMember(world, f, ps, |ps|, x);
    if exists p :: ValidPath(f, p) && At(f, p).selected && world.objectOf(At(f, p).widget) == x {
      var p :| ValidPath(f, p) && At(f, p).selected && world.objectOf(At(f, p).widget) == x;
      PreorderPathsComplete(f, p);
      var j :| 0 <= j < |ps| && ps[j] == p;
    }
  }

  /**
   * Round trip: copying a project selection into the view and reading the
   * view's selection back gives the objects of the selected widgets that
   * have rows. When each object is its widget's object, that is exactly the
   * selected objects that have rows.
   */
  lemma SelectionRoundTrip(world: World, f: seq<Row>, sel: seq<Obj>, x: Obj)
    ensures x in SelectedObjects(world, ApplyProjectSelection(world, f, sel)) <==>
      exists o :: o in sel && world.widgetOf(o).Some? && world.widgetOf(o).value in Preorder(f) &&
                  world.objectOf(world.widgetOf(o).value) == x
  {
    var g := ApplyProjectSelection(world, f, sel);
    ApplyProjectSelectionSpec(world, f, sel);
    SelectedObjectsSpec(world, g, x);
    if x in SelectedObjects(world, g) {
      var p :| ValidPath(g, p) && At(g, p).selected && world.objectOf(At(g, p).widget) == x;
      var o :| o in sel && world.widgetOf(o).Some? && Find(f, world.widgetOf(o).value) == Some(p);
      SameShapeAt(f, g, p);
    }
    if exists o :: o in sel && world.widgetOf(o).Some? && world.widgetOf(o).value in Preorder(f) &&
                   world.objectOf(world.widgetOf(o).value) == x {
      var o :| o in sel && world.widgetOf(o).Some? && world.widgetOf(o).value in Preorder(f) &&
               world.objectOf(world.widgetOf(o).value) == x;
      var p := Find(f, world.widgetOf(o).value).value;
      SameShapeAt(f, g, p);
      assert ToSelect(world, f, sel, p);
    }
  }

  // ---------------------------------------------------------------------
  // Pure helpers of the view: interactive search and the third cell's text
  // ---------------------------------------------------------------------

  /** g_str_has_prefix, compared one character at a time. */
  function HasPrefix(s: string, prefix: string): (r: bool)
    ensures r <==> prefix <= s
  {
    if prefix == [] then true
    else s != [] && s[0] == prefix[0] && HasPrefix(s[1..], prefix[1..])
  }

  /**
   * glade_inspector_search_func, whose TRUE means "no match": a row matches
   * the typed key exactly when its widget's name starts with the key, and a
   * row holding no widget never matches.
   */
  function SearchSkips(world: World, row: Option<Widget>, key: string): (skip: bool)
    ensures row.None? ==> skip
    ensures row.Some? ==> (!skip <==> |key| <= |world.name(row.value)| && world.name(row.value)[..|key|] == key)
  {
    match row
    case None => true
    case Some(w) => !HasPrefix(world.name(w), key)
  }

  /**
   * The CELL_MISC text of a row: "(internal NAME)" for an internal child,
   * otherwise "(TYPE child)" for a special child, otherwise a single blank.
   * None when the row holds no widget (the cell is left as it was).
   */
  function MiscText(world: World, row: Option<Widget>): (text: Option<string>)
    ensures text.None? <==> row.None?
    ensures text.Some? ==> |text.value| > 0
    ensures row.Some? && world.internal(row.value).Some? ==>
      text == Some("(internal " + world.internal(row.value).value + ")")
    ensures row.Some? && world.internal(row.value).None? && world.specialChildType(row.value).Some? ==>
      text == Some("(" + world.specialChildType(row.value).value + " child)")
    ensures row.Some? && world.internal(row.value).None? && world.specialChildType(row.value).None? ==>
      text == Some(" ")
  {
    match row
    case None => None
    case Some(w) =>
      match world.internal(w)
      case Some(n) => Some("(internal " + n + ")")
      case None =>
        match world.specialChildType(w)
        case Some(t) => Some("(" + t + " child)")
        case None => Some(" ")
  }

  // ---------------------------------------------------------------------
  // The inspector object
  // ---------------------------------------------------------------------

  /** The parts of a GladeProject the inspector reads. */
  class Project {
    var objects: seq<Obj>     // glade_project_get_objects
    var selection: seq<Obj>   // glade_project_selection_get

    constructor (objects: seq<Obj>, selection: seq<Obj>)
      ensures this.objects == objects && this.selection == selection
    {
      this.objects := objects;
      this.selection := selection;
    }
  }

  class Inspector {
    const store: Store
    var project: Option<Project>
    /** The application's selection (glade_app_selection_*). */
    var appSelection: seq<Obj>
    /** How many times glade_app_selection_changed was called. */
    var appSelectionSignals: nat
    /** How many times the inspector emitted "selection-changed". */
    var selectionSignals: nat

    /** glade_inspector_init: no project, an empty store. The application's
        selection is shared state that init leaves alone, so the new
        inspector sees whatever `appSelection` already holds. */
    constructor (appSelection: seq<Obj>)
      ensures fresh(store) && store.forest == []
      ensures project.None? && this.appSelection == appSelection
      ensures appSelectionSignals == 0 && selectionSignals == 0
    {
      store := new Store();
      project := None;
      this.appSelection := appSelection;
      appSelectionSignals := 0;
      selectionSignals := 0;
    }

    /** glade_inspector_get_project. */
    function GetProject(): Option<Project>
      reads this
    {
      project
    }

    /**
     * update_model: empty the store; then, when a project is bound, append one
     * root per parent-less project object (the list is built by prepending, so
     * in reverse project order), each filled in recursively.
     */
    method UpdateModel(world: World)
      requires world.Acyclic()
      requires project.Some? ==> AllHaveWidgets(world, project.value.objects)
      modifies store
      ensures store.forest == (if project.None? then [] else RowsOf(world, Toplevels(world, project.value.objects)))
    {
      store.Clear();
      if project.None? {
        return;
      }
      var objects := project.value.objects;
      var toplevels: seq<Obj> := [];
      var i := 0;
      while i < |objects|
        invariant 0 <= i <= |objects|
        invariant toplevels == Toplevels(world, objects[..i])
        invariant store.forest == []
      {
        var o := objects[i];
        var gwidget := world.widgetOf(o);
        assert objects[..i + 1][..i] == objects[..i];
        if world.parent(gwidget.value).None? {
          toplevels := [o] + toplevels;
        }
        i := i + 1;
      }
      assert objects[..|objects|] == objects;
      FillModel(store, world, toplevels, []);
    }

    /**
     * glade_inspector_set_project: bind `p` (None unbinds) and, through the
     * "project" notification, rebuild the store from it.
     */
    method SetProject(p: Option<Project>, world: World)
      requires world.Acyclic()
      requires p.Some? ==> AllHaveWidgets(world, p.value.objects)
      modifies this, store
      ensures GetProject() == p
      ensures store.forest == (if p.None? then [] else RowsOf(world, Toplevels(world, p.value.objects)))
      ensures appSelection == old(appSelection)
      ensures appSelectionSignals == old(appSelectionSignals) && selectionSignals == old(selectionSignals)
    {
      project := p;
      UpdateModel(world);
    }

    /** project_add_widget_cb. */
    method AddWidget(world: World, w: Widget)
      requires world.Acyclic()
      modifies store
      ensures store.forest == AfterAdd(world, old(store.forest), w)
    {
      var parentIter: Path := [];
      var parentWidget := world.parent(w);
      if parentWidget.Some? {
        var found := Find(store.forest, parentWidget.value);
        // parents have to be added first, then children
        if found.None? {
          return;
        }
        parentIter := found.value;
      }
      ghost var f0 := store.forest;
      var widgetIter := store.Append(parentIter, w);
      assert [] + [Row(w, false, [])] == [Row(w, false, [])];
      ghost var rows := RowsOf(world, world.children(w));
      AppendUnderLast(f0, parentIter, [], Row(w, false, []), rows);
      ChildrenRank(world, w);
      FillModel(store, world, world.children(w), widgetIter);
      assert Row(w, false, []).(children := Row(w, false, []).children + rows) == Subtree(world, w);
      assert [] + [Subtree(world, w)] == [Subtree(world, w)];
      assert store.forest == AppendAt(f0, parentIter, [Subtree(world, w)]);
    }

    /** project_remove_widget_cb. */
    method RemoveWidget(w: Widget)
      modifies store
      ensures store.forest == AfterRemove(old(store.forest), w)
    {
      var iter := Find(store.forest, w);
      if iter.Some? {
        store.Remove(iter.value);
      }
    }

    /**
     * project_widget_name_changed_cb: report the widget's row, if any, as
     * changed. The store is not modified.
     */
    method WidgetNameChanged(w: Widget) returns (changed: Option<Path>)
      ensures changed.Some? ==> ValidPath(store.forest, changed.value) && At(store.forest, changed.value).widget == w
      ensures changed.None? <==> w !in Preorder(store.forest)
    {
      changed := Find(store.forest, w);
    }

    /**
     * project_selection_changed_cb: ignored unless it comes from the bound
     * project; otherwise clear the view's selection and select the row of
     * every selected object whose widget has one.
     */
    method ProjectSelectionChanged(world: World, from: Project)
      modifies store
      ensures project != Some(from) ==> store.forest == old(store.forest)
      ensures project == Some(from) ==>
        store.forest == ApplyProjectSelection(world, old(store.forest), from.selection)
    {
      if project != Some(from) {
        return;
      }
      var sel := from.selection;
      ghost var f0 := store.forest;
      store.UnselectAll();
      var i := 0;
      while i < |sel|
        invariant 0 <= i <= |sel|
        invariant store.forest == SelectFirst(world, f0, sel, i)
      {
        var widget := world.widgetOf(sel[i]);
        if widget.Some? {
          var iter := Find(store.forest, widget.value);
          if iter.Some? {
            store.Select(iter.value);
          }
        }
        i := i + 1;
      }
    }

    /**
     * selection_changed_cb: clear the app selection, add the object of every
     * selected row in tree order, and signal the change once.
     */
    method SelectionChanged(world: World)
      modifies this
      ensures appSelection == SelectedObjects(world, store.forest)
      ensures appSelectionSignals == old(appSelectionSignals) + 1
      ensures selectionSignals == old(selectionSignals) + 1
      ensures project == old(project)
    {
      // The app selection is cleared and then refilled without intermediate
      // signals, so the objects are gathered first and stored at once.
      var selected := GatherSelected(world, store.forest);
      appSelection := selected;
      appSelectionSignals := appSelectionSignals + 1;
      selectionSignals := selectionSignals + 1;
    }
  }
}
