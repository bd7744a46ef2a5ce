/**
 * The inspector's tree store (a GtkTreeStore with one column holding a
 * widget), modelled as a forest of rows. A tree iter is modelled by the
 * path of the row it points at: the first index picks a root, each further
 * index picks a child of the row before it. Rows are only ever appended or
 * removed with their whole subtree, so a path names the same row for as
 * long as the row and its earlier siblings stay.
 */
module TreeStore {
  import opened Optional

  /** A GladeWidget, known to the store only by its identity. */
  datatype Widget = Widget(id: nat)

  /** A row of the store: the widget it holds, whether the tree view has it
      selected (GTK keeps the selection on the rows themselves), and its
      child rows. */
  datatype Row = Row(widget: Widget, selected: bool, children: seq<Row>)

  type Path = seq<nat>

  /** `p` names a row of `f`. */
  predicate ValidPath(f: seq<Row>, p: Path)
    decreases p
  {
    |p| > 0 && p[0] < |f| && (|p| == 1 || ValidPath(f[p[0]].children, p[1..]))
  }

  /** `p` names a place rows can be appended under: the top level or a row. */
  predicate IsParent(f: seq<Row>, p: Path)
  {
    p == [] || ValidPath(f, p)
  }

  /** The row that `p` names. */
  function At(f: seq<Row>, p: Path): Row
    requires ValidPath(f, p)
    decreases p
  {
    if |p| == 1 then f[p[0]] else At(f[p[0]].children, p[1..])
  }

  /** The rows directly under `p` (the top-level rows for the empty path). */
  function ChildrenAt(f: seq<Row>, p: Path): seq<Row>
    requires IsParent(f, p)
  {
    if p == [] then f else At(f, p).children
  }

  /** The store after appending `rs`, in order, as the last children of `p`. */
  function AppendAt(f: seq<Row>, p: Path, rs: seq<Row>): seq<Row>
    requires IsParent(f, p)
    decreases p
  {
    if p == [] then f + rs
    else f[p[0] := f[p[0]].(children := AppendAt(f[p[0]].children, p[1..], rs))]
  }

  /** The store after removing the row `p` together with its subtree. */
  function RemoveAt(f: seq<Row>, p: Path): seq<Row>
    requires ValidPath(f, p)
    decreases p
  {
    if |p| == 1 then f[..p[0]] + f[p[0] + 1..]
    else f[p[0] := f[p[0]].(children := RemoveAt(f[p[0]].children, p[1..]))]
  }

  /** The widgets of a forest in depth-first order, parents before children. */
  function Preorder(f: seq<Row>): seq<Widget>
    decreases f
  {
    if f == [] then [] else RowPreorder(f[0]) + Preorder(f[1..])
  }

  /** The widgets of one row's subtree in depth-first order. */
  function RowPreorder(r: Row): seq<Widget>
    decreases r
  {
    [r.widget] + Preorder(r.children)
  }

  /** The paths of every row in depth-first order, matching `Preorder`. */
  function PreorderPaths(f: seq<Row>): seq<Path>
    decreases f
  {
    if f == [] then []
    else [[0]] + Prefixed(0, PreorderPaths(f[0].children)) + Shifted(PreorderPaths(f[1..]))
  }

  /** Every path of `ps` moved under root `i`. */
  function Prefixed(i: nat, ps: seq<Path>): (r: seq<Path>)
    ensures |r| == |ps|
    ensures forall k {:trigger r[k]} :: 0 <= k < |ps| ==> r[k] == [i] + ps[k]
  {
    if ps == [] then [] else [[i] + ps[0]] + Prefixed(i, ps[1..])
  }

  /** Every path of `ps`, taken in the forest without its first root, moved back
      to the whole forest. */
  function Shifted(ps: seq<Path>): (r: seq<Path>)
    ensures |r| == |ps|
    ensures forall k {:trigger r[k]} :: 0 <= k < |ps| ==> r[k] == ShiftPath(ps[k])
  {
    if ps == [] then [] else [ShiftPath(ps[0])] + Shifted(ps[1..])
  }

  function ShiftPath(p: Path): Path
  {
    if p == [] then [] else [p[0] + 1] + p[1..]
  }

  /**
   * The depth-first search for the first row holding `w`, as the search the
   * inspector calls for every lookup by widget does. It finds a row exactly
   * when the widget is somewhere in the store.
   */
  function Find(f: seq<Row>, w: Widget): (r: Option<Path>)
    ensures r.Some? ==> ValidPath(f, r.value) && At(f, r.value).widget == w
    ensures r.None? <==> w !in Preorder(f)
    decreases f
  {
    if f == [] then None
    else if f[0].widget == w then Some([0])
    else match Find(f[0].children, w)
      case Some(p) => Some([0] + p)
      case None =>
        match Find(f[1..], w)
        case Some(p) => Some(ShiftPath(p))
        case None => None
  }

  /** Splitting a forest splits its depth-first order. */
  lemma {:induction false} PreorderConcat(a: seq<Row>, b: seq<Row>)
    ensures Preorder(a + b) == Preorder(a) + Preorder(b)
    decreases |a|
  {
    if a == [] {
      assert a + b == b;
    } else {
      assert (a + b)[0] == a[0];
      assert (a + b)[1..] == a[1..] + b;
      PreorderConcat(a[1..], b);
    }
  }

  /** The depth-first order of a forest around its `i`-th root. */
  lemma {:induction false} PreorderAround(f: seq<Row>, i: nat)
    requires i < |f|
    ensures Preorder(f) == Preorder(f[..i]) + RowPreorder(f[i]) + Preorder(f[i + 1..])
  {
    var front := f[..i] + [f[i]];
    assert f == front + f[i + 1..];
    PreorderConcat(front, f[i + 1..]);
    PreorderConcat(f[..i], [f[i]]);
    assert [f[i]][1..] == [];
    assert Preorder([f[i]]) == RowPreorder(f[i]);
  }

  /** Where the row `p` starts in the depth-first order. */
  function Offset(f: seq<Row>, p: Path): nat
    requires ValidPath(f, p)
    decreases p
  {
    if |p| == 1 then |Preorder(f[..p[0]])|
    else |Preorder(f[..p[0]])| + 1 + Offset(f[p[0]].children, p[1..])
  }

  /** Where the subtree of `p` ends in the depth-first order (the end of the
      whole order for the top level). */
  function End(f: seq<Row>, p: Path): nat
    requires IsParent(f, p)
    decreases p
  {
    if p == [] then |Preorder(f)|
    else |Preorder(f[..p[0]])| + 1 + End(f[p[0]].children, p[1..])
  }

  /** A path into the forest without its first root, moved back to the whole
      forest, starts after that root's subtree. */
  lemma OffsetShift(f: seq<Row>, p: Path)
    requires f != [] && ValidPath(f[1..], p)
    ensures ValidPath(f, ShiftPath(p))
    ensures Offset(f, ShiftPath(p)) == |RowPreorder(f[0])| + Offset(f[1..], p)
  {
    var s := ShiftPath(p);
    assert s[0] == p[0] + 1 && s[1..] == p[1..];
    assert f[..p[0] + 1] == [f[0]] + f[1..][..p[0]];
    PreorderConcat([f[0]], f[1..][..p[0]]);
    assert [f[0]][1..] == [];
  }

  /** `k` is the first position of `x` in `s`. */
  predicate FirstAt<T(==)>(s: seq<T>, k: nat, x: T)
  {
    k < |s| && s[k] == x && x !in s[..k]
  }

  lemma FirstAtFront<T>(a: seq<T>, b: seq<T>, k: nat, x: T)
    requires FirstAt(a, k, x)
    ensures FirstAt(a + b, k, x)
  {
    assert (a + b)[..k] == a[..k];
  }

  lemma FirstAtBack<T>(a: seq<T>, b: seq<T>, k: nat, x: T)
    requires x !in a && FirstAt(b, k, x)
    ensures FirstAt(a + b, |a| + k, x)
  {
    assert (a + b)[..|a| + k] == a + b[..k];
  }

  lemma {:induction false} FirstUnder(f: seq<Row>, w: Widget, p: Path)
    requires f != [] && f[0].widget != w && ValidPath(f[0].children, p)
    requires FirstAt(Preorder(f[0].children), Offset(f[0].children, p), w)
    ensures ValidPath(f, [0] + p) && FirstAt(Preorder(f), Offset(f, [0] + p), w)
  {
    var c, k := f[0].children, Offset(f[0].children, p);
    OffsetUnder(f, p);
    FirstAtBack([f[0].widget], Preorder(c), k, w);
    FirstAtFront(RowPreorder(f[0]), Preorder(f[1..]), 1 + k, w);
  }

  lemma {:induction false} FirstAfter(f: seq<Row>, w: Widget, p: Path)
    requires f != [] && w !in RowPreorder(f[0]) && ValidPath(f[1..], p)
    requires FirstAt(Preorder(f[1..]), Offset(f[1..], p), w)
    ensures ValidPath(f, ShiftPath(p)) && FirstAt(Preorder(f), Offset(f, ShiftPath(p)), w)
  {
    OffsetShift(f, p);
    FirstAtBack(RowPreorder(f[0]), Preorder(f[1..]), Offset(f[1..], p), w);
  }

  /**
   * The search finds the first row holding `w` in depth-first order: the row
   * it returns sits at the first position of `w` in that order. This decides
   * which row an add or remove notification touches if a widget had two.
   */
  lemma {:induction false} FindFirst(f: seq<Row>, w: Widget)
    ensures Find(f, w).Some? ==> FirstAt(Preorder(f), Offset(f, Find(f, w).value), w)
    decreases f
  {
    if f == [] {
    } else if f[0].widget == w {
      assert f[..0] == [];
      assert Preorder(f) == [w] + (Preorder(f[0].children) + Preorder(f[1..]));
    } else {
      match Find(f[0].children, w)
      case Some(p) =>
        FindFirst(f[0].children, w);
        FirstUnder(f, w, p);
      case None =>
        match Find(f[1..], w)
        case Some(p) =>
          FindFirst(f[1..], w);
          FirstAfter(f, w, p);
        case None =>
    }
  }

  /** Sequence algebra behind the two splice lemmas below. */
  lemma SpliceInside(before: seq<Widget>, w: Widget, pc: seq<Widget>, k: nat, mid: seq<Widget>, after: seq<Widget>)
    requires k <= |pc|
    ensures |before| + 1 + k <= |before + ([w] + pc) + after|
    ensures before + ([w] + (pc[..k] + mid + pc[k..])) + after
         == (before + ([w] + pc) + after)[..|before| + 1 + k] + mid
          + (before + ([w] + pc) + after)[|before| + 1 + k..]
  {
    var y := before + ([w] + pc) + after;
    var n := |before| + 1 + k;
    assert y[..n] == before + [w] + pc[..k];
    assert y[n..] == pc[k..] + after;
  }

  /**
   * Removing a row takes out exactly the row and its subtree: the depth-first
   * order of the store before is that of the store after with the removed
   * subtree spliced back in where the row was. No other row is lost, added
   * or reordered.
   */
  lemma {:induction false} RemoveAtPreorder(f: seq<Row>, p: Path)
    requires ValidPath(f, p)
    ensures Offset(f, p) <= |Preorder(RemoveAt(f, p))|
    ensures Preorder(f) ==
      Preorder(RemoveAt(f, p))[..Offset(f, p)] + RowPreorder(At(f, p)) + Preorder(RemoveAt(f, p))[Offset(f, p)..]
    decreases p
  {
    var i := p[0];
    PreorderAround(f, i);
    if |p| == 1 {
      PreorderConcat(f[..i], f[i + 1..]);
    } else {
      var c := f[i].children;
      var r := f[i].(children := RemoveAt(c, p[1..]));
      var g := f[i := r];
      RemoveAtPreorder(c, p[1..]);
      PreorderAround(g, i);
      assert g[..i] == f[..i] && g[i + 1..] == f[i + 1..];
      SpliceInside(Preorder(f[..i]), f[i].widget, Preorder(r.children), Offset(c, p[1..]),
                   RowPreorder(At(c, p[1..])), Preorder(f[i + 1..]));
    }
  }

  /** Appending rows under `p` makes them its last children and keeps `p`. */
  lemma {:induction false} AppendAtChildren(f: seq<Row>, p: Path, rs: seq<Row>)
    requires IsParent(f, p)
    ensures IsParent(AppendAt(f, p, rs), p)
    ensures ChildrenAt(AppendAt(f, p, rs), p) == ChildrenAt(f, p) + rs
    decreases p
  {
    if |p| > 1 {
      AppendAtChildren(f[p[0]].children, p[1..], rs);
    }
  }

  /**
   * Appending rows under `p` inserts exactly their subtrees, right after the
   * subtree of `p`, into the depth-first order; no other row changes.
   */
  lemma {:induction false} AppendAtPreorder(f: seq<Row>, p: Path, rs: seq<Row>)
    requires IsParent(f, p)
    ensures End(f, p) <= |Preorder(f)|
    ensures Preorder(AppendAt(f, p, rs)) ==
      Preorder(f)[..End(f, p)] + Preorder(rs) + Preorder(f)[End(f, p)..]
    decreases p
  {
    if p == [] {
      PreorderConcat(f, rs);
    } else {
      var i := p[0];
      var c := f[i].children;
      var r := f[i].(children := AppendAt(c, p[1..], rs));
      var g := f[i := r];
      AppendAtPreorder(c, p[1..], rs);
      PreorderAround(f, i);
      PreorderAround(g, i);
      assert g[..i] == f[..i] && g[i + 1..] == f[i + 1..];
      SpliceInside(Preorder(f[..i]), f[i].widget, Preorder(c), End(c, p[1..]),
                   Preorder(rs), Preorder(f[i + 1..]));
    }
  }

  /** `r` names a row strictly inside the subtree of `q` (any row for the
      top level). */
  predicate Below(q: Path, r: Path)
  {
    |q| < |r| && r[..|q|] == q
  }

  /**
   * Outside the subtree of `q`, `g` has a row exactly where `f` has one, and
   * that row holds the same widget with the same selection flag: the rows
   * keep their places, parents and flags.
   */
  ghost predicate SameOutside(f: seq<Row>, g: seq<Row>, q: Path)
  {
    forall r :: !Below(q, r) ==>
      (ValidPath(f, r) <==> ValidPath(g, r)) &&
      (ValidPath(f, r) ==> At(g, r).widget == At(f, r).widget && At(g, r).selected == At(f, r).selected)
  }

  lemma BelowTail(q: Path, r: Path)
    requires q != [] && r != [] && q[0] == r[0] && Below(q[1..], r[1..])
    ensures Below(q, r)
  {
    assert r[..|q|] == [r[0]] + r[1..][..|q[1..]|];
    assert q == [q[0]] + q[1..];
  }

  lemma {:induction false} RemoveAtFrameAt(f: seq<Row>, p: Path, r: Path)
    requires ValidPath(f, p) && !Below(p[..|p| - 1], r)
    ensures ValidPath(f, r) <==> ValidPath(RemoveAt(f, p), r)
    ensures ValidPath(f, r) ==>
      At(RemoveAt(f, p), r).widget == At(f, r).widget && At(RemoveAt(f, p), r).selected == At(f, r).selected
    decreases p
  {
    if |p| == 1 {
      assert r == [];
    } else if |r| > 1 && r[0] == p[0] {
      var q := p[..|p| - 1];
      var q' := p[1..][..|p[1..]| - 1];
      assert q[0] == p[0] && q[1..] == q';
      if Below(q', r[1..]) {
        BelowTail(q, r);
      }
      RemoveAtFrameAt(f[p[0]].children, p[1..], r[1..]);
    }
  }

  /**
   * Removing the row `p` changes nothing outside the children of its parent:
   * every other row keeps its place, its widget and its selection flag.
   */
  lemma RemoveAtKeeps(f: seq<Row>, p: Path)
    requires ValidPath(f, p)
    ensures SameOutside(f, RemoveAt(f, p), p[..|p| - 1])
  {
    forall r | !Below(p[..|p| - 1], r)
      ensures (ValidPath(f, r) <==> ValidPath(RemoveAt(f, p), r)) &&
        (ValidPath(f, r) ==> (At(RemoveAt(f, p), r).widget == At(f, r).widget &&
          At(RemoveAt(f, p), r).selected == At(f, r).selected))
    {
      RemoveAtFrameAt(f, p, r);
    }
  }

  /** Removing the row `p` takes exactly that child out of its parent's
      children, keeping the others in order. */
  lemma {:induction false} RemoveAtChildren(f: seq<Row>, p: Path)
    requires ValidPath(f, p)
    ensures var q, i := p[..|p| - 1], p[|p| - 1];
      IsParent(f, q) && IsParent(RemoveAt(f, p), q) && i < |ChildrenAt(f, q)| &&
      ChildrenAt(RemoveAt(f, p), q) == ChildrenAt(f, q)[..i] + ChildrenAt(f, q)[i + 1..]
    decreases p
  {
    if |p| > 1 {
      var q := p[..|p| - 1];
      var p' := p[1..];
      assert q[0] == p[0] && q[1..] == p'[..|p'| - 1];
      assert p[|p| - 1] == p'[|p'| - 1];
      RemoveAtChildren(f[p[0]].children, p');
    }
  }

  lemma {:induction false} AppendAtFrameAt(f: seq<Row>, p: Path, rs: seq<Row>, r: Path)
    requires IsParent(f, p) && !Below(p, r)
    ensures ValidPath(f, r) <==> ValidPath(AppendAt(f, p, rs), r)
    ensures ValidPath(f, r) ==>
      At(AppendAt(f, p, rs), r).widget == At(f, r).widget && At(AppendAt(f, p, rs), r).selected == At(f, r).selected
    decreases p
  {
    if p == [] {
      assert r == [];
    } else if |r| > 1 && r[0] == p[0] {
      if Below(p[1..], r[1..]) {
        BelowTail(p, r);
      }
      AppendAtFrameAt(f[p[0]].children, p[1..], rs, r[1..]);
    }
  }

  /**
   * Appending rows under `p` changes nothing outside the subtree of `p`:
   * every other row keeps its place, its widget and its selection flag.
   */
  lemma AppendAtKeeps(f: seq<Row>, p: Path, rs: seq<Row>)
    requires IsParent(f, p)
    ensures SameOutside(f, AppendAt(f, p, rs), p)
  {
    forall r | !Below(p, r)
      ensures (ValidPath(f, r) <==> ValidPath(AppendAt(f, p, rs), r)) &&
        (ValidPath(f, r) ==> (At(AppendAt(f, p, rs), r).widget == At(f, r).widget &&
          At(AppendAt(f, p, rs), r).selected == At(f, r).selected))
    {
      AppendAtFrameAt(f, p, rs, r);
    }
  }

  /** Appending no rows changes nothing. */
  lemma {:induction false} AppendAtNothing(f: seq<Row>, p: Path)
    requires IsParent(f, p)
    ensures AppendAt(f, p, []) == f
    decreases p
  {
    if p == [] {
      assert f + [] == f;
    } else {
      AppendAtNothing(f[p[0]].children, p[1..]);
    }
  }

  /** Appending twice under the same row is appending both lots at once. */
  lemma {:induction false} AppendAtTwice(f: seq<Row>, p: Path, a: seq<Row>, b: seq<Row>)
    requires IsParent(f, p)
    ensures IsParent(AppendAt(f, p, a), p)
    ensures AppendAt(AppendAt(f, p, a), p, b) == AppendAt(f, p, a + b)
    decreases p
  {
    AppendAtChildren(f, p, a);
    if p == [] {
      assert f + a + b == f + (a + b);
    } else {
      AppendAtTwice(f[p[0]].children, p[1..], a, b);
    }
  }

  /** The `j`-th child of `p` is named by `p + [j]`. */
  lemma {:induction false} ChildPath(f: seq<Row>, p: Path, j: nat)
    requires IsParent(f, p)
    requires j < |ChildrenAt(f, p)|
    ensures ValidPath(f, p + [j])
    ensures At(f, p + [j]) == ChildrenAt(f, p)[j]
    decreases p
  {
    if p != [] {
      assert (p + [j])[0] == p[0] && (p + [j])[1..] == p[1..] + [j];
      if |p| > 1 {
        ChildPath(f[p[0]].children, p[1..], j);
      }
    }
  }

  /**
   * Appending under the last of a lot of rows just appended: the same as
   * having appended that row with the new children in the first place.
   */
  lemma {:induction false} AppendUnderLast(f: seq<Row>, p: Path, b: seq<Row>, r: Row, cs: seq<Row>)
    requires IsParent(f, p)
    ensures ValidPath(AppendAt(f, p, b + [r]), p + [|ChildrenAt(f, p)| + |b|])
    ensures AppendAt(AppendAt(f, p, b + [r]), p + [|ChildrenAt(f, p)| + |b|], cs)
         == AppendAt(f, p, b + [r.(children := r.children + cs)])
    decreases p
  {
    var rs := b + [r];
    var j := |ChildrenAt(f, p)| + |b|;
    AppendAtChildren(f, p, rs);
    ChildPath(AppendAt(f, p, rs), p, j);
    if p == [] {
      assert (f + rs)[j := r.(children := r.children + cs)] == f + (b + [r.(children := r.children + cs)]);
    } else {
      assert (p + [j])[0] == p[0] && (p + [j])[1..] == p[1..] + [j];
      AppendUnderLast(f[p[0]].children, p[1..], b, r, cs);
    }
  }

  /** A path into the first root's children, seen from the whole forest. */
  lemma UnderFirst(f: seq<Row>, q: Path)
    requires |f| > 0 && ValidPath(f[0].children, q)
    ensures ValidPath(f, [0] + q) && At(f, [0] + q) == At(f[0].children, q)
  {
    assert ([0] + q)[1..] == q;
  }

  /** A path into the forest without its first root, seen from the whole forest. */
  lemma AfterFirst(f: seq<Row>, q: Path)
    requires |f| > 0 && ValidPath(f[1..], q)
    ensures ValidPath(f, ShiftPath(q)) && At(f, ShiftPath(q)) == At(f[1..], q)
  {
    assert ShiftPath(q)[1..] == q[1..];
  }

  /** `PreorderPaths` lists, in order, the path of each widget of `Preorder`. */
  lemma {:induction false} PreorderPathsSound(f: seq<Row>)
    ensures |PreorderPaths(f)| == |Preorder(f)|
    ensures forall k :: 0 <= k < |PreorderPaths(f)| ==>
      ValidPath(f, PreorderPaths(f)[k]) && At(f, PreorderPaths(f)[k]).widget == Preorder(f)[k]
    decreases f
  {
    if f != [] {
      var c := f[0].children;
      PreorderPathsSound(c);
      PreorderPathsSound(f[1..]);
      var under := Prefixed(0, PreorderPaths(c));
      var after := Shifted(PreorderPaths(f[1..]));
      var front := [f[0].widget] + Preorder(c);
      assert PreorderPaths(f) == ([[0]] + under) + after;
      assert Preorder(f) == front + Preorder(f[1..]);
      var n := |under|;
      forall k | 0 <= k < |PreorderPaths(f)|
        ensures ValidPath(f, PreorderPaths(f)[k]) && At(f, PreorderPaths(f)[k]).widget == Preorder(f)[k]
      {
        if k == 0 {
        } else if k <= n {
          IndexSecond([[0]], under, k - 1);
          IndexFirst([[0]] + under, after, k);
          IndexSecond([f[0].widget], Preorder(c), k - 1);
          IndexFirst(front, Preorder(f[1..]), k);
          UnderFirst(f, PreorderPaths(c)[k - 1]);
        } else {
          IndexSecond([[0]] + under, after, k - 1 - n);
          IndexSecond(front, Preorder(f[1..]), k - 1 - n);
          AfterFirst(f, PreorderPaths(f[1..])[k - 1 - n]);
        }
      }
    }
  }

  /** Where the `k`-th visited path of a non-empty forest comes from: the
      first root, a row under it, or a row of the remaining roots. */
  lemma {:induction false} PathAt(f: seq<Row>, k: nat)
    requires f != [] && k < |PreorderPaths(f)|
    ensures k == 0 ==> PreorderPaths(f)[k] == [0]
    ensures 0 < k <= |PreorderPaths(f[0].children)| ==>
      PreorderPaths(f)[k] == [0] + PreorderPaths(f[0].children)[k - 1]
    ensures |PreorderPaths(f[0].children)| < k ==>
      PreorderPaths(f)[k] == ShiftPath(PreorderPaths(f[1..])[k - 1 - |PreorderPaths(f[0].children)|])
  {
    var under := Prefixed(0, PreorderPaths(f[0].children));
    var after := Shifted(PreorderPaths(f[1..]));
    var n := |under|;
    assert PreorderPaths(f) == ([[0]] + under) + after;
    if 0 < k <= n {
      IndexSecond([[0]], under, k - 1);
      IndexFirst([[0]] + under, after, k);
    } else if n < k {
      IndexSecond([[0]] + under, after, k - 1 - n);
    }
  }

  /** A path into the first root's subtree starts right after that root. */
  lemma {:induction false} OffsetUnder(f: seq<Row>, p: Path)
    requires f != [] && ValidPath(f[0].children, p)
    ensures ValidPath(f, [0] + p) && Offset(f, [0] + p) == 1 + Offset(f[0].children, p)
  {
    var q := [0] + p;
    assert q[0] == 0 && q[1..] == p;
    assert f[..0] == [];
  }

  /** The `k`-th visited path names the row at position `k` of the
      depth-first order. */
  lemma {:induction false} PreorderPathsOffset(f: seq<Row>)
    ensures forall k :: 0 <= k < |PreorderPaths(f)| ==>
      ValidPath(f, PreorderPaths(f)[k]) && Offset(f, PreorderPaths(f)[k]) == k
    decreases f
  {
    if f != [] {
      var c := f[0].children;
      var pc, pr := PreorderPaths(c), PreorderPaths(f[1..]);
      PreorderPathsOffset(c);
      PreorderPathsOffset(f[1..]);
      PreorderPathsSound(c);
      var n := |pc|;
      assert |PreorderPaths(f)| == 1 + n + |pr|;
      assert |RowPreorder(f[0])| == 1 + n;
      forall k | 0 <= k < |PreorderPaths(f)|
        ensures ValidPath(f, PreorderPaths(f)[k]) && Offset(f, PreorderPaths(f)[k]) == k
      {
        PathAt(f, k);
        if k == 0 {
          assert f[..0] == [];
        } else if k <= n {
          OffsetUnder(f, pc[k - 1]);
        } else {
          OffsetShift(f, pr[k - 1 - n]);
        }
      }
    }
  }

  /** The walk visits each row once: no path is visited twice. */
  lemma PreorderPathsDistinct(f: seq<Row>)
    ensures forall i, j :: 0 <= i < j < |PreorderPaths(f)| ==> PreorderPaths(f)[i] != PreorderPaths(f)[j]
  {
    PreorderPathsOffset(f);
  }

  /** Indexing into the first part of a concatenation. */
  lemma IndexFirst<T>(a: seq<T>, b: seq<T>, k: nat)
    requires k < |a|
    ensures (a + b)[k] == a[k]
  {
  }

  /** Indexing into the second part of a concatenation. */
  lemma IndexSecond<T>(a: seq<T>, b: seq<T>, k: nat)
    requires k < |b|
    ensures |a| + k < |a + b| && (a + b)[|a| + k] == b[k]
  {
  }

  /** Every path the walk visits names a row. */
  lemma PreorderPathsValid(f: seq<Row>)
    ensures forall p :: p in PreorderPaths(f) ==> ValidPath(f, p)
  {
    PreorderPathsSound(f);
  }

  /** Splitting a path into its first index and the rest. */
  lemma PathSplit(p: Path)
    requires p != []
    ensures [p[0]] + p[1..] == p
    ensures p[0] > 0 ==> ShiftPath([p[0] - 1] + p[1..]) == p
  {
    if p[0] > 0 {
      var q := [p[0] - 1] + p[1..];
      assert q[1..] == p[1..];
    }
  }

  /** A visit of the first root's subtree is a visit of the forest. */
  lemma VisitUnder(f: seq<Row>, r: Path)
    requires f != [] && r in PreorderPaths(f[0].children)
    ensures [0] + r in PreorderPaths(f)
  {
    var under := Prefixed(0, PreorderPaths(f[0].children));
    var after := Shifted(PreorderPaths(f[1..]));
    var k :| 0 <= k < |PreorderPaths(f[0].children)| && PreorderPaths(f[0].children)[k] == r;
    IndexSecond([[0]], under, k);
    IndexFirst([[0]] + under, after, 1 + k);
    assert PreorderPaths(f)[1 + k] == under[k];
  }

  /** A visit of the forest without its first root is a visit of the forest. */
  lemma VisitAfter(f: seq<Row>, q: Path)
    requires f != [] && q in PreorderPaths(f[1..])
    ensures ShiftPath(q) in PreorderPaths(f)
  {
    var under := Prefixed(0, PreorderPaths(f[0].children));
    var after := Shifted(PreorderPaths(f[1..]));
    var k :| 0 <= k < |PreorderPaths(f[1..])| && PreorderPaths(f[1..])[k] == q;
    IndexSecond([[0]] + under, after, k);
    assert PreorderPaths(f)[1 + |under| + k] == after[k];
  }

  /** Every row of the forest is visited by `PreorderPaths`. */
  lemma {:induction false} PreorderPathsComplete(f: seq<Row>, p: Path)
    requires ValidPath(f, p)
    ensures p in PreorderPaths(f)
    decreases f
  {
    PathSplit(p);
    if p[0] == 0 {
      if |p| == 1 {
        assert p == [0] && PreorderPaths(f)[0] == [0];
      } else {
        PreorderPathsComplete(f[0].children, p[1..]);
        VisitUnder(f, p[1..]);
      }
    } else {
      var q := [p[0] - 1] + p[1..];
      assert q[1..] == p[1..] && f[1..][q[0]] == f[p[0]];
      PreorderPathsComplete(f[1..], q);
      VisitAfter(f, q);
    }
  }

  /** Two stores with the same rows holding the same widgets; only the
      selection flags may differ. */
  ghost predicate SameShape(f: seq<Row>, g: seq<Row>)
    decreases f
  {
    |f| == |g| &&
    forall i :: 0 <= i < |f| ==> f[i].widget == g[i].widget && SameShape(f[i].children, g[i].children)
  }

  lemma {:induction false} SameShapeTrans(f: seq<Row>, g: seq<Row>, h: seq<Row>)
    requires SameShape(f, g) && SameShape(g, h)
    ensures SameShape(f, h)
    decreases f
  {
    forall i | 0 <= i < |f| ensures SameShape(f[i].children, h[i].children) {
      SameShapeTrans(f[i].children, g[i].children, h[i].children);
    }
  }

  /** Stores of the same shape have the same paths, holding the same widgets. */
  lemma {:induction false} SameShapeAt(f: seq<Row>, g: seq<Row>, p: Path)
    requires SameShape(f, g)
    ensures ValidPath(f, p) <==> ValidPath(g, p)
    ensures ValidPath(f, p) ==> At(f, p).widget == At(g, p).widget
    decreases p
  {
    if |p| > 1 && p[0] < |f| {
      SameShapeAt(f[p[0]].children, g[p[0]].children, p[1..]);
    }
  }

  /** Stores of the same shape list the same widgets and paths in the same
      order, and a search by widget finds the same row in both. */
  lemma {:induction false} SameShapeOrder(f: seq<Row>, g: seq<Row>)
    requires SameShape(f, g)
    ensures Preorder(f) == Preorder(g)
    ensures PreorderPaths(f) == PreorderPaths(g)
    ensures forall w :: Find(f, w) == Find(g, w)
    decreases f
  {
    if f != [] {
      assert SameShape(f[1..], g[1..]) by {
        forall i | 0 <= i < |f[1..]| ensures f[1..][i].widget == g[1..][i].widget && SameShape(f[1..][i].children, g[1..][i].children) {
          assert f[1..][i] == f[i + 1] && g[1..][i] == g[i + 1];
        }
      }
      SameShapeOrder(f[0].children, g[0].children);
      SameShapeOrder(f[1..], g[1..]);
    }
  }

  /** gtk_tree_selection_unselect_all on the store's rows. */
  function Unselected(f: seq<Row>): seq<Row>
    decreases f
  {
    if f == [] then []
    else [f[0].(selected := false, children := Unselected(f[0].children))] + Unselected(f[1..])
  }

  /** Unselecting everything keeps the shape and leaves no row selected. */
  lemma {:induction false} UnselectAllSpec(f: seq<Row>)
    ensures SameShape(f, Unselected(f))
    ensures forall p :: ValidPath(Unselected(f), p) ==> !At(Unselected(f), p).selected
    decreases f
  {
    if f != [] {
      var g := Unselected(f);
      UnselectAllSpec(f[0].children);
      UnselectAllSpec(f[1..]);
      assert g[1..] == Unselected(f[1..]);
      forall i | 0 <= i < |f| ensures f[i].widget == g[i].widget && SameShape(f[i].children, g[i].children) {
        if i > 0 {
          assert f[i] == f[1..][i - 1] && g[i] == g[1..][i - 1];
        }
      }
      forall p | ValidPath(g, p) ensures !At(g, p).selected {
        if p[0] > 0 {
          var q := [p[0] - 1] + p[1..];
          assert q[1..] == p[1..];
          assert ValidPath(g[1..], q);
          assert ShiftPath(q) == p;
          AfterFirst(g, q);
        } else if |p| > 1 {
          UnderFirst(g, p[1..]);
          assert [0] + p[1..] == p;
        }
      }
    }
  }

  /** gtk_tree_selection_select_iter: the row `p` becomes selected. */
  function SelectAt(f: seq<Row>, p: Path): seq<Row>
    requires ValidPath(f, p)
    decreases p
  {
    if |p| == 1 then f[p[0] := f[p[0]].(selected := true)]
    else f[p[0] := f[p[0]].(children := SelectAt(f[p[0]].children, p[1..]))]
  }

  /** Selecting a row keeps the shape and selects that row and no other. */
  lemma {:induction false} SelectAtShape(f: seq<Row>, p: Path)
    requires ValidPath(f, p)
    ensures SameShape(f, SelectAt(f, p))
    decreases p
  {
    var g := SelectAt(f, p);
    if |p| > 1 {
      SelectAtShape(f[p[0]].children, p[1..]);
    }
    forall i | 0 <= i < |f| ensures SameShape(f[i].children, g[i].children) {
      if i != p[0] || |p| == 1 {
        SameShapeRefl(f[i].children);
      }
    }
  }

  lemma {:induction false} SameShapeRefl(f: seq<Row>)
    ensures SameShape(f, f)
    decreases f
  {
    forall i | 0 <= i < |f| ensures SameShape(f[i].children, f[i].children) {
      SameShapeRefl(f[i].children);
    }
  }

  lemma {:induction false} SelectAtFlag(f: seq<Row>, p: Path, q: Path)
    requires ValidPath(f, p) && ValidPath(f, q)
    ensures ValidPath(SelectAt(f, p), q)
    ensures At(SelectAt(f, p), q).selected == (q == p || At(f, q).selected)
    decreases p
  {
    SelectAtShape(f, p);
    SameShapeAt(f, SelectAt(f, p), q);
    if q[0] == p[0] && |q| > 1 && |p| > 1 {
      SelectAtFlag(f[p[0]].children, p[1..], q[1..]);
      assert q == p <==> q[1..] == p[1..] by {
        if q[1..] == p[1..] {
          assert q == [q[0]] + q[1..] && p == [p[0]] + p[1..];
        }
      }
    }
  }

  /**
   * The GtkTreeStore itself: a mutable forest that the inspector clears,
   * appends rows to and removes rows from.
   */
  class Store {
    var forest: seq<Row>

    constructor ()
      ensures forest == []
    {
      forest := [];
    }

    /** gtk_tree_store_clear. */
    method Clear()
      modifies this
      ensures forest == []
    {
      forest := [];
    }

    /**
     * gtk_tree_store_append followed by gtk_tree_store_set of the widget
     * column: a new last child of `parent` holding `w`, whose iter is returned.
     */
    method Append(parent: Path, w: Widget) returns (iter: Path)
      requires IsParent(forest, parent)
      modifies this
      ensures forest == AppendAt(old(forest), parent, [Row(w, false, [])])
      ensures iter == parent + [|ChildrenAt(old(forest), parent)|]
      ensures ValidPath(forest, iter) && At(forest, iter) == Row(w, false, [])
    {
      var r := Row(w, false, []);
      iter := parent + [|ChildrenAt(forest, parent)|];
      AppendAtChildren(forest, parent, [r]);
      ChildPath(AppendAt(forest, parent, [r]), parent, |ChildrenAt(forest, parent)|);
      forest := AppendAt(forest, parent, [r]);
    }

    /** gtk_tree_store_remove: the row and its whole subtree go. */
    method Remove(iter: Path)
      requires ValidPath(forest, iter)
      modifies this
      ensures forest == RemoveAt(old(forest), iter)
    {
      forest := RemoveAt(forest, iter);
    }

    /** gtk_tree_selection_unselect_all on the view over this store. */
    method UnselectAll()
      modifies this
      ensures forest == Unselected(old(forest))
    {
      forest := Unselected(forest);
    }

    /** gtk_tree_selection_select_iter on the view over this store. */
    method Select(iter: Path)
      requires ValidPath(forest, iter)
      modifies this
      ensures forest == SelectAt(old(forest), iter)
    {
      forest := SelectAt(forest, iter);
    }
  }
}
