/**
 * The split-view layout (`split_view`, `remove_views`, `unsplit_view` and
 * `get_top_pane` in src/textadept_gtk.c): Scintilla views are the leaves of a
 * binary tree of GtkPaned widgets.
 */
module SplitViews {
  import opened Wrappers

  /** A Scintilla view widget. */
  type ViewId = nat

  /** A view, or a pane holding two children (child1 left/top, child2 right/bottom). */
  datatype Tree = View(id: ViewId) | Pane(vertical: bool, child1: Tree, child2: Tree)

  /** What a successful `unsplit_view` leaves: the new tree and the views it deleted, in order. */
  datatype Unsplit = Unsplit(tree: Tree, deleted: seq<ViewId>)

  function ViewSet(t: Tree): set<ViewId> {
    match t
    case View(v) => {v}
    case Pane(_, c1, c2) => ViewSet(c1) + ViewSet(c2)
  }

  function LeafCount(t: Tree): (n: nat)
    ensures n >= 1
  {
    match t
    case View(_) => 1
    case Pane(_, c1, c2) => LeafCount(c1) + LeafCount(c2)
  }

  /** A widget sits in one place only: no view appears twice. */
  predicate Distinct(t: Tree) {
    match t
    case View(_) => true
    case Pane(_, c1, c2) => Distinct(c1) && Distinct(c2) && ViewSet(c1) !! ViewSet(c2)
  }

  /** `remove_views`: the views passed to `delete_view`, child1's side before child2's. */
  function RemoveViews(t: Tree): (deleted: seq<ViewId>)
    ensures |deleted| == LeafCount(t)
    ensures forall v :: v in deleted <==> v in ViewSet(t)
  {
    match t
    case View(v) => [v]
    case Pane(_, c1, c2) => RemoveViews(c1) + RemoveViews(c2)
  }

  /** In a tree without repeated views, `remove_views` deletes each view exactly once. */
  lemma {:induction false} RemoveViewsOnce(t: Tree)
    requires Distinct(t)
    ensures forall i, j :: 0 <= i < j < |RemoveViews(t)| ==> RemoveViews(t)[i] != RemoveViews(t)[j]
  {
    match t
    case View(_) =>
    case Pane(_, c1, c2) =>
      RemoveViewsOnce(c1);
      RemoveViewsOnce(c2);
      var d1, d2 := RemoveViews(c1), RemoveViews(c2);
      forall i, j | 0 <= i < j < |d1 + d2| ensures (d1 + d2)[i] != (d1 + d2)[j] {
        if i < |d1| && |d1| <= j {
          assert (d1 + d2)[i] in ViewSet(c1);
          assert (d1 + d2)[j] == d2[j - |d1|];
        }
      }
  }

  /** `t` with the subtree `target`, wherever it occurs, put back as `replacement`. */
  function Replace(t: Tree, target: Tree, replacement: Tree): Tree {
    if t == target then replacement
    else match t
      case View(_) => t
      case Pane(d, c1, c2) => Pane(d, Replace(c1, target, replacement), Replace(c2, target, replacement))
  }

  /** A subtree that does not hold a view of `target` has no occurrence of `target` to replace. */
  lemma {:induction false} ReplaceAbsent(t: Tree, target: Tree, replacement: Tree, view: ViewId)
    requires view in ViewSet(target) && view !in ViewSet(t)
    ensures Replace(t, target, replacement) == t
  {
    match t
    case View(_) =>
    case Pane(_, c1, c2) =>
      ReplaceAbsent(c1, target, replacement, view);
      ReplaceAbsent(c2, target, replacement, view);
  }

  /**
   * `split_view`: the leaf `view` becomes, in the same place, a pane with
   * `view` as child1 and `view2` as child2; nothing else changes.
   */
  function Split(t: Tree, view: ViewId, view2: ViewId, vertical: bool): (r: Tree)
    ensures r == Replace(t, View(view), Pane(vertical, View(view), View(view2)))
    ensures ViewSet(r) == if view in ViewSet(t) then ViewSet(t) + {view2} else ViewSet(t)
  {
    match t
    case View(v) => if v == view then Pane(vertical, View(view), View(view2)) else t
    case Pane(d, c1, c2) => Pane(d, Split(c1, view, view2, vertical), Split(c2, view, view2, vertical))
  }

  /** Splitting with a new view keeps the views distinct and adds exactly one leaf. */
  lemma {:induction false} SplitKeepsDistinct(t: Tree, view: ViewId, view2: ViewId, vertical: bool)
    requires Distinct(t) && view in ViewSet(t) && view2 !in ViewSet(t)
    ensures Distinct(Split(t, view, view2, vertical))
    ensures LeafCount(Split(t, view, view2, vertical)) == LeafCount(t) + 1
  {
    match t
    case View(_) =>
    case Pane(d, c1, c2) =>
      if view in ViewSet(c1) {
        SplitKeepsDistinct(c1, view, view2, vertical);
        SplitAbsent(c2, view, view2, vertical);
      } else {
        SplitKeepsDistinct(c2, view, view2, vertical);
        SplitAbsent(c1, view, view2, vertical);
      }
  }

  /** Splitting a view that is not in a subtree leaves the subtree alone. */
  lemma {:induction false} SplitAbsent(t: Tree, view: ViewId, view2: ViewId, vertical: bool)
    requires view !in ViewSet(t)
    ensures Split(t, view, view2, vertical) == t
  {
    match t
    case View(_) =>
    case Pane(_, c1, c2) =>
      SplitAbsent(c1, view, view2, vertical);
      SplitAbsent(c2, view, view2, vertical);
  }

  /**
   * `unsplit_view`: None when the view's parent is not a pane; otherwise the
   * sibling subtree's views are deleted and the view takes the pane's slot.
   */
  function UnsplitView(t: Tree, view: ViewId): Option<Unsplit>
    requires view in ViewSet(t)
  {
    match t
    case View(_) => None
    case Pane(d, c1, c2) =>
      if c1 == View(view) then Some(Unsplit(View(view), RemoveViews(c2)))
      else if c2 == View(view) then Some(Unsplit(View(view), RemoveViews(c1)))
      else if view in ViewSet(c1) then
        match UnsplitView(c1, view)
        case None => None
        case Some(u) => Some(Unsplit(Pane(d, u.tree, c2), u.deleted))
      else
        match UnsplitView(c2, view)
        case None => None
        case Some(u) => Some(Unsplit(Pane(d, c1, u.tree), u.deleted))
  }

  /**
   * `unsplit_view` fails exactly when the view is alone in the window; when it
   * succeeds the view stays, and every other view is either kept or deleted.
   */
  lemma {:induction false} UnsplitSpec(t: Tree, view: ViewId)
    requires Distinct(t) && view in ViewSet(t)
    ensures UnsplitView(t, view).None? <==> t == View(view)
    ensures UnsplitView(t, view).Some? ==>
      var u := UnsplitView(t, view).value;
      && view in ViewSet(u.tree) && view !in u.deleted
      && Distinct(u.tree)
      && (forall v :: v in ViewSet(t) <==> v in ViewSet(u.tree) || v in u.deleted)
      && (forall v :: v in u.deleted ==> v !in ViewSet(u.tree))
      && LeafCount(t) == LeafCount(u.tree) + |u.deleted|
  {
    match t
    case View(_) =>
    case Pane(d, c1, c2) =>
      if c1 == View(view) || c2 == View(view) {
      } else if view in ViewSet(c1) {
        UnsplitSpec(c1, view);
      } else {
        UnsplitSpec(c2, view);
      }
  }

  /**
   * The pane holding the leaf `view` (`gtk_widget_get_parent(view)` in
   * `unsplit_view`), when the view is not the whole layout.
   */
  function Parent(t: Tree, view: ViewId): (pane: Tree)
    requires view in ViewSet(t) && t != View(view)
    ensures pane.Pane? && (pane.child1 == View(view) || pane.child2 == View(view))
    ensures LeafCount(pane) <= LeafCount(t)
  {
    var Pane(_, c1, c2) := t;
    if c1 == View(view) || c2 == View(view) then t
    else if view in ViewSet(c1) then Parent(c1, view)
    else Parent(c2, view)
  }

  /** `Parent` is the widget just above the leaf on the path from the top. */
  lemma {:induction false} ParentOnPath(t: Tree, view: ViewId)
    requires Distinct(t) && view in ViewSet(t) && t != View(view)
    ensures |PathTo(t, view)| >= 2 && PathTo(t, view)[|PathTo(t, view)| - 2] == Parent(t, view)
  {
    var Pane(_, c1, c2) := t;
    if c1 == View(view) {
      assert PathTo(t, view) == [t, View(view)];
    } else if c2 == View(view) {
      assert PathTo(t, view) == [t, View(view)];
    } else if view in ViewSet(c1) {
      ParentOnPath(c1, view);
      assert PathTo(t, view) == [t] + PathTo(c1, view);
    } else {
      ParentOnPath(c2, view);
      assert PathTo(t, view) == [t] + PathTo(c2, view);
    }
  }

  /** The child of `pane` that `unsplit_view` removes along with its views: child1 unless that is the view. */
  function Other(pane: Tree, view: ViewId): Tree
    requires pane.Pane?
  {
    if pane.child1 != View(view) then pane.child1 else pane.child2
  }

  /**
   * `unsplit_view` on a view that is not alone: exactly the views of the other
   * child of its parent pane are deleted, child1's side first, and the view
   * takes the pane's place; the rest of the layout is untouched.
   */
  lemma {:induction false} UnsplitReplacesParent(t: Tree, view: ViewId)
    requires Distinct(t) && view in ViewSet(t) && t != View(view)
    ensures UnsplitView(t, view) ==
      Some(Unsplit(Replace(t, Parent(t, view), View(view)), RemoveViews(Other(Parent(t, view), view))))
  {
    var Pane(_, c1, c2) := t;
    if c1 == View(view) || c2 == View(view) {
      assert view !in ViewSet(c1) || view !in ViewSet(c2);
    } else if view in ViewSet(c1) {
      UnsplitReplacesParent(c1, view);
      ReplaceAbsent(c2, Parent(c1, view), View(view), view);
    } else {
      UnsplitReplacesParent(c2, view);
      ReplaceAbsent(c1, Parent(c2, view), View(view), view);
    }
  }

  /** Unsplitting a view right after splitting it restores the layout and deletes the new view. */
  lemma {:induction false} UnsplitAfterSplit(t: Tree, view: ViewId, view2: ViewId, vertical: bool)
    requires Distinct(t) && view in ViewSet(t) && view2 !in ViewSet(t)
    ensures view in ViewSet(Split(t, view, view2, vertical))
    ensures UnsplitView(Split(t, view, view2, vertical), view) == Some(Unsplit(t, [view2]))
  {
    match t
    case View(_) =>
    case Pane(d, c1, c2) =>
      var s1, s2 := Split(c1, view, view2, vertical), Split(c2, view, view2, vertical);
      if view in ViewSet(c1) {
        UnsplitAfterSplit(c1, view, view2, vertical);
        SplitAbsent(c2, view, view2, vertical);
        assert s1 != View(view) by { SplitKeepsDistinct(c1, view, view2, vertical); }
        assert s2 != View(view);
      } else {
        UnsplitAfterSplit(c2, view, view2, vertical);
        SplitAbsent(c1, view, view2, vertical);
        assert s2 != View(view) by { SplitKeepsDistinct(c2, view, view2, vertical); }
        assert s1 != View(view);
      }
  }

  /**
   * The chain of widgets from the top of the layout down to the leaf `view`;
   * every widget above the leaf is a pane and the next one is its child.
   */
  function PathTo(t: Tree, view: ViewId): (p: seq<Tree>)
    requires view in ViewSet(t)
    ensures |p| >= 1 && p[0] == t && p[|p| - 1] == View(view)
    ensures forall k :: 0 <= k < |p| - 1 ==> p[k].Pane? && (p[k + 1] == p[k].child1 || p[k + 1] == p[k].child2)
  {
    match t
    case View(_) => [t]
    case Pane(_, c1, c2) => [t] + (if view in ViewSet(c1) then PathTo(c1, view) else PathTo(c2, view))
  }

  /** The window's split layout. */
  class Layout {
    var root: Tree
    /** The views handed to the `delete_view` callback so far. */
    ghost var deleted: seq<ViewId>

    ghost predicate Valid()
      reads this
    {
      Distinct(root)
    }

    constructor (first: ViewId)
      ensures Valid() && root == View(first) && deleted == []
    {
      root, deleted := View(first), [];
    }

    /** `split_view`: put `view` and the new `view2` side by side (or one above the other). */
    method SplitView(view: ViewId, view2: ViewId, vertical: bool)
      requires Valid() && view in ViewSet(root) && view2 !in ViewSet(root)
      modifies this
      ensures Valid()
      ensures root == Split(old(root), view, view2, vertical)
      ensures ViewSet(root) == old(ViewSet(root)) + {view2}
      ensures deleted == old(deleted)
    {
      SplitKeepsDistinct(root, view, view2, vertical);
      root := Split(root, view, view2, vertical);
    }

    /** `unsplit_view`: remove the sibling of `view`, deleting its views, and let `view` fill the pane's place. */
    method UnsplitViewIn(view: ViewId) returns (ok: bool)
      requires Valid() && view in ViewSet(root)
      modifies this
      ensures Valid() && view in ViewSet(root)
      ensures ok <==> old(root) != View(view)
      ensures ok ==> (UnsplitView(old(root), view).Some? &&
        root == UnsplitView(old(root), view).value.tree &&
        deleted == old(deleted) + UnsplitView(old(root), view).value.deleted)
      ensures !ok ==> root == old(root) && deleted == old(deleted)
    {
      UnsplitSpec(root, view);
      var r := UnsplitView(root, view);
      if r.None? {
        return false;
      }
      root := r.value.tree;
      deleted := deleted + r.value.deleted;
      ok := true;
    }

    /** `get_top_pane`: climb from the focused view while the parent is a pane. */
    method GetTopPane(focused: ViewId) returns (top: Tree)
      requires focused in ViewSet(root)
      ensures top == root
    {
      var path := PathTo(root, focused);
      var i := |path| - 1;
      while i > 0 && path[i - 1].Pane?
        invariant 0 <= i < |path|
        invariant forall k :: 0 <= k < i ==> path[k].Pane?
      {
        i := i - 1;
      }
      top := path[i];
    }
  }
}
