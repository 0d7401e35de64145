/**
 * The widget tree that the drag-and-drop handlers of
 * lib/etk/docking/docklayout.py walk: dock groups (tab strips), dock paneds
 * and dock frames. GTK's parent pointers become paths, so "the parent of a
 * widget" is "its path without the last step".
 */
module DockTree {
  import opened Options
  import opened Util
  import opened PyList
  import opened PanedItems

  /** A widget's address: the child index taken at each level, starting
      with the frame's place in the layout. */
  type Path = seq<nat>

  /** The containers of the dock tree. `px`, `py` are the position of the
      widget's window inside its parent's: `get_parent_info` adds them to
      the event coordinates when an event is handed to the parent.

      A `Group` shows dock items (opaque ids) as tabs: `tabAreas` are the
      tabs' hit areas, `current` the current tab's item, `dropTabIndex` the
      `_drop_tab_index` a drag motion leaves, `dragged` the items of the tabs
      in the group's own drag context and `draggedTabIndex` the
      `_dragged_tab_index` they came from. `highlighted` says whether the
      drop highlight is attached (`_expose_event_id` is set).

      A `Paned` has its `allocation`, the areas of its handles and the
      `_drop_handle_index` of the handle under the last drag motion. A
      `Frame` holds at most one child. */
  datatype Node =
    | Group(px: int, py: int, tabs: seq<nat>, tabAreas: seq<Rect>, current: Option<nat>,
            dropTabIndex: Option<nat>, dragged: seq<nat>, draggedTabIndex: Option<int>,
            highlighted: bool)
    | Paned(px: int, py: int, allocation: Rect, handleAreas: seq<Rect>, children: seq<Node>,
            dropHandleIndex: Option<nat>, highlighted: bool)
    | Frame(px: int, py: int, children: seq<Node>)

  /** A group or a paned: the widgets with drag handlers of their own. */
  predicate IsTarget(n: Node)
  {
    n.Group? || n.Paned?
  }

  function Kids(n: Node): seq<Node>
  {
    if n.Group? then [] else n.children
  }

  function WithKids(n: Node, ks: seq<Node>): Node
  {
    if n.Group? then n else n.(children := ks)
  }

  /** The node without its children: everything a handler reads or sets on
      the widget itself. */
  function Shell(n: Node): Node
  {
    WithKids(n, [])
  }

  predicate ValidIn(n: Node, q: Path)
    decreases |q|
  {
    q == [] || (q[0] < |Kids(n)| && ValidIn(Kids(n)[q[0]], q[1..]))
  }

  function At(n: Node, q: Path): Node
    requires ValidIn(n, q)
    decreases |q|
  {
    if q == [] then n else At(Kids(n)[q[0]], q[1..])
  }

  /** The tree with the node at `q` replaced by `m`. */
  function Put(n: Node, q: Path, m: Node): (r: Node)
    requires ValidIn(n, q)
    ensures ValidIn(r, q) && At(r, q) == m
    ensures q != [] ==> Shell(r) == Shell(n) && |Kids(r)| == |Kids(n)|
    decreases |q|
  {
    if q == [] then m
    else WithKids(n, Kids(n)[q[0] := Put(Kids(n)[q[0]], q[1..], m)])
  }

  /** A container letting go of its child `k`. A paned also loses a handle,
      as `_remove_item` does: handle `k`, or the one before it for the last
      child, and none once no child is left. */
  function Drop(n: Node, k: nat): (r: Node)
    requires k < |Kids(n)|
    ensures Kids(r) == RemoveAt(Kids(n), k)
    ensures r.Paned? == n.Paned? && r.Frame? == n.Frame?
    ensures n.Paned? && |n.handleAreas| + 1 == |n.children| ==>
      |r.handleAreas| + 1 == |r.children| || (r.children == [] && r.handleAreas == [])
  {
    if n.Paned? then
      var rest := RemoveAt(n.children, k);
      var hs := n.handleAreas;
      n.(children := rest,
         handleAreas := if rest != [] && 0 < |hs| && k <= |hs| then RemoveAt(hs, HandleToRemove(k, |hs|)) else hs)
    else WithKids(n, RemoveAt(Kids(n), k))
  }

  /** The tree after the widget at `q` is destroyed: its parent lets it go. */
  function CutAt(n: Node, q: Path): (r: Node)
    requires q != [] && ValidIn(n, q)
    decreases |q|
  {
    if |q| == 1 then Drop(n, q[0])
    else WithKids(n, Kids(n)[q[0] := CutAt(Kids(n)[q[0]], q[1..])])
  }

  lemma {:induction false} PrefixValid(n: Node, q: Path, k: nat)
    requires ValidIn(n, q) && k <= |q|
    ensures ValidIn(n, q[..k])
    decreases |q|
  {
    if k > 0 {
      PrefixValid(Kids(n)[q[0]], q[1..], k - 1);
      assert q[..k][1..] == q[1..][..k - 1];
    }
  }

  /** One step further down a valid path. */
  lemma {:induction false} AtStep(n: Node, q: Path, k: nat)
    requires ValidIn(n, q) && k < |q|
    ensures ValidIn(n, q[..k]) && ValidIn(n, q[..k + 1])
    ensures q[k] < |Kids(At(n, q[..k]))| && At(n, q[..k + 1]) == Kids(At(n, q[..k]))[q[k]]
    decreases |q|
  {
    PrefixValid(n, q, k);
    PrefixValid(n, q, k + 1);
    if k > 0 {
      AtStep(Kids(n)[q[0]], q[1..], k - 1);
      assert q[..k][1..] == q[1..][..k - 1];
      assert q[..k + 1][1..] == q[1..][..k];
    }
  }

  /** Destroying a widget leaves every ancestor in place: the parent has
      lost that child, the ones above only see a changed subtree. */
  lemma {:induction false} CutAncestors(n: Node, q: Path, k: nat)
    requires q != [] && ValidIn(n, q) && k < |q|
    ensures ValidIn(n, q[..k]) && ValidIn(CutAt(n, q), q[..k])
    ensures k < |q| - 1 ==>
      Shell(At(CutAt(n, q), q[..k])) == Shell(At(n, q[..k])) &&
      |Kids(At(CutAt(n, q), q[..k]))| == |Kids(At(n, q[..k]))|
    ensures k == |q| - 1 ==> q[k] < |Kids(At(n, q[..k]))| && At(CutAt(n, q), q[..k]) == Drop(At(n, q[..k]), q[k])
    decreases |q|
  {
    PrefixValid(n, q, k);
    if k == 0 {
      assert q[..0] == [];
    } else {
      var c := Kids(n)[q[0]];
      CutAncestors(c, q[1..], k - 1);
      PrefixTail(q, k);
    }
  }

  /** A child being replaced and then let go is the child let go. */
  lemma DropReplaced(n: Node, i: nat, v: Node)
    requires i < |Kids(n)|
    ensures Drop(WithKids(n, Kids(n)[i := v]), i) == Drop(n, i)
  {
    assert RemoveAt(Kids(n)[i := v], i) == RemoveAt(Kids(n), i);
  }

  /** Destroying a widget and then one of its ancestors is destroying the
      ancestor. */
  lemma {:induction false} CutTwice(n: Node, q: Path, k: nat)
    requires q != [] && ValidIn(n, q) && 0 < k < |q|
    ensures ValidIn(n, q[..k]) && ValidIn(CutAt(n, q), q[..k])
    ensures CutAt(CutAt(n, q), q[..k]) == CutAt(n, q[..k])
    decreases |q|
  {
    if k == 1 {
      CutAncestors(n, q, k);
      CutTwiceTop(n, q);
    } else {
      var c := Kids(n)[q[0]];
      CutTwice(c, q[1..], k - 1);
      CutTwiceStep(n, q, k);
    }
  }

  /** `CutTwice` for the ancestor one level below `n`. */
  lemma CutTwiceTop(n: Node, q: Path)
    requires 1 < |q| && ValidIn(n, q) && ValidIn(CutAt(n, q), q[..1])
    ensures CutAt(CutAt(n, q), q[..1]) == CutAt(n, q[..1])
  {
    var v := CutAt(Kids(n)[q[0]], q[1..]);
    assert CutAt(n, q) == WithKids(n, Kids(n)[q[0] := v]);
    assert q[..1] == [q[0]];
    DropReplaced(n, q[0], v);
  }

  /** The tail of a path's prefix is a prefix of its tail. */
  lemma PrefixTail(q: Path, k: nat)
    requires 0 < k <= |q|
    ensures q[..k][0] == q[0] && q[..k][1..] == q[1..][..k - 1]
  {
  }

  /** `CutTwice` one level further down, given it for the child on the path. */
  lemma CutTwiceStep(n: Node, q: Path, k: nat)
    requires 1 < k < |q| && ValidIn(n, q)
    requires var c := Kids(n)[q[0]];
      ValidIn(c, q[1..][..k - 1]) && ValidIn(CutAt(c, q[1..]), q[1..][..k - 1]) &&
      CutAt(CutAt(c, q[1..]), q[1..][..k - 1]) == CutAt(c, q[1..][..k - 1])
    ensures ValidIn(n, q[..k]) && ValidIn(CutAt(n, q), q[..k])
    ensures CutAt(CutAt(n, q), q[..k]) == CutAt(n, q[..k])
  {
    CutAncestors(n, q, k);
    var c := Kids(n)[q[0]];
    var v := CutAt(c, q[1..]);
    var p := q[1..][..k - 1];
    assert CutAt(n, q) == WithKids(n, Kids(n)[q[0] := v]);
    PrefixTail(q, k);
    assert Kids(n)[q[0] := v][q[0] := CutAt(v, p)] == Kids(n)[q[0] := CutAt(c, p)];
  }

  /** Putting back what is there changes nothing. */
  lemma {:induction false} PutSame(n: Node, q: Path)
    requires ValidIn(n, q)
    ensures Put(n, q, At(n, q)) == n
    decreases |q|
  {
    if q != [] {
      PutSame(Kids(n)[q[0]], q[1..]);
      assert Kids(n)[q[0] := Kids(n)[q[0]]] == Kids(n);
    }
  }

  /** Some group below `n` (or `n` itself) shows item `t`: `t` has a parent. */
  predicate Holds(n: Node, t: nat)
  {
    if n.Group? then t in n.tabs
    else exists i :: 0 <= i < |n.children| && Holds(n.children[i], t)
  }

  /** Replacing one node by one that holds `x` besides what the old one
      held adds `x` to what the whole tree holds, and nothing else. */
  lemma {:induction false} PutHolds(n: Node, q: Path, m: Node, m': Node, x: nat, t: nat)
    requires ValidIn(n, q)
    requires Holds(m', t) <==> Holds(m, t) || t == x
    ensures Holds(Put(n, q, m'), t) <==> Holds(Put(n, q, m), t) || t == x
    decreases |q|
  {
    if q != [] {
      var i := q[0];
      var c := Kids(n)[i];
      PutHolds(c, q[1..], m, m', x, t);
      var a := Put(n, q, m);
      var b := Put(n, q, m');
      assert Kids(a) == Kids(n)[i := Put(c, q[1..], m)];
      assert Kids(b) == Kids(n)[i := Put(c, q[1..], m')];
      if t == x {
        assert Holds(Kids(b)[i], t);
      } else {
        forall j | 0 <= j < |Kids(n)|
          ensures Holds(Kids(a)[j], t) <==> Holds(Kids(b)[j], t)
        {
        }
      }
    }
  }

  /** The layout's frames, under a root that is not itself a widget. */
  function Top(frames: seq<Node>): Node
  {
    Frame(0, 0, frames)
  }

  /** `p` addresses a widget of the layout. */
  predicate Addr(frames: seq<Node>, p: Path)
  {
    p != [] && ValidIn(Top(frames), p)
  }

  function Get(frames: seq<Node>, p: Path): Node
    requires Addr(frames, p)
  {
    At(Top(frames), p)
  }

  /** The layout with the widget at `p` replaced by `m`. */
  function Set(frames: seq<Node>, p: Path, m: Node): (r: seq<Node>)
    requires Addr(frames, p)
    ensures Top(r) == Put(Top(frames), p, m)
    ensures Addr(r, p) && Get(r, p) == m && |r| == |frames|
  {
    Put(Top(frames), p, m).children
  }

  /** The layout after the widget at `p` is destroyed. */
  function Cut(frames: seq<Node>, p: Path): (r: seq<Node>)
    requires Addr(frames, p)
    ensures Top(r) == CutAt(Top(frames), p)
  {
    CutAt(Top(frames), p).children
  }

  /** `p` has a parent: a frame, at the first step, has none. */
  predicate HasParent(p: Path)
  {
    |p| >= 2
  }

  function Up(p: Path): (r: Path)
    requires HasParent(p)
    ensures r == p[..|p| - 1] && r != []
  {
    p[..|p| - 1]
  }

  /** The widgets from the frame down to the one at `p`: `Chain(f, p)[j]`
      is the widget at the first `j + 1` steps of `p`. */
  function Chain(frames: seq<Node>, p: Path): (r: seq<Node>)
    requires Addr(frames, p)
    ensures |r| == |p| && r[|p| - 1] == Get(frames, p)
    ensures forall j :: 0 <= j < |p| ==> Addr(frames, p[..j + 1]) && r[j] == Get(frames, p[..j + 1])
  {
    Prefixes(frames, p);
    assert p[..|p|] == p;
    seq(|p|, j requires 0 <= j < |p| => Get(frames, p[..j + 1]))
  }

  lemma Prefixes(frames: seq<Node>, p: Path)
    requires Addr(frames, p)
    ensures forall j :: 1 <= j <= |p| ==> Addr(frames, p[..j])
  {
    forall j | 1 <= j <= |p|
      ensures ValidIn(Top(frames), p[..j])
    {
      PrefixValid(Top(frames), p, j);
    }
  }

  /** A parent's chain is its child's without the last widget. */
  lemma ChainUp(frames: seq<Node>, p: Path)
    requires Addr(frames, p) && HasParent(p)
    ensures Addr(frames, Up(p)) && Chain(frames, Up(p)) == Chain(frames, p)[..|p| - 1]
  {
    PrefixValid(Top(frames), p, |p| - 1);
    var a := Chain(frames, Up(p));
    forall j | 0 <= j < |p| - 1
      ensures a[j] == Chain(frames, p)[j]
    {
      assert Up(p)[..j + 1] == p[..j + 1];
    }
  }

  /** The parent of `p` is the container holding it. */
  lemma ParentHolds(frames: seq<Node>, p: Path)
    requires Addr(frames, p) && HasParent(p)
    ensures Addr(frames, Up(p))
    ensures p[|p| - 1] < |Kids(Get(frames, Up(p)))|
    ensures Get(frames, p) == Kids(Get(frames, Up(p)))[p[|p| - 1]]
  {
    AtStep(Top(frames), p, |p| - 1);
    assert p[..|p|] == p;
  }
}
