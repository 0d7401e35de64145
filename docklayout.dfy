/**
 * The drag-and-drop rules of lib/etk/docking/docklayout.py: which widget
 * takes a drag motion or a drop, what a group or a paned does with the
 * dropped tabs, how an emptied drag source is destroyed when the drag
 * ends, and how a failed drag puts the tabs back; with the `DockLayout`
 * object that routes the events and remembers whom to tell when the
 * pointer leaves.
 *
 * The source dispatches on the widget's type through generic functions
 * whose default hands the event to the parent; here that is a `match` on
 * the node and recursion up the path.
 */
module DockLayoutModel {
  import opened Options
  import Util
  import opened PyList
  import opened PanedItems
  import opened DockTree
  import DockPanedModel

  /** `MAGIC_BORDER_SIZE`: how close to a paned's edge a drag over one of
      its groups is taken by the paned. */
  const MAGIC_BORDER_SIZE: int := 10

  function Abs(v: int): int
  {
    if v < 0 then -v else v
  }

  function Min(a: int, b: int): int
  {
    if a <= b then a else b
  }

  /** The test of `dock_paned_magic_borders`: the smallest distance from the
      point to the lines of the allocation's four edges is below
      `MAGIC_BORDER_SIZE`. */
  predicate MagicBorder(a: Util.Rect, x: int, y: int)
  {
    Min(Min(Abs(a.x - x), Abs(a.y - y)), Min(Abs(a.x + a.width - x), Abs(a.y + a.height - y))) < MAGIC_BORDER_SIZE
  }

  /** The border is claimed exactly when one of the four edge lines is
      nearer than `MAGIC_BORDER_SIZE`; the distance is to the whole line,
      so a point far beyond the allocation counts when it lines up with an
      edge. */
  lemma MagicBorderNearEdge(a: Util.Rect, x: int, y: int)
    ensures MagicBorder(a, x, y) <==>
      Abs(a.x - x) < MAGIC_BORDER_SIZE || Abs(a.y - y) < MAGIC_BORDER_SIZE ||
      Abs(a.x + a.width - x) < MAGIC_BORDER_SIZE || Abs(a.y + a.height - y) < MAGIC_BORDER_SIZE
  {
  }

  /** Every point on the allocation's border is claimed; a point inside it
      that keeps `MAGIC_BORDER_SIZE` clear of all four edges is not. */
  lemma MagicBorderBand(a: Util.Rect, x: int, y: int)
    ensures Util.OnBorder(a, x, y) ==> MagicBorder(a, x, y)
    ensures (a.x + MAGIC_BORDER_SIZE <= x <= a.x + a.width - MAGIC_BORDER_SIZE &&
             a.y + MAGIC_BORDER_SIZE <= y <= a.y + a.height - MAGIC_BORDER_SIZE) ==> !MagicBorder(a, x, y)
  {
  }

  /** The generic `magic_borders`: a paned tests its border, any other
      widget (and no widget at all) declines. */
  predicate MagicClaims(parent: Node, x: int, y: int)
  {
    parent.Paned? && MagicBorder(parent.allocation, x, y)
  }

  function AsHandles(areas: seq<Util.Rect>): (hs: seq<Handle>)
    ensures |hs| == |areas| && forall k :: 0 <= k < |areas| ==> hs[k].area == areas[k]
  {
    seq(|areas|, k requires 0 <= k < |areas| => Handle(k, areas[k]))
  }

  /** The first of `areas` under the point, borders included: the test
      `_get_handle_at_pos` makes on a paned's handles. */
  function FirstHit(areas: seq<Util.Rect>, x: int, y: int): (r: Option<nat>)
    ensures r.Some? ==> r.value < |areas| && Util.RectOverlaps(areas[r.value], x, y)
    ensures r.Some? ==> forall k :: 0 <= k < r.value ==> !Util.RectOverlaps(areas[k], x, y)
    ensures r.None? <==> forall k :: 0 <= k < |areas| ==> !Util.RectOverlaps(areas[k], x, y)
  {
    HandleAt(AsHandles(areas), x, y)
  }

  /** The first of `areas` strictly containing the point, its one-pixel
      border excluded: the `rect_contains` test a group makes on its tabs. */
  function FirstContained(areas: seq<Util.Rect>, x: int, y: int): (r: Option<nat>)
    ensures r.Some? ==> r.value < |areas| && Util.RectContains(areas[r.value], x, y)
    ensures r.Some? ==> forall k :: 0 <= k < r.value ==> !Util.RectContains(areas[k], x, y)
    ensures r.None? <==> forall k :: 0 <= k < |areas| ==> !Util.RectContains(areas[k], x, y)
  {
    if areas == [] then None
    else if Util.RectContains(areas[0], x, y) then Some(0)
    else match FirstContained(areas[1..], x, y)
      case None => None
      case Some(k) => Some(k + 1)
  }

  /** The hit areas of the tabs a group has. */
  function TabAreas(g: Node): (r: seq<Util.Rect>)
    requires g.Group?
    ensures |r| <= |g.tabs| && |r| <= |g.tabAreas| && forall k :: 0 <= k < |r| ==> r[k] == g.tabAreas[k]
    ensures |r| == |g.tabs| || |r| == |g.tabAreas|
  {
    if |g.tabAreas| <= |g.tabs| then g.tabAreas else g.tabAreas[..|g.tabs|]
  }

  /** A group whose current tab is one of its tabs whenever it has tabs. */
  predicate WfGroup(g: Node)
  {
    g.Group? && (g.tabs != [] ==> g.current.Some? && g.current.value in g.tabs)
  }

  /** The `_drop_tab_index` a drag motion over a group stores: the tab under
      the pointer, else the current tab, else None. (Where the current tab
      is missing from the tabs the source raises `ValueError`; None stands
      for that here.) */
  function DropTabIndex(g: Node, x: int, y: int): (r: Option<nat>)
    requires g.Group?
  {
    var hit := FirstContained(TabAreas(g), x, y);
    if hit.Some? then hit
    else if g.tabs != [] && g.current.Some? && g.current.value in g.tabs then Some(PyIndex(g.tabs, g.current.value))
    else None
  }

  /** A group always gets a drop index, except when it has no tab; the
      index is the first tab under the pointer when there is one, and the
      current tab's otherwise. */
  lemma DropTabIndexChoice(g: Node, x: int, y: int)
    requires WfGroup(g)
    ensures var r := DropTabIndex(g, x, y);
      (r.None? <==> g.tabs == []) &&
      (r.Some? ==> r.value < |g.tabs|) &&
      ((exists k :: 0 <= k < |TabAreas(g)| && Util.RectContains(TabAreas(g)[k], x, y)) ==>
         r.Some? && Util.RectContains(g.tabAreas[r.value], x, y) &&
         forall k :: 0 <= k < r.value ==> !Util.RectContains(g.tabAreas[k], x, y)) &&
      ((forall k :: 0 <= k < |TabAreas(g)| ==> !Util.RectContains(TabAreas(g)[k], x, y)) && g.tabs != [] ==>
         r.Some? && Some(g.tabs[r.value]) == g.current)
  {
    var hit := FirstContained(TabAreas(g), x, y);
    if hit.Some? {
      assert g.tabs != [];
      forall k | 0 <= k < hit.value
        ensures !Util.RectContains(g.tabAreas[k], x, y)
      {
        assert TabAreas(g)[k] == g.tabAreas[k];
      }
    }
  }

  /** A pointer on the shared edge of two tabs hits neither, so the drop
      index falls back to the current tab, where the inclusive test a paned
      uses on its handles would have picked the first tab. */
  lemma TabBorderFallsBack(g: Node, a: nat, b: nat)
    requires g.Group? && g.tabs == [a, b] && a != b && g.current == Some(b)
    requires g.tabAreas == [Util.Rect(0, 0, 10, 10), Util.Rect(10, 0, 10, 10)]
    ensures FirstHit(TabAreas(g), 10, 5) == Some(0)
    ensures DropTabIndex(g, 10, 5) == Some(1)
  {
    assert !Util.RectContains(TabAreas(g)[0], 10, 5) && !Util.RectContains(TabAreas(g)[1], 10, 5);
    assert PyIndex(g.tabs, b) == 1;
  }

  // ---------------------------------------------------------------------
  // Drag motion

  /** The leave callbacks a motion handler hands back:
      `dock_group_drag_leave` and `dock_paned_drag_leave`. */
  datatype Leave = GroupLeave | PanedLeave

  /** What `drag_motion` returns: the widget that took the event and the
      callback to run when the pointer leaves it; `(None, None)` when
      nobody took it. */
  datatype Claim = Claim(widget: Option<Path>, leave: Option<Leave>)

  /** The parent of the widget at `p`. */
  function ParentNode(frames: seq<Node>, p: Path): (r: Node)
    requires Addr(frames, p) && HasParent(p)
    ensures Addr(frames, Up(p)) && r == Get(frames, Up(p))
    ensures p[|p| - 1] < |Kids(r)| && Kids(r)[p[|p| - 1]] == Get(frames, p)
  {
    ParentHolds(frames, p);
    Get(frames, Up(p))
  }

  /** `drag_motion` on the widget at `p`, with the layout it leaves behind.
      A group (wrapped by `with_magic_borders`) first lets its parent's
      `magic_borders` take the event at the same coordinates; otherwise it
      records its drop index and highlights itself. A paned records the
      handle under the pointer (None when there is none) and highlights
      itself. Anything else hands the event to its parent, shifted by its
      window position, and returns `(None, None)` without one. */
  function DragMotion(frames: seq<Node>, p: Path, x: int, y: int): (r: (Claim, seq<Node>))
    requires Addr(frames, p)
    decreases |p|
  {
    var n := Get(frames, p);
    if n.Group? then
      if HasParent(p) && MagicClaims(ParentNode(frames, p), x, y) then (Claim(Some(Up(p)), None), frames)
      else (Claim(Some(p), Some(GroupLeave)),
            Set(frames, p, n.(dropTabIndex := DropTabIndex(n, x, y), highlighted := true)))
    else if n.Paned? then
      (Claim(Some(p), Some(PanedLeave)),
       Set(frames, p, n.(dropHandleIndex := FirstHit(n.handleAreas, x, y), highlighted := true)))
    else if HasParent(p) then
      ParentHolds(frames, p);
      DragMotion(frames, Up(p), n.px + x, n.py + y)
    else (Claim(None, None), frames)
  }

  /** `ch[k]` is the group or paned nearest to the end of the chain. */
  predicate Nearest(ch: seq<Node>, k: int)
  {
    0 <= k < |ch| && IsTarget(ch[k]) && forall j :: k < j < |ch| ==> !IsTarget(ch[j])
  }

  /** A frame's chain ends in a widget that is not a group or a paned; its
      nearest group or paned is its parent's. */
  lemma NearestUp(ch: seq<Node>, n: nat)
    requires 0 < n && n == |ch| - 1 && !IsTarget(ch[n])
    ensures forall k :: Nearest(ch[..n], k) <==> Nearest(ch, k)
  {
    forall k
      ensures Nearest(ch[..n], k) <==> Nearest(ch, k)
    {
      if Nearest(ch, k) {
        assert k < n;
        assert forall j :: k < j < n ==> ch[..n][j] == ch[j];
      }
      if Nearest(ch[..n], k) {
        assert forall j :: k < j < n ==> ch[..n][j] == ch[j];
      }
    }
  }

  /** The leave callback of a group or paned. */
  function LeaveOf(n: Node): Leave
  {
    if n.Group? then GroupLeave else PanedLeave
  }

  /** `c` is the claim of the group or paned `ch[k]` at `p[..k + 1]`, or of
      the paned above it taking a group's magic border. */
  predicate ClaimedBy(c: Claim, p: Path, ch: seq<Node>, k: int)
    requires 0 <= k < |ch| && |ch| == |p|
  {
    c == Claim(Some(p[..k + 1]), Some(LeaveOf(ch[k]))) ||
    (0 < k && ch[k].Group? && ch[k - 1].Paned? && c == Claim(Some(p[..k]), None))
  }

  /** Who takes a drag motion, against the chain of widgets from the frame
      down to the widget under the pointer: nobody exactly when no group or
      paned is on the chain; otherwise the nearest group or paned, with its
      own leave callback, except that the paned holding a group takes the
      event, without a callback, when the pointer is on its magic border. */
  lemma {:induction false} MotionClaim(frames: seq<Node>, p: Path, x: int, y: int)
    requires Addr(frames, p)
    ensures var c := DragMotion(frames, p, x, y).0; var ch := Chain(frames, p);
      (c.widget.None? <==> forall j :: 0 <= j < |p| ==> !IsTarget(ch[j])) &&
      (c.widget.Some? ==> (exists k :: Nearest(ch, k) && ClaimedBy(c, p, ch, k)))
    decreases |p|
  {
    var n := Get(frames, p);
    var ch := Chain(frames, p);
    var c := DragMotion(frames, p, x, y).0;
    var last := |p| - 1;
    assert p[..last + 1] == p;
    if n.Group? {
      assert Nearest(ch, last);
      if HasParent(p) && MagicClaims(ParentNode(frames, p), x, y) {
        assert ch[last - 1] == ParentNode(frames, p);
      }
      assert ClaimedBy(c, p, ch, last);
    } else if n.Paned? {
      assert Nearest(ch, last) && ClaimedBy(c, p, ch, last);
    } else if HasParent(p) {
      ParentHolds(frames, p);
      MotionClaim(frames, Up(p), n.px + x, n.py + y);
      ChainUp(frames, p);
      if c.widget.Some? {
        var k :| Nearest(ch[..last], k) && ClaimedBy(c, Up(p), ch[..last], k);
        ClaimUp(c, p, ch, k);
      } else {
        NoTargetUp(ch, ch[..last]);
      }
    }
  }

  /** The claim a frame's parent makes is the frame's own, against the
      longer chain. */
  lemma ClaimUp(c: Claim, p: Path, ch: seq<Node>, k: int)
    requires |ch| == |p| >= 2 && !IsTarget(ch[|p| - 1])
    requires Nearest(ch[..|p| - 1], k) && ClaimedBy(c, p[..|p| - 1], ch[..|p| - 1], k)
    ensures Nearest(ch, k) && ClaimedBy(c, p, ch, k)
  {
    var last := |p| - 1;
    assert p[..last][..k + 1] == p[..k + 1] && p[..last][..k] == p[..k];
    assert ch[..last][k] == ch[k];
    assert 0 < k ==> ch[..last][k - 1] == ch[k - 1];
    assert forall j :: k < j < last ==> ch[..last][j] == ch[j];
  }

  /** No group or paned above a frame, nor the frame itself: none at all. */
  lemma NoTargetUp(ch: seq<Node>, up: seq<Node>)
    requires |ch| >= 2 && !IsTarget(ch[|ch| - 1]) && up == ch[..|ch| - 1]
    requires forall j :: 0 <= j < |up| ==> !IsTarget(up[j])
    ensures forall j :: 0 <= j < |ch| ==> !IsTarget(ch[j])
  {
    forall j | 0 <= j < |ch| - 1
      ensures !IsTarget(ch[j])
    {
      assert up[j] == ch[j];
    }
  }

  // ---------------------------------------------------------------------
  // Drop

  /** The `drag_data_received` closures `drag_drop` hands out, with the
      widget they act on. */
  datatype Receiver = GroupReceiver(at: Path) | PanedReceiver(at: Path)

  /** The receiver still fits the layout: a group, or a paned that has a
      handle to drop on. */
  predicate Receivable(frames: seq<Node>, rc: Receiver)
  {
    Addr(frames, rc.at) &&
    match rc
    case GroupReceiver(q) => Get(frames, q).Group?
    case PanedReceiver(q) => Get(frames, q).Paned? && Get(frames, q).dropHandleIndex.Some?
  }

  /** `drag_drop` on the widget at `p`. A group always accepts; a paned
      accepts only when the last motion left it a handle, and otherwise
      answers `(None, None)` without asking its parent; anything else hands
      the drop to its parent. The coordinates play no part in the answer. */
  function DragDrop(frames: seq<Node>, p: Path): (r: Option<Receiver>)
    requires Addr(frames, p)
    ensures r.Some? ==> Receivable(frames, r.value)
    decreases |p|
  {
    var n := Get(frames, p);
    if n.Group? then Some(GroupReceiver(p))
    else if n.Paned? then (if n.dropHandleIndex.Some? then Some(PanedReceiver(p)) else None)
    else if HasParent(p) then
      ParentHolds(frames, p);
      DragDrop(frames, Up(p))
    else None
  }

  /** A drop is taken by the nearest group or paned on the chain, and is
      refused exactly when there is none or it is a paned with no handle
      under the last motion. */
  lemma {:induction false} DropTarget(frames: seq<Node>, p: Path)
    requires Addr(frames, p)
    ensures var r := DragDrop(frames, p); var ch := Chain(frames, p);
      (r.None? <==> forall k :: Nearest(ch, k) ==> ch[k].Paned? && ch[k].dropHandleIndex.None?) &&
      (r.Some? ==> (exists k :: Nearest(ch, k) && r.value.at == p[..k + 1] && (r.value.GroupReceiver? <==> ch[k].Group?)))
    decreases |p|
  {
    var n := Get(frames, p);
    var ch := Chain(frames, p);
    var last := |p| - 1;
    var r := DragDrop(frames, p);
    assert p[..last + 1] == p;
    if IsTarget(n) {
      assert Nearest(ch, last);
      forall k | Nearest(ch, k)
        ensures k == last
      {
      }
      assert r.Some? ==> r.value.at == p[..last + 1] && (r.value.GroupReceiver? <==> ch[last].Group?);
    } else if HasParent(p) {
      ParentHolds(frames, p);
      DropTarget(frames, Up(p));
      ChainUp(frames, p);
      NearestUp(ch, last);
      if r.Some? {
        var k :| Nearest(ch[..last], k) && r.value.at == Up(p)[..k + 1] &&
          (r.value.GroupReceiver? <==> ch[..last][k].Group?);
        ReceiverUp(r.value, p, ch, k);
      }
    } else {
      forall k | 0 <= k < |ch|
        ensures !Nearest(ch, k)
      {
      }
    }
  }

  /** The receiver a frame's parent hands out is the frame's own, against
      the longer chain. */
  lemma ReceiverUp(rc: Receiver, p: Path, ch: seq<Node>, k: int)
    requires |ch| == |p| >= 2 && !IsTarget(ch[|p| - 1])
    requires Nearest(ch[..|p| - 1], k) && rc.at == p[..|p| - 1][..k + 1]
    requires rc.GroupReceiver? <==> ch[..|p| - 1][k].Group?
    ensures Nearest(ch, k) && rc.at == p[..k + 1] && (rc.GroupReceiver? <==> ch[k].Group?)
  {
    var last := |p| - 1;
    assert p[..last][..k + 1] == p[..k + 1];
    assert ch[..last][k] == ch[k];
    assert forall j :: k < j < last ==> ch[..last][j] == ch[j];
  }

  /** `DockGroup.insert_item`: the item goes where `list.insert` puts it, or
      at the end for None, and becomes the current tab. */
  function GroupInsert(g: Node, item: nat, pos: Option<int>): (r: Node)
    requires g.Group?
    ensures r.Group? && r.current == Some(item)
  {
    var i := if pos.None? then |g.tabs| else PyInsertIndex(|g.tabs|, pos.value);
    g.(tabs := InsertAt(g.tabs, i, item), current := Some(item))
  }

  /** The group after `insert_item` of each of `items` in turn, all with
      the same position. */
  function InsertEach(g: Node, items: seq<nat>, pos: Option<int>): (r: Node)
    requires g.Group?
    ensures r.Group?
    decreases |items|
  {
    if items == [] then g
    else GroupInsert(InsertEach(g, items[..|items| - 1], pos), items[|items| - 1], pos)
  }

  /** Inserting `x` where block `b` starts puts it in front of the block. */
  lemma InsertBeforeBlock(a: seq<nat>, b: seq<nat>, c: seq<nat>, x: nat)
    ensures InsertAt(a + b + c, |a|, x) == a + ([x] + b) + c
  {
    assert (a + b + c)[..|a|] == a;
    assert (a + b + c)[|a|..] == b + c;
  }

  /** Inserting item after item at one place inside the tabs stacks them
      there in reverse; inserting at the end appends them in order. The
      current tab becomes the last one inserted, and nothing else changes. */
  lemma {:induction false} InsertEachTabs(g: Node, items: seq<nat>, pos: Option<int>)
    requires g.Group? && (pos.None? || 0 <= pos.value <= |g.tabs|)
    ensures var r := InsertEach(g, items, pos);
      r.tabs == (if pos.None? then g.tabs + items
                 else g.tabs[..pos.value] + Reversed(items) + g.tabs[pos.value..]) &&
      r == g.(tabs := r.tabs, current := if items == [] then g.current else Some(items[|items| - 1]))
    decreases |items|
  {
    if items != [] {
      var n := |items| - 1;
      InsertEachTabs(g, items[..n], pos);
      if pos.Some? {
        var i := pos.value;
        InsertBeforeBlock(g.tabs[..i], Reversed(items[..n]), g.tabs[i..], items[n]);
        assert Reversed(items) == [items[n]] + Reversed(items[..n]);
      } else {
        assert items == items[..n] + [items[n]];
      }
    }
  }

  /** Where `dock_group_drag_data_received` inserts: `_drop_tab_index`. */
  function DropPosition(g: Node): Option<int>
    requires g.Group?
  {
    if g.dropTabIndex.None? then None else Some(g.dropTabIndex.value as int)
  }

  /** The group receiving a drop: the dragged tabs, taken last to first,
      each inserted at the drop index. */
  function GroupDropped(g: Node, dragged: seq<nat>): (r: Node)
    requires g.Group?
  {
    InsertEach(g, Reversed(dragged), DropPosition(g))
  }

  /** Taken last to first, the dropped tabs land as one block in their
      dragged order at the drop index. A group that had no tab has no drop
      index, and there they are appended, so in reverse. */
  lemma GroupDropOrder(g: Node, dragged: seq<nat>)
    requires g.Group? && (g.dropTabIndex.Some? ==> g.dropTabIndex.value <= |g.tabs|)
    ensures g.dropTabIndex.Some? ==>
      var i := g.dropTabIndex.value;
      GroupDropped(g, dragged).tabs == g.tabs[..i] + dragged + g.tabs[i..]
    ensures g.dropTabIndex.None? ==> GroupDropped(g, dragged).tabs == g.tabs + Reversed(dragged)
    ensures dragged != [] ==> GroupDropped(g, dragged).current == Some(dragged[0])
  {
    InsertEachTabs(g, Reversed(dragged), DropPosition(g));
    ReversedTwice(dragged);
  }

  /** One more item inserted. */
  lemma InsertEachNext(g: Node, s: seq<nat>, k: nat, pos: Option<int>)
    requires g.Group? && k < |s|
    ensures InsertEach(g, s[..k + 1], pos) == GroupInsert(InsertEach(g, s[..k], pos), s[k], pos)
  {
    assert s[..k + 1][..k] == s[..k];
  }

  /** The loop of `dock_group_drag_data_received`:
      for each dragged tab, last first, `insert_item` at `_drop_tab_index`. */
  method ReceiveIntoGroup(g: Node, dragged: seq<nat>) returns (r: Node)
    requires g.Group?
    ensures r == GroupDropped(g, dragged)
  {
    var pos := DropPosition(g);
    var order := Reversed(dragged);
    r := g;
    var k := 0;
    while k < |order|
      invariant 0 <= k <= |order|
      invariant r == InsertEach(g, order[..k], pos)
    {
      InsertEachNext(g, order, k, pos);
      r := GroupInsert(r, order[k], pos);
      k := k + 1;
    }
    assert order[..k] == order;
  }

  /** A fresh `DockGroup()`: no tab, nothing current, dropped or dragged. */
  const NewGroup: Node := Group(0, 0, [], [], None, None, [], None, false)

  /** The loop of `dock_paned_drag_data_received` filling the new group:
      `insert_item` of each dragged tab with no position. */
  method FillGroup(dragged: seq<nat>) returns (g: Node)
    ensures g == InsertEach(NewGroup, dragged, None)
  {
    g := NewGroup;
    var k := 0;
    while k < |dragged|
      invariant 0 <= k <= |dragged|
      invariant g == InsertEach(NewGroup, dragged[..k], None)
    {
      InsertEachNext(NewGroup, dragged, k, None);
      g := GroupInsert(g, dragged[k], None);
      k := k + 1;
    }
    assert dragged[..k] == dragged;
  }

  /** `insert_child(group, position)` on a paned, taken as `_insert_item`
      does it: the child goes where `list.insert` puts it, and once there
      are two children a new handle, with an empty area, goes in before it. */
  function PanedInsert(n: Node, position: nat, g: Node): (r: Node)
    requires n.Paned?
    ensures r.Paned?
  {
    var cs := InsertAt(n.children, PyInsertIndex(|n.children|, position), g);
    n.(children := cs,
       handleAreas := if |cs| > 1 then InsertAt(n.handleAreas, PyInsertIndex(|n.handleAreas|, position - 1), DockPanedModel.EmptyRect)
                      else n.handleAreas)
  }

  /** The paned receiving a drop: a new group holding the dragged tabs goes
      in just after the handle the last motion found. */
  function PanedDropped(n: Node, dragged: seq<nat>): (r: Node)
    requires n.Paned? && n.dropHandleIndex.Some?
  {
    PanedInsert(n, n.dropHandleIndex.value + 1, InsertEach(NewGroup, dragged, None))
  }

  /** Dropped on handle `h`, which sits between children `h` and `h + 1`,
      the new group lands between those two, holding the dragged tabs in
      their order with the last as its current tab; a new handle goes in
      so that each pair of neighbours keeps one handle between them. */
  lemma PanedDropBetween(n: Node, dragged: seq<nat>)
    requires n.Paned? && n.dropHandleIndex.Some?
    requires n.dropHandleIndex.value < |n.handleAreas| && |n.children| == |n.handleAreas| + 1
    ensures var h := n.dropHandleIndex.value; var r := PanedDropped(n, dragged);
      |r.children| == |n.children| + 1 && |r.handleAreas| + 1 == |r.children| &&
      r.children[..h + 1] == n.children[..h + 1] && r.children[h + 2..] == n.children[h + 1..] &&
      r.children[h + 1].Group? && r.children[h + 1].tabs == dragged &&
      (dragged != [] ==> r.children[h + 1].current == Some(dragged[|dragged| - 1])) &&
      r.handleAreas == n.handleAreas[..h] + [DockPanedModel.EmptyRect] + n.handleAreas[h..]
  {
    InsertEachTabs(NewGroup, dragged, None);
    var h := n.dropHandleIndex.value;
    var r := PanedDropped(n, dragged);
    assert r.children[..h + 1] == n.children[..h + 1];
    assert r.children[h + 2..] == n.children[h + 1..];
  }

  /** What the receiver does to the layout. */
  function Received(frames: seq<Node>, rc: Receiver, dragged: seq<nat>): seq<Node>
    requires Receivable(frames, rc)
  {
    match rc
    case GroupReceiver(q) => Set(frames, q, GroupDropped(Get(frames, q), dragged))
    case PanedReceiver(q) => Set(frames, q, PanedDropped(Get(frames, q), dragged))
  }

  // ---------------------------------------------------------------------
  // Drag end

  /** A group with no tab or a paned with no item: what a drag end destroys. */
  predicate Emptied(n: Node)
  {
    (n.Group? && n.tabs == []) || (n.Paned? && n.children == [])
  }

  /** `drag_end` on the widget at `p` (the drag source). An emptied group or
      paned is destroyed and the event goes on to its former parent; any
      other group or paned stops there; anything else hands the event to
      its parent. */
  function DragEnd(frames: seq<Node>, p: Path): (r: seq<Node>)
    requires Addr(frames, p)
    decreases |p|
  {
    var n := Get(frames, p);
    if Emptied(n) then
      var cut := Cut(frames, p);
      if HasParent(p) then
        CutAncestors(Top(frames), p, |p| - 1);
        DragEnd(cut, Up(p))
      else cut
    else if IsTarget(n) then frames
    else if HasParent(p) then
      ParentHolds(frames, p);
      DragEnd(frames, Up(p))
    else frames
  }

  /** A drag end that starts at a widget that is not emptied changes
      nothing: the parents it reaches all still hold a child. */
  lemma {:induction false} DragEndKeeps(frames: seq<Node>, p: Path)
    requires Addr(frames, p) && !Emptied(Get(frames, p))
    ensures DragEnd(frames, p) == frames
    decreases |p|
  {
    var n := Get(frames, p);
    if !IsTarget(n) && HasParent(p) {
      var parent := ParentNode(frames, p);
      assert Kids(parent) != [];
      DragEndKeeps(frames, Up(p));
    }
  }

  /** A paned left with one child: destroying that child empties it. */
  predicate SoleChildPaned(n: Node)
  {
    n.Paned? && |n.children| == 1
  }

  /** The chain's widgets from `k` down to the next-to-last are paneds
      holding one child each, and the widget above `k`, if any, is not. */
  predicate Cascade(ch: seq<Node>, k: int)
  {
    0 <= k < |ch| &&
    (forall j :: k <= j < |ch| - 1 ==> SoleChildPaned(ch[j])) &&
    (k == 0 || !SoleChildPaned(ch[k - 1]))
  }

  /** A cascade one level up extends by one level when the widget below is
      a paned holding one child. */
  lemma CascadeUp(ch: seq<Node>, ch1: seq<Node>, k: int)
    requires |ch1| + 1 == |ch| && |ch1| > 0 && SoleChildPaned(ch[|ch1| - 1])
    requires forall j :: 0 <= j < |ch1| - 1 ==> (SoleChildPaned(ch1[j]) <==> SoleChildPaned(ch[j]))
    requires Cascade(ch1, k)
    ensures Cascade(ch, k)
  {
  }

  /** A drag end at an emptied widget destroys it and, above it, exactly the
      paneds that held nothing else: the layout loses the subtree at
      `p[..k + 1]`, where every widget from there down to `p`'s parent is a
      paned with that one child, and the widget above (if any) is not. */
  lemma {:induction false} DragEndCascade(frames: seq<Node>, p: Path)
    requires Addr(frames, p) && Emptied(Get(frames, p))
    ensures var ch := Chain(frames, p);
      exists k :: Cascade(ch, k) && Addr(frames, p[..k + 1]) && DragEnd(frames, p) == Cut(frames, p[..k + 1])
    decreases |p|
  {
    var ch := Chain(frames, p);
    assert p[..|p|] == p;
    if !HasParent(p) {
      assert Cascade(ch, 0) && DragEnd(frames, p) == Cut(frames, p[..1]);
    } else {
      var last := |p| - 1;
      var cut := Cut(frames, p);
      DragEndStep(frames, p);
      var parent := ParentNode(frames, p);
      if SoleChildPaned(parent) {
        DragEndCascade(cut, Up(p));
        var ch1 := Chain(cut, Up(p));
        var k :| Cascade(ch1, k) && Addr(cut, Up(p)[..k + 1]) && DragEnd(cut, Up(p)) == Cut(cut, Up(p)[..k + 1]);
        DragEndJoin(frames, p, k);
      } else {
        assert !Emptied(Get(cut, Up(p)));
        DragEndKeeps(cut, Up(p));
        assert Cascade(ch, last);
      }
    }
  }

  /** The cascade found one level up, after the widget at `p` is gone,
      is the cascade at `p` when its parent is a paned holding only it. */
  lemma DragEndJoin(frames: seq<Node>, p: Path, k: nat)
    requires Addr(frames, p) && HasParent(p)
    requires Addr(Cut(frames, p), Up(p))
    requires Chain(frames, p)[|p| - 2] == ParentNode(frames, p) && SoleChildPaned(ParentNode(frames, p))
    requires DragEnd(frames, p) == DragEnd(Cut(frames, p), Up(p))
    requires var cut := Cut(frames, p);
      Cascade(Chain(cut, Up(p)), k) && Addr(cut, Up(p)[..k + 1]) && DragEnd(cut, Up(p)) == Cut(cut, Up(p)[..k + 1])
    ensures Cascade(Chain(frames, p), k) && Addr(frames, p[..k + 1]) && DragEnd(frames, p) == Cut(frames, p[..k + 1])
  {
    CutCascade(frames, p, k);
    CutKeepsAncestors(frames, p);
    CascadeUp(Chain(frames, p), Chain(Cut(frames, p), Up(p)), k);
  }

  /** One step of the cascade: destroying the emptied widget at `p` leaves
      its parent with one child fewer, and the drag end goes on there. */
  lemma DragEndStep(frames: seq<Node>, p: Path)
    requires Addr(frames, p) && Emptied(Get(frames, p)) && HasParent(p)
    ensures Addr(Cut(frames, p), Up(p))
    ensures Get(Cut(frames, p), Up(p)) == Drop(ParentNode(frames, p), p[|p| - 1])
    ensures Chain(frames, p)[|p| - 2] == ParentNode(frames, p)
    ensures DragEnd(frames, p) == DragEnd(Cut(frames, p), Up(p))
  {
    CutAncestors(Top(frames), p, |p| - 1);
    ChainUp(frames, p);
  }

  /** Destroying a widget and then its ancestor at `p[..k + 1]` leaves the
      layout as destroying the ancestor alone. */
  lemma CutCascade(frames: seq<Node>, p: Path, k: nat)
    requires Addr(frames, p) && HasParent(p) && k + 1 < |p|
    ensures Addr(frames, p[..k + 1]) && Addr(Cut(frames, p), Up(p)[..k + 1])
    ensures Cut(Cut(frames, p), Up(p)[..k + 1]) == Cut(frames, p[..k + 1])
  {
    assert Up(p)[..k + 1] == p[..k + 1];
    CutTwice(Top(frames), p, k + 1);
  }

  /** Cutting at `p` leaves the widgets above its parent as they were, as
      far as being a paned with one child goes. */
  lemma CutKeepsAncestors(frames: seq<Node>, p: Path)
    requires Addr(frames, p) && HasParent(p)
    ensures Addr(Cut(frames, p), Up(p))
    ensures var ch := Chain(frames, p); var ch1 := Chain(Cut(frames, p), Up(p));
      forall j :: 0 <= j < |p| - 2 ==> (SoleChildPaned(ch1[j]) <==> SoleChildPaned(ch[j]))
  {
    CutAncestors(Top(frames), p, |p| - 1);
    var ch := Chain(frames, p);
    var ch1 := Chain(Cut(frames, p), Up(p));
    forall j | 0 <= j < |p| - 2
      ensures SoleChildPaned(ch1[j]) <==> SoleChildPaned(ch[j])
    {
      CutAncestors(Top(frames), p, j + 1);
      assert Up(p)[..j + 1] == p[..j + 1];
    }
  }

  // ---------------------------------------------------------------------
  // Drag failed

  /** Where `drag_failed` on the widget at `p` ends up: the nearest group
      at or above it, which handles it; None when there is none. */
  function FailedGroup(frames: seq<Node>, p: Path): (r: Option<Path>)
    requires Addr(frames, p)
    ensures r.Some? ==> Addr(frames, r.value) && Get(frames, r.value).Group?
    decreases |p|
  {
    if Get(frames, p).Group? then Some(p)
    else if HasParent(p) then
      ParentHolds(frames, p);
      FailedGroup(frames, Up(p))
    else None
  }

  /** `ch[k]` is the group nearest to the end of the chain. */
  predicate NearestGroup(ch: seq<Node>, k: int)
  {
    0 <= k < |ch| && ch[k].Group? && forall j :: k < j < |ch| ==> !ch[j].Group?
  }

  /** A failed drag is handled exactly when a group is on the chain, and by
      the nearest one. */
  lemma {:induction false} FailedGroupNearest(frames: seq<Node>, p: Path)
    requires Addr(frames, p)
    ensures var r := FailedGroup(frames, p); var ch := Chain(frames, p);
      (r.None? <==> forall j :: 0 <= j < |p| ==> !ch[j].Group?) &&
      (r.Some? ==> (exists k :: NearestGroup(ch, k) && r.value == p[..k + 1]))
    decreases |p|
  {
    var ch := Chain(frames, p);
    var last := |p| - 1;
    var r := FailedGroup(frames, p);
    assert p[..last + 1] == p;
    if Get(frames, p).Group? {
      assert NearestGroup(ch, last) && r.value == p[..last + 1];
    } else if HasParent(p) {
      ParentHolds(frames, p);
      FailedGroupNearest(frames, Up(p));
      ChainUp(frames, p);
      if r.Some? {
        var k :| NearestGroup(ch[..last], k) && r.value == Up(p)[..k + 1];
        GroupUp(p, ch, k);
      } else {
        NoGroupUp(ch, ch[..last]);
      }
    }
  }

  /** The nearest group above a widget that is not a group is the nearest
      group on the longer chain. */
  lemma GroupUp(p: Path, ch: seq<Node>, k: int)
    requires |ch| == |p| >= 2 && !ch[|p| - 1].Group? && NearestGroup(ch[..|p| - 1], k)
    ensures NearestGroup(ch, k) && p[..|p| - 1][..k + 1] == p[..k + 1]
  {
    var last := |p| - 1;
    assert p[..last][..k + 1] == p[..k + 1];
    assert forall j :: k <= j < last ==> ch[..last][j] == ch[j];
  }

  /** No group above a widget that is not a group, nor the widget itself:
      none at all. */
  lemma NoGroupUp(ch: seq<Node>, up: seq<Node>)
    requires |ch| >= 2 && !ch[|ch| - 1].Group? && up == ch[..|ch| - 1]
    requires forall j :: 0 <= j < |up| ==> !up[j].Group?
    ensures forall j :: 0 <= j < |ch| ==> !ch[j].Group?
  {
    forall j | 0 <= j < |ch| - 1
      ensures !ch[j].Group?
    {
      assert up[j] == ch[j];
    }
  }

  /** The item has a parent somewhere in the layout. */
  predicate Attached(frames: seq<Node>, t: nat)
  {
    Holds(Top(frames), t)
  }

  /** `dock_group_drag_failed` on the group `g` at `q`, item by item of `d`:
      an item with no parent in the layout as it stands at that moment goes
      back in at `_dragged_tab_index`. */
  function Refilled(frames: seq<Node>, q: Path, g: Node, d: seq<nat>): (r: Node)
    requires Addr(frames, q) && g.Group?
    ensures r.Group? && r.draggedTabIndex == g.draggedTabIndex
    decreases |d|
  {
    if d == [] then g
    else
      var h := Refilled(frames, q, g, d[..|d| - 1]);
      var t := d[|d| - 1];
      if Attached(Set(frames, q, h), t) then h else GroupInsert(h, t, g.draggedTabIndex)
  }

  /** The items of `d` that have no parent in the layout. */
  function Lost(frames: seq<Node>, d: seq<nat>): (r: seq<nat>)
    decreases |d|
  {
    if d == [] then []
    else Lost(frames, d[..|d| - 1]) + (if Attached(frames, d[|d| - 1]) then [] else [d[|d| - 1]])
  }

  /** `Lost` keeps exactly the items of `d` that have no parent. */
  lemma {:induction false} LostFilters(frames: seq<Node>, d: seq<nat>, t: nat)
    ensures t in Lost(frames, d) <==> t in d && !Attached(frames, t)
    decreases |d|
  {
    if d != [] {
      var n := |d| - 1;
      LostFilters(frames, d[..n], t);
      assert d == d[..n] + [d[n]];
    }
  }

  /** While a group is refilled, an item has a parent exactly when it had
      one before or has just been put back. */
  lemma {:induction false} RefilledHolds(frames: seq<Node>, q: Path, d: seq<nat>, t: nat)
    requires Addr(frames, q) && Get(frames, q).Group? && Distinct(d)
    ensures Attached(Set(frames, q, Refilled(frames, q, Get(frames, q), d)), t) <==>
      Attached(frames, t) || t in Lost(frames, d)
    decreases |d|
  {
    var g := Get(frames, q);
    if d == [] {
      PutSame(Top(frames), q);
    } else {
      var n := |d| - 1;
      var x := d[n];
      assert Distinct(d[..n]);
      RefilledHolds(frames, q, d[..n], t);
      RefilledHolds(frames, q, d[..n], x);
      var h := Refilled(frames, q, g, d[..n]);
      assert x !in Lost(frames, d[..n]) by {
        LostFilters(frames, d[..n], x);
        assert forall j :: 0 <= j < n ==> d[..n][j] == d[j];
      }
      if !Attached(Set(frames, q, h), x) {
        var r := GroupInsert(h, x, g.draggedTabIndex);
        assert forall s :: s in r.tabs <==> s in h.tabs || s == x;
        PutHolds(Top(frames), q, h, r, x, t);
      }
    }
  }

  /** As written, with `_dragged_tab_index` inside the tabs, the tabs that
      had lost their parent come back at that index as one block, but in
      reverse order; with no index they are appended in order. Tabs that
      found a parent elsewhere stay where they are. */
  lemma {:induction false} RefilledTabs(frames: seq<Node>, q: Path, d: seq<nat>)
    requires Addr(frames, q) && Get(frames, q).Group? && Distinct(d)
    requires var g := Get(frames, q);
      g.draggedTabIndex.None? || 0 <= g.draggedTabIndex.value <= |g.tabs|
    ensures var g := Get(frames, q); var r := Refilled(frames, q, g, d);
      r.tabs == (if g.draggedTabIndex.None? then g.tabs + Lost(frames, d)
                 else g.tabs[..g.draggedTabIndex.value] + Reversed(Lost(frames, d)) + g.tabs[g.draggedTabIndex.value..])
    decreases |d|
  {
    var g := Get(frames, q);
    if d != [] {
      var n := |d| - 1;
      var x := d[n];
      assert Distinct(d[..n]);
      RefilledTabs(frames, q, d[..n]);
      RefillStep(frames, q, d);
      var L := Lost(frames, d[..n]);
      var h := Refilled(frames, q, g, d[..n]);
      if Attached(frames, x) {
        assert Refilled(frames, q, g, d) == h;
        assert Lost(frames, d) == L;
      } else {
        assert Refilled(frames, q, g, d) == GroupInsert(h, x, g.draggedTabIndex);
        assert Lost(frames, d) == L + [x];
        RefillPutsBack(g, h, L, x);
      }
    }
  }

  /** Putting back one more lost tab `x` extends the block of lost tabs:
      at the front of it at `_dragged_tab_index`, at the end with no index. */
  lemma RefillPutsBack(g: Node, h: Node, L: seq<nat>, x: nat)
    requires g.Group? && h.Group?
    requires g.draggedTabIndex.None? || 0 <= g.draggedTabIndex.value <= |g.tabs|
    requires h.tabs == (if g.draggedTabIndex.None? then g.tabs + L
                        else g.tabs[..g.draggedTabIndex.value] + Reversed(L) + g.tabs[g.draggedTabIndex.value..])
    ensures GroupInsert(h, x, g.draggedTabIndex).tabs ==
      (if g.draggedTabIndex.None? then g.tabs + (L + [x])
       else g.tabs[..g.draggedTabIndex.value] + Reversed(L + [x]) + g.tabs[g.draggedTabIndex.value..])
  {
    if g.draggedTabIndex.Some? {
      var i := g.draggedTabIndex.value;
      InsertBeforeBlock(g.tabs[..i], Reversed(L), g.tabs[i..], x);
      ReversedSnoc(L, x);
    } else {
      assert (g.tabs + L) + [x] == g.tabs + (L + [x]);
    }
  }

  /** The last item of `d` finds a parent in the half-refilled layout
      exactly when it had one to start with. */
  lemma RefillStep(frames: seq<Node>, q: Path, d: seq<nat>)
    requires Addr(frames, q) && Get(frames, q).Group? && Distinct(d) && d != []
    ensures var n := |d| - 1;
      Attached(Set(frames, q, Refilled(frames, q, Get(frames, q), d[..n])), d[n]) <==> Attached(frames, d[n])
  {
    var n := |d| - 1;
    assert Distinct(d[..n]);
    RefilledHolds(frames, q, d[..n], d[n]);
    LostFilters(frames, d[..n], d[n]);
    assert forall j :: 0 <= j < n ==> d[..n][j] == d[j];
  }

  /** The as-written loop of `dock_group_drag_failed`: each dragged tab in
      order, put back at `_dragged_tab_index` when it has no parent. */
  method RefillAsWritten(frames: seq<Node>, q: Path) returns (r: Node)
    requires Addr(frames, q) && Get(frames, q).Group?
    ensures r == Refilled(frames, q, Get(frames, q), Get(frames, q).dragged)
  {
    var g := Get(frames, q);
    var d := g.dragged;
    r := g;
    var k := 0;
    while k < |d|
      invariant 0 <= k <= |d|
      invariant r == Refilled(frames, q, g, d[..k])
    {
      assert d[..k + 1][..k] == d[..k];
      if !Attached(Set(frames, q, r), d[k]) {
        r := GroupInsert(r, d[k], g.draggedTabIndex);
      }
      k := k + 1;
    }
    assert d[..k] == d;
  }

  /** A frame holding only a group with no tabs: the group is at `[0, 0]`,
      and no item has a parent. */
  lemma LoneEmptyGroup(g: Node, t: nat)
    requires g.Group? && g.tabs == []
    ensures Addr([Frame(0, 0, [g])], [0, 0]) && Get([Frame(0, 0, [g])], [0, 0]) == g
    ensures !Attached([Frame(0, 0, [g])], t)
  {
    var frames := [Frame(0, 0, [g])];
    assert [0, 0][1..] == [0];
    assert [0][1..] == [];
    assert !Holds(frames[0], t);
  }

  /** Items none of which has a parent are all lost. */
  lemma {:induction false} LostAll(frames: seq<Node>, d: seq<nat>)
    requires forall k :: 0 <= k < |d| ==> !Attached(frames, d[k])
    ensures Lost(frames, d) == d
    decreases |d|
  {
    if d != [] {
      var n := |d| - 1;
      LostAll(frames, d[..n]);
      assert d[..n] + [d[n]] == d;
    }
  }

  /** Two distinct dragged tabs `a`, `b` that both lost their parent, put
      back at index 0 of a group with no tabs left, come back as `[b, a]`. */
  lemma RefillReversesTwoTabs(g: Node, a: nat, b: nat)
    requires g.Group? && g.tabs == [] && g.dragged == [a, b] && g.draggedTabIndex == Some(0) && a != b
    ensures var frames := [Frame(0, 0, [g])];
      Addr(frames, [0, 0]) && Get(frames, [0, 0]) == g &&
      Refilled(frames, [0, 0], g, g.dragged).tabs == [b, a]
  {
    var frames := [Frame(0, 0, [g])];
    LoneEmptyGroup(g, a);
    LoneEmptyGroup(g, b);
    LostAll(frames, [a, b]);
    RefilledTabs(frames, [0, 0], [a, b]);
    assert Reversed([a, b]) == [b, a];
  }

  /** The order `dock_group_drag_failed` should walk the dragged tabs in:
      last first when they all go to one index, as the drop handler does,
      first first when they are appended. */
  function RefillOrder(g: Node): seq<nat>
    requires g.Group?
  {
    if g.draggedTabIndex.None? then g.dragged else Reversed(g.dragged)
  }

  lemma {:induction false} LostAppend(frames: seq<Node>, a: seq<nat>, b: seq<nat>)
    ensures Lost(frames, a + b) == Lost(frames, a) + Lost(frames, b)
    decreases |b|
  {
    if b == [] {
      assert a + b == a;
    } else {
      var n := |b| - 1;
      assert (a + b)[..|a + b| - 1] == a + b[..n];
      LostAppend(frames, a, b[..n]);
    }
  }

  lemma {:induction false} LostReversed(frames: seq<Node>, d: seq<nat>)
    ensures Lost(frames, Reversed(d)) == Reversed(Lost(frames, d))
    decreases |d|
  {
    if d != [] {
      var n := |d| - 1;
      LostReversed(frames, d[..n]);
      assert Reversed(d) == [d[n]] + Reversed(d[..n]);
      LostAppend(frames, [d[n]], Reversed(d[..n]));
      assert [d[n]][..0] == [];
      var L := Lost(frames, d[..n]);
      if Attached(frames, d[n]) {
        assert Lost(frames, [d[n]]) == [];
      } else {
        assert Lost(frames, [d[n]]) == [d[n]];
        ReversedSnoc(L, d[n]);
      }
    }
  }

  /** Walked in that order, the tabs that lost their parent come back as
      one block at `_dragged_tab_index`, in their dragged order. */
  lemma RefillKeepsOrder(frames: seq<Node>, q: Path)
    requires Addr(frames, q) && Get(frames, q).Group? && Distinct(Get(frames, q).dragged)
    requires var g := Get(frames, q);
      g.draggedTabIndex.None? || 0 <= g.draggedTabIndex.value <= |g.tabs|
    ensures var g := Get(frames, q); var r := Refilled(frames, q, g, RefillOrder(g));
      var i := if g.draggedTabIndex.None? then |g.tabs| else g.draggedTabIndex.value;
      r.tabs == g.tabs[..i] + Lost(frames, g.dragged) + g.tabs[i..]
  {
    var g := Get(frames, q);
    var d := g.dragged;
    if g.draggedTabIndex.None? {
      RefilledTabs(frames, q, d);
      assert g.tabs[..|g.tabs|] == g.tabs && g.tabs[|g.tabs|..] == [];
    } else {
      assert Distinct(Reversed(d)) by {
        forall k, l | 0 <= k < l < |d|
          ensures Reversed(d)[k] != Reversed(d)[l]
        {
        }
      }
      RefilledTabs(frames, q, Reversed(d));
      LostReversed(frames, d);
      ReversedTwice(Lost(frames, d));
    }
  }

  /** `dock_group_drag_failed`, walking the dragged tabs in `RefillOrder`. */
  method Refill(frames: seq<Node>, q: Path) returns (r: Node)
    requires Addr(frames, q) && Get(frames, q).Group?
    ensures r == Refilled(frames, q, Get(frames, q), RefillOrder(Get(frames, q)))
  {
    var g := Get(frames, q);
    var d := RefillOrder(g);
    r := g;
    var k := 0;
    while k < |d|
      invariant 0 <= k <= |d|
      invariant r == Refilled(frames, q, g, d[..k])
    {
      assert d[..k + 1][..k] == d[..k];
      if !Attached(Set(frames, q, r), d[k]) {
        r := GroupInsert(r, d[k], g.draggedTabIndex);
      }
      k := k + 1;
    }
    assert d[..k] == d;
  }

  // ---------------------------------------------------------------------
  // The layout

  /** What a leave callback does to the widget it is handed:
      `dock_unhighlight` takes the highlight off. A path that no longer
      leads to a group or paned is left alone. */
  function Unhighlighted(frames: seq<Node>, q: Path): (r: seq<Node>)
    ensures Addr(frames, q) && IsTarget(Get(frames, q)) ==>
      Addr(r, q) && Get(r, q) == Get(frames, q).(highlighted := false)
    ensures !(Addr(frames, q) && IsTarget(Get(frames, q))) ==> r == frames
  {
    if Addr(frames, q) && IsTarget(Get(frames, q)) then Set(frames, q, Get(frames, q).(highlighted := false))
    else frames
  }

  /** The layout after the stored claim's leave callback, if any, ran. */
  function AfterLeave(frames: seq<Node>, c: Claim): seq<Node>
  {
    if c.widget.Some? && c.leave.Some? then Unhighlighted(frames, c.widget.value) else frames
  }

  /** The frames without `frame`, the others in their order. */
  function Without(frames: seq<Node>, frame: Node): (r: seq<Node>)
    ensures forall m :: m in r <==> m in frames && m != frame
    ensures frame !in frames ==> r == frames
  {
    if frames == [] then []
    else if frames[0] == frame then Without(frames[1..], frame)
    else [frames[0]] + Without(frames[1..], frame)
  }

  /** Adding a frame that is not in the layout and removing it again gives
      the layout back. */
  lemma {:induction false} AddThenRemove(frames: seq<Node>, frame: Node)
    requires frame !in frames
    ensures Without(frames + [frame], frame) == frames
  {
    if frames == [] {
      assert Without([frame], frame) == Without([], frame);
    } else {
      assert (frames + [frame])[1..] == frames[1..] + [frame];
      AddThenRemove(frames[1..], frame);
    }
  }

  /** `DockLayout`: the frames it manages, the claim of the last drag
      motion (`_drag_leave`) and the receiver of the drop in progress
      (`_drag_data_received`). */
  class DockLayout {
    var frames: seq<Node>
    var dragLeave: Claim
    var dragDataReceived: Option<Receiver>

    constructor ()
      ensures frames == [] && dragLeave == Claim(None, None) && dragDataReceived.None?
    {
      frames := [];
      dragLeave := Claim(None, None);
      dragDataReceived := None;
    }

    /** `add`: the frame joins the layout (once); the source asserts it
        is a frame. */
    method Add(frame: Node)
      requires frame.Frame?
      modifies this`frames
      ensures frames == if frame in old(frames) then old(frames) else old(frames) + [frame]
    {
      if frame !in frames {
        frames := frames + [frame];
      }
    }

    /** `remove`: the frame leaves the layout; a frame that is not in it
        is refused (the source raises `KeyError`) with nothing changed. */
    method Remove(frame: Node) returns (ok: bool)
      modifies this`frames
      ensures ok <==> frame in old(frames)
      ensures frames == Without(old(frames), frame)
    {
      ok := frame in frames;
      frames := Without(frames, frame);
    }

    /** `on_widget_drag_leave`: the stored callback runs on the stored
        widget, and the claim is cleared. */
    method OnDragLeave()
      modifies this`frames, this`dragLeave
      ensures frames == AfterLeave(old(frames), old(dragLeave))
      ensures dragLeave == Claim(None, None)
    {
      if dragLeave.widget.Some? && dragLeave.leave.Some? {
        frames := Unhighlighted(frames, dragLeave.widget.value);
      }
      dragLeave := Claim(None, None);
    }

    /** `on_widget_drag_motion`: the motion is dispatched; when another
        widget (or nobody) took it, the previous one is left and the new
        claim is stored. */
    method OnDragMotion(p: Path, x: int, y: int)
      requires Addr(frames, p)
      modifies this`frames, this`dragLeave
      ensures var m := DragMotion(old(frames), p, x, y);
        if m.0.widget != old(dragLeave).widget then frames == AfterLeave(m.1, old(dragLeave)) && dragLeave == m.0
        else frames == m.1 && dragLeave == old(dragLeave)
    {
      var m := DragMotion(frames, p, x, y);
      frames := m.1;
      if m.0.widget != dragLeave.widget {
        OnDragLeave();
        dragLeave := m.0;
      }
    }

    /** `on_widget_drag_data_received`: the receiver found at the drop runs
        with the dragged tabs and is then forgotten. */
    method OnDragDataReceived(dragged: seq<nat>)
      requires dragDataReceived.Some? && Receivable(frames, dragDataReceived.value)
      modifies this`frames, this`dragDataReceived
      ensures frames == Received(old(frames), old(dragDataReceived).value, dragged)
      ensures dragDataReceived.None?
    {
      var rc := dragDataReceived.value;
      var q := rc.at;
      var n := Get(frames, q);
      if rc.GroupReceiver? {
        var g := ReceiveIntoGroup(n, dragged);
        frames := Set(frames, q, g);
      } else {
        var g := FillGroup(dragged);
        assert PanedInsert(n, n.dropHandleIndex.value + 1, g) == PanedDropped(n, dragged);
        frames := Set(frames, q, PanedInsert(n, n.dropHandleIndex.value + 1, g));
      }
      dragDataReceived := None;
    }

    /** `on_widget_drag_drop`: only a drag that offers dock items is
        dispatched; an accepting widget gets the data at once (the drag is
        within the application), and the drop is accepted exactly when a
        widget took it. */
    method OnDragDrop(p: Path, offersItems: bool, dragged: seq<nat>) returns (accepted: bool)
      requires Addr(frames, p)
      modifies this`frames, this`dragDataReceived
      ensures var rc := if offersItems then DragDrop(old(frames), p) else None;
        accepted == rc.Some? &&
        frames == (if rc.Some? then Received(old(frames), rc.value, dragged) else old(frames))
      ensures dragDataReceived.None?
    {
      var rc := if offersItems then DragDrop(frames, p) else None;
      dragDataReceived := rc;
      if rc.Some? {
        OnDragDataReceived(dragged);
      }
      dragDataReceived := None;
      accepted := rc.Some?;
    }

    /** `on_widget_drag_end` on the drag source. */
    method OnDragEnd(p: Path)
      requires Addr(frames, p)
      modifies this`frames
      ensures frames == DragEnd(old(frames), p)
    {
      frames := DragEnd(frames, p);
    }

    /** `on_widget_drag_failed` on the drag source: handled exactly when a
        group on the chain puts its tabs back. */
    method OnDragFailed(p: Path) returns (handled: bool)
      requires Addr(frames, p)
      modifies this`frames
      ensures var t := FailedGroup(old(frames), p);
        handled == t.Some? &&
        frames == (if t.Some? then Set(old(frames), t.value, Refilled(old(frames), t.value, Get(old(frames), t.value), RefillOrder(Get(old(frames), t.value))))
                   else old(frames))
    {
      var t := FailedGroup(frames, p);
      if t.Some? {
        var r := Refill(frames, t.value);
        frames := Set(frames, t.value, r);
      }
      handled := t.Some?;
    }
  }
}
