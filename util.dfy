/**
 * Geometry helpers and the widget-hierarchy walk of etkdocking/util.py.
 */
module Util {

  /** A GDK rectangle: origin and size in pixels. */
  datatype Rect = Rect(x: int, y: int, width: int, height: int)

  /** `rect_contains`: the point lies strictly inside the rectangle, so the
      one-pixel border does not count. */
  predicate RectContains(r: Rect, x: int, y: int)
  {
    x > r.x && x < r.x + r.width && y > r.y && y < r.y + r.height
  }

  /** `rect_overlaps`: the point lies inside the rectangle or on its border. */
  predicate RectOverlaps(r: Rect, x: int, y: int)
  {
    x >= r.x && x <= r.x + r.width && y >= r.y && y <= r.y + r.height
  }

  /** The point is covered by the rectangle and lies on one of its four edges. */
  predicate OnBorder(r: Rect, x: int, y: int)
  {
    RectOverlaps(r, x, y) &&
    (x == r.x || x == r.x + r.width || y == r.y || y == r.y + r.height)
  }

  /** `rect_contains` is `rect_overlaps` with the border taken away. */
  lemma ContainsIsOverlapsOffBorder(r: Rect, x: int, y: int)
    ensures RectContains(r, x, y) <==> RectOverlaps(r, x, y) && !OnBorder(r, x, y)
  {
  }

  lemma ContainsImpliesOverlaps(r: Rect, x: int, y: int)
    ensures RectContains(r, x, y) ==> RectOverlaps(r, x, y)
  {
  }

  /** A point on an edge overlaps the rectangle but is not contained in it. */
  lemma BorderOverlapsButIsNotContained(r: Rect, x: int, y: int)
    requires OnBorder(r, x, y)
    ensures RectOverlaps(r, x, y) && !RectContains(r, x, y)
  {
  }

  /** A node of a hierarchy as `flatten` sees it: its value, and what the
      child getter gives for it, either a list of children or a TypeError. */
  datatype Node<T> = Node(value: T, children: Children<T>)
  datatype Children<T> = TypeError | Listed(nodes: seq<Node<T>>)

  /** `flatten`: the node itself, then every child's flattened subtree, in
      child order; nothing below a node whose child getter raised TypeError. */
  function Flatten<T>(n: Node<T>): seq<T>
    decreases n, 1
  {
    [n.value] + match n.children
                case TypeError => []
                case Listed(cs) => FlattenAll(cs)
  }

  function FlattenAll<T>(cs: seq<Node<T>>): seq<T>
    decreases cs, 0
  {
    if cs == [] then [] else Flatten(cs[0]) + FlattenAll(cs[1..])
  }

  /** Number of nodes in a hierarchy. */
  function Size<T>(n: Node<T>): nat
    decreases n, 1
  {
    1 + match n.children
        case TypeError => 0
        case Listed(cs) => SizeAll(cs)
  }

  function SizeAll<T>(cs: seq<Node<T>>): nat
    decreases cs, 0
  {
    if cs == [] then 0 else Size(cs[0]) + SizeAll(cs[1..])
  }

  /** The walk yields every node exactly once, starting with the root; a node
      whose child getter raised TypeError yields only itself. */
  lemma {:induction false} FlattenRootFirst<T>(n: Node<T>)
    ensures |Flatten(n)| == Size(n)
    ensures Flatten(n)[0] == n.value
    ensures n.children.TypeError? ==> Flatten(n) == [n.value]
    decreases n, 1
  {
    match n.children
    case TypeError =>
    case Listed(cs) => FlattenAllLength(cs);
  }

  lemma {:induction false} FlattenAllLength<T>(cs: seq<Node<T>>)
    ensures |FlattenAll(cs)| == SizeAll(cs)
    decreases cs, 0
  {
    if cs != [] {
      FlattenRootFirst(cs[0]);
      FlattenAllLength(cs[1..]);
    }
  }

  /** Walking two runs of siblings is walking one after the other. */
  lemma {:induction false} FlattenAllAppend<T>(a: seq<Node<T>>, b: seq<Node<T>>)
    ensures FlattenAll(a + b) == FlattenAll(a) + FlattenAll(b)
  {
    if a == [] {
      assert a + b == b;
    } else {
      assert (a + b)[1..] == a[1..] + b;
      FlattenAllAppend(a[1..], b);
    }
  }

  /** The children's walks follow one another in child order. */
  lemma FlattenAllSlice<T>(cs: seq<Node<T>>, i: nat)
    requires i < |cs|
    ensures SizeAll(cs[..i]) + Size(cs[i]) <= |FlattenAll(cs)|
    ensures FlattenAll(cs)[SizeAll(cs[..i]) .. SizeAll(cs[..i]) + Size(cs[i])] == Flatten(cs[i])
  {
    var pre := FlattenAll(cs[..i]);
    var mid := Flatten(cs[i]);
    var post := FlattenAll(cs[i + 1..]);
    assert cs == cs[..i] + ([cs[i]] + cs[i + 1..]);
    FlattenAllAppend(cs[..i], [cs[i]] + cs[i + 1..]);
    assert ([cs[i]] + cs[i + 1..])[1..] == cs[i + 1..];
    assert FlattenAll(cs) == pre + (mid + post);
    FlattenAllLength(cs[..i]);
    FlattenRootFirst(cs[i]);
    assert (pre + (mid + post))[|pre| .. |pre| + |mid|] == mid;
  }

  lemma ConsSlice<T>(x: T, s: seq<T>, a: nat, b: nat)
    requires a <= b <= |s|
    ensures ([x] + s)[a + 1 .. b + 1] == s[a .. b]
  {
  }

  /** Pre-order: the subtree of the i-th child is walked right after the root
      and the subtrees of the children before it. */
  lemma {:induction false} FlattenIsPreorder<T>(n: Node<T>, i: nat)
    requires n.children.Listed? && i < |n.children.nodes|
    ensures 1 + SizeAll(n.children.nodes[..i]) + Size(n.children.nodes[i]) <= |Flatten(n)|
    ensures Flatten(n)[1 + SizeAll(n.children.nodes[..i]) .. 1 + SizeAll(n.children.nodes[..i]) + Size(n.children.nodes[i])]
            == Flatten(n.children.nodes[i])
  {
    var cs := n.children.nodes;
    FlattenAllSlice(cs, i);
    var all := FlattenAll(cs);
    var off := SizeAll(cs[..i]);
    var size := Size(cs[i]);
    assert Flatten(n) == [n.value] + all;
    ConsSlice(n.value, all, off, off + size);
  }
}
