/**
 * The quadtree node of lib/qtree.js as a value: the ids it holds directly,
 * its children (none, or four ordered NE, SE, SW, NW) and its bounds, with
 * the subdivision rule, the pre-order list of stored ids, paths to nodes and
 * the invariants `add` maintains.
 */
module QNode {
  import opened AABB

  /** Keys of the point store (`"point_1"`, ... in the wrapper). */
  type Id = string

  /** Child slots, in the order `_subdivision` builds them. */
  const NE: nat := 0
  const SE: nat := 1
  const SW: nat := 2
  const NW: nat := 3

  /** Ids a node holds directly before it passes points on to children. */
  const CAPACITY: nat := 4

  /**
   * The bounds of a node. `Unbounded` stands for the default bounds
   * [-Infinity, Infinity, Infinity, -Infinity] and for every bounds that
   * `_subdivision` derives from them. In IEEE arithmetic those hold -Infinity
   * or NaN in TOP and LEFT and Infinity or NaN in RIGHT and BOTTOM. So the
   * four comparisons `outside` makes against them with a finite coordinate
   * (x < LEFT, x > RIGHT, y > BOTTOM, y < TOP) are all false, and they
   * contain every finite point and intersect every finite rectangle.
   */
  datatype Bounds = Finite(rect: Rect) | Unbounded

  predicate BoundsContain(b: Bounds, p: Point) {
    match b
    case Finite(r) => Contains(r, p)
    case Unbounded => true
  }

  predicate BoundsIntersect(b: Bounds, q: Rect) {
    match b
    case Finite(r) => Intersects(r, q)
    case Unbounded => true
  }

  datatype Node = Node(points: seq<Id>, children: seq<Node>, bounds: Bounds)

  /** `qtree(bounds)`: a leaf over b that stores nothing. */
  function Empty(b: Bounds): (n: Node)
    ensures n.bounds == b && n.children == []
    ensures Stored(n) == []
  {
    Node([], [], b)
  }

  /**
   * `_subdivision`: four empty nodes whose bounds split the parent at the
   * midpoints, computed from half the (negative) width and height as the
   * source does.
   */
  function Subdivision(b: Bounds): (kids: seq<Node>)
    ensures |kids| == 4
    ensures forall i :: 0 <= i < 4 ==> kids[i].points == [] && kids[i].children == []
    ensures b.Unbounded? ==> forall i :: 0 <= i < 4 ==> kids[i].bounds == Unbounded
    ensures b.Finite? ==>
      var r := b.rect;
      var midX := (r[LEFT] + r[RIGHT]) / 2.0;
      var midY := (r[TOP] + r[BOTTOM]) / 2.0;
      && kids[NE].bounds == Finite([r[TOP], r[RIGHT], midY, midX])
      && kids[SE].bounds == Finite([midY, r[RIGHT], r[BOTTOM], midX])
      && kids[SW].bounds == Finite([midY, midX, r[BOTTOM], r[LEFT]])
      && kids[NW].bounds == Finite([r[TOP], midX, midY, r[LEFT]])
  {
    match b
    case Unbounded =>
      [Empty(Unbounded), Empty(Unbounded), Empty(Unbounded), Empty(Unbounded)]
    case Finite(r) =>
      var n, e, s, w := r[0], r[1], r[2], r[3];
      var dxHalf := (w - e) / 2.0;
      var dyHalf := (s - n) / 2.0;
      [ Empty(Finite([n, e, s - dyHalf, w - dxHalf])),
        Empty(Finite([n + dyHalf, e, s, w - dxHalf])),
        Empty(Finite([n + dyHalf, e + dxHalf, s, w])),
        Empty(Finite([n, e + dxHalf, s - dyHalf, w])) ]
  }

  /** The bounds of the i-th quadrant of b. */
  function Quadrant(b: Bounds, i: nat): Bounds
    requires i < 4
  {
    Subdivision(b)[i].bounds
  }

  /** Every point of a quadrant lies in the parent, whether or not the parent is normalized. */
  lemma QuadrantInsideParent(b: Bounds, i: nat, p: Point)
    requires i < 4
    requires BoundsContain(Quadrant(b, i), p)
    ensures BoundsContain(b, p)
  {
  }

  /** The quadrants of a normalized rectangle are normalized and lie inside it. */
  lemma QuadrantsNested(r: Rect, i: nat)
    requires IsNormal(r) && i < 4
    ensures Quadrant(Finite(r), i).Finite?
    ensures var c := Quadrant(Finite(r), i).rect;
      && IsNormal(c)
      && r[TOP] <= c[TOP] && c[BOTTOM] <= r[BOTTOM]
      && r[LEFT] <= c[LEFT] && c[RIGHT] <= r[RIGHT]
  {
  }

  /**
   * Index of the first node in `kids` whose bounds contain p, or |kids| when
   * there is none: the child a full node hands a point to.
   */
  function FirstContaining(kids: seq<Node>, p: Point): (i: nat)
    ensures i <= |kids|
    ensures i < |kids| ==> BoundsContain(kids[i].bounds, p)
    ensures forall j :: 0 <= j < i ==> !BoundsContain(kids[j].bounds, p)
  {
    if kids == [] then 0
    else if BoundsContain(kids[0].bounds, p) then 0
    else 1 + FirstContaining(kids[1..], p)
  }

  /**
   * The quadrants cover the parent, and the first one holding a point is
   * decided by comparing with the midpoints: the vertical midline belongs to
   * the east half, the horizontal one to the north half in the east and to
   * the south half in the west.
   */
  lemma FirstQuadrantByMidlines(r: Rect, p: Point)
    requires Contains(r, p)
    ensures var midX := (r[LEFT] + r[RIGHT]) / 2.0;
      var midY := (r[TOP] + r[BOTTOM]) / 2.0;
      FirstContaining(Subdivision(Finite(r)), p) ==
        if p.x >= midX then (if p.y <= midY then NE else SE)
        else (if p.y >= midY then SW else NW)
  {
    var kids := Subdivision(Finite(r));
    assert kids[1..][1..][1..] == [kids[NW]];
  }

  /** Every point of the parent lies in some quadrant. */
  lemma QuadrantsCover(b: Bounds, p: Point)
    requires BoundsContain(b, p)
    ensures FirstContaining(Subdivision(b), p) < 4
  {
    match b
    case Unbounded =>
    case Finite(r) => FirstQuadrantByMidlines(r, p);
  }

  /** Two different quadrants share only points on a midline. */
  lemma QuadrantsMeetOnMidlines(r: Rect, i: nat, j: nat, p: Point)
    requires i < 4 && j < 4 && i != j
    requires BoundsContain(Quadrant(Finite(r), i), p) && BoundsContain(Quadrant(Finite(r), j), p)
    ensures p.x == (r[LEFT] + r[RIGHT]) / 2.0 || p.y == (r[TOP] + r[BOTTOM]) / 2.0
  {
  }

  /** The subdivision scenarios on [0,10,10,0] and on [-10,0,0,-10]. */
  lemma SubdivisionScenarios()
    ensures Quadrant(Finite([0.0, 10.0, 10.0, 0.0]), NE) == Finite([0.0, 10.0, 5.0, 5.0])
    ensures Quadrant(Finite([-10.0, 0.0, 0.0, -10.0]), NE) == Finite([-10.0, 0.0, -5.0, -5.0])
    ensures Quadrant(Finite([-10.0, 0.0, 0.0, -10.0]), SE) == Finite([-5.0, 0.0, 0.0, -5.0])
    ensures Quadrant(Finite([-10.0, 0.0, 0.0, -10.0]), SW) == Finite([-5.0, -5.0, 0.0, -10.0])
    ensures Quadrant(Finite([-10.0, 0.0, 0.0, -10.0]), NW) == Finite([-10.0, -5.0, -5.0, -10.0])
  {
  }

  // ---------------------------------------------------------------------
  // What a tree stores

  /** All ids of the subtree in pre-order: own ids, then each child's. */
  function Stored(n: Node): seq<Id>
    decreases n
  {
    n.points + StoredAll(n.children)
  }

  function StoredAll(kids: seq<Node>): seq<Id>
    decreases kids
  {
    if kids == [] then [] else Stored(kids[0]) + StoredAll(kids[1..])
  }

  lemma {:induction false} StoredAllAppend(a: seq<Node>, b: seq<Node>)
    ensures StoredAll(a + b) == StoredAll(a) + StoredAll(b)
    decreases a
  {
    if a == [] {
      assert a + b == b;
    } else {
      assert (a + b)[1..] == a[1..] + b;
      StoredAllAppend(a[1..], b);
    }
  }

  /** Children without ids or children of their own store nothing. */
  lemma {:induction false} StoredAllOfLeaves(kids: seq<Node>)
    requires forall k :: 0 <= k < |kids| ==> kids[k].points == [] && kids[k].children == []
    ensures StoredAll(kids) == []
    decreases kids
  {
    if kids != [] {
      assert Stored(kids[0]) == [] + StoredAll([]);
      StoredAllOfLeaves(kids[1..]);
    }
  }

  /** Equal sums with a common part have equal rest. */
  lemma MultisetCancel<T>(a: multiset<T>, b: multiset<T>, x: multiset<T>)
    requires a + x == b + x
    ensures a == b
  {
    assert forall e :: a[e] == (a + x)[e] - x[e];
  }

  /** Replacing one child changes the stored ids by that child's alone. */
  lemma {:induction false} StoredAllUpdate(kids: seq<Node>, i: nat, c: Node)
    requires i < |kids|
    ensures multiset(StoredAll(kids[i := c])) + multiset(Stored(kids[i])) ==
            multiset(StoredAll(kids)) + multiset(Stored(c))
    decreases kids
  {
    var rest := StoredAll(kids[1..]);
    if i > 0 {
      var tail := kids[1..][i - 1 := c];
      assert kids[i := c] == [kids[0]] + tail;
      assert kids[1..][i - 1] == kids[i];
      StoredAllUpdate(kids[1..], i - 1, c);
      MultisetShift(multiset(Stored(kids[0])), multiset(StoredAll(tail)), multiset(rest),
                    multiset(Stored(kids[i])), multiset(Stored(c)));
      assert StoredAll(kids[i := c]) == Stored(kids[0]) + StoredAll(tail);
    } else {
      assert kids[i := c][1..] == kids[1..];
      assert StoredAll(kids[i := c]) == Stored(c) + rest;
    }
  }

  /** Replacing one child by one that stores a single id more stores that id once more overall. */
  lemma StoredAllGrow(kids: seq<Node>, i: nat, c: Node, id: Id)
    requires i < |kids| && multiset(Stored(c)) == multiset(Stored(kids[i])) + multiset{id}
    ensures multiset(StoredAll(kids[i := c])) == multiset(StoredAll(kids)) + multiset{id}
  {
    var before, child := multiset(StoredAll(kids)), multiset(Stored(kids[i]));
    StoredAllUpdate(kids, i, c);
    assert multiset(StoredAll(kids[i := c])) + child == before + (child + multiset{id});
    MultisetCancel(multiset(StoredAll(kids[i := c])), before + multiset{id}, child);
  }

  /** Adding the same part to both sides of an equation of sums keeps it. */
  lemma MultisetShift<T>(h: multiset<T>, a: multiset<T>, b: multiset<T>, x: multiset<T>, y: multiset<T>)
    requires a + x == b + y
    ensures (h + a) + x == (h + b) + y
  {
    assert (h + a) + x == h + (a + x);
    assert (h + b) + y == h + (b + y);
  }

  /** An id is stored under some child exactly when some child's pre-order list has it. */
  lemma {:induction false} InStoredAll(kids: seq<Node>, id: Id)
    ensures id in StoredAll(kids) <==> exists i :: 0 <= i < |kids| && id in Stored(kids[i])
    decreases kids
  {
    if kids != [] {
      InStoredAll(kids[1..], id);
      if id in StoredAll(kids[1..]) {
        var i :| 0 <= i < |kids[1..]| && id in Stored(kids[1..][i]);
        assert id in Stored(kids[i + 1]);
      }
      forall i | 0 < i < |kids| && id in Stored(kids[i])
        ensures id in StoredAll(kids[1..])
      {
        assert kids[1..][i - 1] == kids[i];
      }
    }
  }

  /** Height of the subtree; a leaf has height 0. */
  function Height(n: Node): (h: nat)
    ensures forall i :: 0 <= i < |n.children| ==> Height(n.children[i]) < h
    decreases n
  {
    if n.children == [] then 0 else 1 + MaxHeight(n.children)
  }

  function MaxHeight(kids: seq<Node>): (m: nat)
    ensures forall i :: 0 <= i < |kids| ==> Height(kids[i]) <= m
    decreases kids
  {
    if kids == [] then 0
    else
      var a := Height(kids[0]);
      var b := MaxHeight(kids[1..]);
      if a < b then b else a
  }

  // ---------------------------------------------------------------------
  // The invariants `add` maintains

  /** Every node has no children or exactly the four quadrants of its bounds. */
  ghost predicate Tiled(n: Node)
    decreases n
  {
    && (n.children == [] ||
        (|n.children| == 4 &&
         forall i :: 0 <= i < 4 ==> n.children[i].bounds == Quadrant(n.bounds, i)))
    && forall i :: 0 <= i < |n.children| ==> Tiled(n.children[i])
  }

  /** No node holds more than CAPACITY ids directly. */
  ghost predicate WithinCapacity(n: Node)
    decreases n
  {
    && |n.points| <= CAPACITY
    && forall i :: 0 <= i < |n.children| ==> WithinCapacity(n.children[i])
  }

  /** Every id stored under a node is in the store and its point lies in that node's bounds. */
  ghost predicate Placed(n: Node, pts: map<Id, Point>)
    decreases n
  {
    && (forall id :: id in Stored(n) ==> id in pts && BoundsContain(n.bounds, pts[id]))
    && forall i :: 0 <= i < |n.children| ==> Placed(n.children[i], pts)
  }

  ghost predicate Valid(n: Node, pts: map<Id, Point>) {
    Tiled(n) && WithinCapacity(n) && Placed(n, pts)
  }

  /** The invariants only look at the points of the ids actually stored. */
  lemma {:induction false} ValidAgree(n: Node, pts: map<Id, Point>, pts': map<Id, Point>)
    requires Valid(n, pts)
    requires forall id :: id in Stored(n) ==> id in pts && id in pts' && pts'[id] == pts[id]
    ensures Valid(n, pts')
    decreases n
  {
    forall i | 0 <= i < |n.children|
      ensures Valid(n.children[i], pts')
    {
      forall id | id in Stored(n.children[i])
        ensures id in Stored(n)
      {
        InStoredAll(n.children, id);
      }
      ValidAgree(n.children[i], pts, pts');
    }
  }

  // ---------------------------------------------------------------------
  // Paths from the root to a node, and the breadth-first order on them

  type Path = seq<nat>

  predicate ValidPath(n: Node, p: Path)
    decreases p
  {
    p == [] || (p[0] < |n.children| && ValidPath(n.children[p[0]], p[1..]))
  }

  function At(n: Node, p: Path): Node
    requires ValidPath(n, p)
    decreases p
  {
    if p == [] then n else At(n.children[p[0]], p[1..])
  }

  /** The node at path p holds id directly. */
  predicate Holds(n: Node, p: Path, id: Id) {
    ValidPath(n, p) && id in At(n, p).points
  }

  /** The path one level deeper, to child i of the node at p. */
  lemma {:induction false} ChildPath(n: Node, p: Path, i: nat)
    requires ValidPath(n, p) && i < |At(n, p).children|
    ensures ValidPath(n, p + [i]) && At(n, p + [i]) == At(n, p).children[i]
    decreases p
  {
    if p != [] {
      assert (p + [i])[1..] == p[1..] + [i];
      ChildPath(n.children[p[0]], p[1..], i);
    }
  }

  /** A prefix of a valid path is valid, and the next step below it is a child index. */
  lemma {:induction false} PrefixPath(n: Node, p: Path, k: nat)
    requires ValidPath(n, p) && k < |p|
    ensures ValidPath(n, p[..k]) && p[k] < |At(n, p[..k]).children|
    ensures ValidPath(n, p[..k + 1]) && At(n, p[..k + 1]) == At(n, p[..k]).children[p[k]]
    decreases p
  {
    if k > 0 {
      PrefixPath(n.children[p[0]], p[1..], k - 1);
      assert p[..k][1..] == p[1..][..k - 1];
      assert p[..k + 1][1..] == p[1..][..k];
    }
  }

  /** An id is stored in the tree exactly when some node of it holds the id directly. */
  lemma {:induction false} StoredIffHeld(n: Node, id: Id)
    ensures id in Stored(n) <==> exists p :: Holds(n, p, id)
    decreases n
  {
    InStoredAll(n.children, id);
    if id in Stored(n) {
      if id !in n.points {
        var i :| 0 <= i < |n.children| && id in Stored(n.children[i]);
        StoredIffHeld(n.children[i], id);
        var q :| Holds(n.children[i], q, id);
        assert ([i] + q)[1..] == q;
        assert Holds(n, [i] + q, id);
      } else {
        assert Holds(n, [], id);
      }
    }
    if exists p :: Holds(n, p, id) {
      var p :| Holds(n, p, id);
      if p != [] {
        var i := p[0];
        assert Holds(n.children[i], p[1..], id);
        StoredIffHeld(n.children[i], id);
      }
    }
  }

  /** Lexicographic order on paths of the same length. */
  predicate LexLess(a: Path, b: Path)
    decreases a
  {
    |a| > 0 && |b| > 0 && (a[0] < b[0] || (a[0] == b[0] && LexLess(a[1..], b[1..])))
  }

  /** Breadth-first order: shallower first, then left to right (NE before NW). */
  predicate Before(a: Path, b: Path) {
    |a| < |b| || (|a| == |b| && LexLess(a, b))
  }

  lemma {:induction false} LexLessIrreflexive(a: Path)
    ensures !LexLess(a, a)
    decreases a
  {
    if |a| > 0 { LexLessIrreflexive(a[1..]); }
  }

  lemma {:induction false} LexLessTransitive(a: Path, b: Path, c: Path)
    requires LexLess(a, b) && LexLess(b, c)
    ensures LexLess(a, c)
    decreases a
  {
    if a[0] == b[0] && b[0] == c[0] {
      LexLessTransitive(a[1..], b[1..], c[1..]);
    }
  }

  /** Two different paths of the same length are ordered one way or the other. */
  lemma {:induction false} LexLessTotal(a: Path, b: Path)
    requires |a| == |b| && a != b
    ensures LexLess(a, b) || LexLess(b, a)
    decreases a
  {
    if a[0] == b[0] {
      assert a == [a[0]] + a[1..] && b == [b[0]] + b[1..];
      LexLessTotal(a[1..], b[1..]);
    }
  }

  /** Children of lexicographically ordered parents stay ordered. */
  lemma {:induction false} LexLessExtend(a: Path, b: Path, i: nat, j: nat)
    requires |a| == |b| && LexLess(a, b)
    ensures LexLess(a + [i], b + [j])
    decreases a
  {
    assert (a + [i])[1..] == a[1..] + [i] && (b + [j])[1..] == b[1..] + [j];
    if a[0] == b[0] {
      LexLessExtend(a[1..], b[1..], i, j);
    }
  }

  /** Siblings are ordered by their last index. */
  lemma {:induction false} LexLessSiblings(a: Path, i: nat, j: nat)
    requires i < j
    ensures LexLess(a + [i], a + [j])
    decreases a
  {
    if |a| > 0 {
      assert (a + [i])[1..] == a[1..] + [i] && (a + [j])[1..] == a[1..] + [j];
      LexLessSiblings(a[1..], i, j);
    }
  }

  lemma BeforeTransitive(a: Path, b: Path, c: Path)
    requires Before(a, b) && Before(b, c)
    ensures Before(a, c)
  {
    if |a| == |b| == |c| {
      LexLessTransitive(a, b, c);
    }
  }
}
