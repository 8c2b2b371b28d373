/**
 * `QTree.add` (lib/qtree.js): insertion of a point id into a node.
 *
 * `Insert` is the recursive definition, with `InsertChildren` for the loop
 * over the children; `Add` is the procedure with that loop, proved to
 * compute the same thing. The lemmas give what the definition means: a
 * point is rejected only when it lies outside the bounds, an accepted id
 * is stored exactly once more, full nodes pass it to the first quadrant that
 * holds it, and the node invariants are kept.
 */
module QTreeAdd {
  import opened AABB
  import opened QNode

  /**
   * The measure `add` decreases: a child is lower than its parent, and a
   * freshly created child, as low as its leaf parent, holds fewer ids.
   */
  predicate Smaller(a: Node, n: Node) {
    Height(a) < Height(n) || (Height(a) == Height(n) && |a.points| < |n.points|)
  }

  /** The children a full node hands a point to: its own, or a new subdivision. */
  function Targets(n: Node): (kids: seq<Node>)
    ensures n.children != [] ==> kids == n.children
    ensures n.children == [] ==> kids == Subdivision(n.bounds)
    ensures Tiled(n) ==> |kids| == 4 && forall j :: 0 <= j < 4 ==> kids[j].bounds == Quadrant(n.bounds, j)
  {
    if n.children == [] then Subdivision(n.bounds) else n.children
  }

  lemma TargetsSmaller(n: Node)
    requires |n.points| >= CAPACITY
    ensures forall j :: 0 <= j < |Targets(n)| ==> Smaller(Targets(n)[j], n)
  {
    if n.children == [] {
      forall j | 0 <= j < 4
        ensures Smaller(Targets(n)[j], n)
      {
        assert Height(Targets(n)[j]) == 0;
      }
    }
  }

  /** `add(qtree, points, point_id)`: whether the id was stored, and the node afterwards. */
  function Insert(n: Node, pts: map<Id, Point>, id: Id): (r: (bool, Node))
    requires id in pts
    ensures r.1.bounds == n.bounds
    ensures r.0 ==> BoundsContain(n.bounds, pts[id])
    ensures r.1.points == n.points || (|n.points| < CAPACITY && r.1.points == n.points + [id])
    ensures BoundsContain(n.bounds, pts[id]) && |n.points| < CAPACITY ==>
      r == (true, n.(points := n.points + [id]))
    ensures n.children != [] ==>
      |r.1.children| == |n.children| &&
      forall j :: 0 <= j < |n.children| ==> r.1.children[j].bounds == n.children[j].bounds
    ensures n.children == [] && r.1.children != [] ==>
      && |n.points| >= CAPACITY && BoundsContain(n.bounds, pts[id])
      && |r.1.children| == 4
      && forall j :: 0 <= j < 4 ==> r.1.children[j].bounds == Quadrant(n.bounds, j)
    decreases Height(n), |n.points|, 1
  {
    if !BoundsContain(n.bounds, pts[id]) then (false, n)
    else if |n.points| < CAPACITY then (true, n.(points := n.points + [id]))
    else
      TargetsSmaller(n);
      var res := InsertChildren(n, Targets(n), 0, pts, id);
      (res.0, n.(children := res.1))
  }

  /**
   * The `for` loop of `add` from child i on: each child is offered the id
   * in turn (and keeps whatever that did to it) until one accepts.
   */
  function InsertChildren(n: Node, kids: seq<Node>, i: nat, pts: map<Id, Point>, id: Id): (r: (bool, seq<Node>))
    requires id in pts && i <= |kids|
    requires forall j :: i <= j < |kids| ==> Smaller(kids[j], n)
    ensures |r.1| == |kids|
    ensures forall j :: 0 <= j < |kids| ==> r.1[j].bounds == kids[j].bounds
    decreases Height(n), |n.points|, 0, |kids| - i
  {
    if i == |kids| then (false, kids)
    else
      assert Smaller(kids[i], n);
      var (ok, c) := Insert(kids[i], pts, id);
      if ok then (true, kids[i := c])
      else InsertChildren(n, kids[i := c], i + 1, pts, id)
  }

  /** `add` as the source runs it: the loop over the children with an early return. */
  method Add(n: Node, pts: map<Id, Point>, id: Id) returns (added: bool, n': Node)
    requires id in pts
    ensures (added, n') == Insert(n, pts, id)
    decreases Height(n), |n.points|
  {
    if !BoundsContain(n.bounds, pts[id]) {
      return false, n;
    }
    if |n.points| < CAPACITY {
      return true, n.(points := n.points + [id]);
    }
    var children := n.children;
    if |children| == 0 {
      children := Subdivision(n.bounds);
    }
    TargetsSmaller(n);
    ghost var result := InsertChildren(n, children, 0, pts, id);
    assert Insert(n, pts, id) == (result.0, n.(children := result.1));
    var i := 0;
    while i < |children|
      invariant 0 <= i <= |children|
      invariant forall j :: i <= j < |children| ==> Smaller(children[j], n)
      invariant InsertChildren(n, children, i, pts, id) == result
    {
      var ok, child := Add(children[i], pts, id);
      children := children[i := child];
      if ok {
        return true, n.(children := children);
      }
      i := i + 1;
    }
    return false, n.(children := children);
  }

  // -----------------------------------------------------------------------
  // What insertion means

  /** A node without children or ids satisfies every node invariant. */
  lemma EmptyValid(b: Bounds, pts: map<Id, Point>)
    ensures Stored(Empty(b)) == [] && Valid(Empty(b), pts)
  {
  }

  /**
   * Under the tiling invariant a node accepts exactly the points its bounds
   * contain, edges included: a full node always finds a quadrant.
   */
  lemma {:induction false} InsertAcceptsContained(n: Node, pts: map<Id, Point>, id: Id)
    requires id in pts && Tiled(n)
    ensures Insert(n, pts, id).0 <==> BoundsContain(n.bounds, pts[id])
    decreases Height(n), |n.points|, 1
  {
    var p := pts[id];
    if BoundsContain(n.bounds, p) && |n.points| >= CAPACITY {
      TargetsSmaller(n);
      var kids := Targets(n);
      QuadrantsCover(n.bounds, p);
      var j := FirstContaining(Subdivision(n.bounds), p);
      assert kids[j].bounds == Quadrant(n.bounds, j);
      assert Tiled(kids[j]) by {
        if n.children == [] { EmptyValid(Quadrant(n.bounds, j), pts); }
      }
      InsertChildrenAccepts(n, kids, 0, pts, id, j);
    }
  }

  /** The loop over the children succeeds when some later child is tiled and holds the point. */
  lemma {:induction false} InsertChildrenAccepts(n: Node, kids: seq<Node>, i: nat, pts: map<Id, Point>, id: Id, j: nat)
    requires id in pts && i <= j < |kids|
    requires forall k :: i <= k < |kids| ==> Smaller(kids[k], n)
    requires Tiled(kids[j]) && BoundsContain(kids[j].bounds, pts[id])
    ensures InsertChildren(n, kids, i, pts, id).0
    decreases Height(n), |n.points|, 0, |kids| - i
  {
    assert Smaller(kids[i], n);
    var (ok, c) := Insert(kids[i], pts, id);
    if i == j {
      InsertAcceptsContained(kids[i], pts, id);
    } else if !ok {
      InsertChildrenAccepts(n, kids[i := c], i + 1, pts, id, j);
    }
  }

  /** A rejected id leaves the node exactly as it was, with or without invariants. */
  lemma {:induction false} InsertFailureUnchanged(n: Node, pts: map<Id, Point>, id: Id)
    requires id in pts
    ensures !Insert(n, pts, id).0 ==> Insert(n, pts, id).1 == n
    decreases Height(n), |n.points|, 1
  {
    var p := pts[id];
    if BoundsContain(n.bounds, p) && |n.points| >= CAPACITY {
      TargetsSmaller(n);
      if n.children == [] {
        QuadrantsCover(n.bounds, p);
        var j := FirstContaining(Subdivision(n.bounds), p);
        EmptyValid(Quadrant(n.bounds, j), pts);
        InsertChildrenAccepts(n, Targets(n), 0, pts, id, j);
      } else {
        InsertChildrenFailureUnchanged(n, n.children, 0, pts, id);
      }
    }
  }

  lemma {:induction false} InsertChildrenFailureUnchanged(n: Node, kids: seq<Node>, i: nat, pts: map<Id, Point>, id: Id)
    requires id in pts && i <= |kids|
    requires forall k :: i <= k < |kids| ==> Smaller(kids[k], n)
    ensures !InsertChildren(n, kids, i, pts, id).0 ==> InsertChildren(n, kids, i, pts, id).1 == kids
    decreases Height(n), |n.points|, 0, |kids| - i
  {
    if i < |kids| {
      assert Smaller(kids[i], n);
      var (ok, c) := Insert(kids[i], pts, id);
      InsertFailureUnchanged(kids[i], pts, id);
      if !ok {
        assert kids[i := c] == kids;
        InsertChildrenFailureUnchanged(n, kids, i + 1, pts, id);
      }
    }
  }

  /** An accepted id is stored exactly once more; nothing else is added or lost. */
  lemma {:induction false} InsertStoresOnce(n: Node, pts: map<Id, Point>, id: Id)
    requires id in pts
    ensures multiset(Stored(Insert(n, pts, id).1)) ==
      if Insert(n, pts, id).0 then multiset(Stored(n)) + multiset{id} else multiset(Stored(n))
    decreases Height(n), |n.points|, 1
  {
    if !BoundsContain(n.bounds, pts[id]) {
      assert Insert(n, pts, id) == (false, n);
    } else if |n.points| < CAPACITY {
      assert Insert(n, pts, id) == (true, n.(points := n.points + [id]));
      AppendStoresOnce(n, id);
    } else {
      BelowStoresOnce(n, pts, id);
    }
  }

  /** Appending to a node's own list stores the id once more. */
  lemma AppendStoresOnce(n: Node, id: Id)
    ensures multiset(Stored(n.(points := n.points + [id]))) == multiset(Stored(n)) + multiset{id}
  {
    var s := StoredAll(n.children);
    assert Stored(n.(points := n.points + [id])) == (n.points + [id]) + s;
    assert Stored(n) == n.points + s;
    assert multiset((n.points + [id]) + s) == (multiset(n.points) + multiset{id}) + multiset(s);
  }

  /** A full node that contains the point passes the id to its children. */
  lemma {:induction false} BelowStoresOnce(n: Node, pts: map<Id, Point>, id: Id)
    requires id in pts && BoundsContain(n.bounds, pts[id]) && |n.points| >= CAPACITY
    ensures multiset(Stored(Insert(n, pts, id).1)) ==
      if Insert(n, pts, id).0 then multiset(Stored(n)) + multiset{id} else multiset(Stored(n))
    decreases Height(n), |n.points|, 0, |Targets(n)| + 1
  {
    TargetsSmaller(n);
    var kids := Targets(n);
    var r := InsertChildren(n, kids, 0, pts, id);
    assert Insert(n, pts, id) == (r.0, n.(children := r.1));
    InsertChildrenStoresOnce(n, kids, 0, pts, id);
    if n.children == [] {
      StoredAllOfLeaves(kids);
    }
    PrefixKeepsTrade(n.points, StoredAll(n.children), StoredAll(r.1), id, r.0);
  }

  /** Putting the same ids in front of two lists keeps the difference between them. */
  lemma PrefixKeepsTrade(ps: seq<Id>, a: seq<Id>, b: seq<Id>, id: Id, added: bool)
    requires multiset(b) == if added then multiset(a) + multiset{id} else multiset(a)
    ensures multiset(ps + b) == if added then multiset(ps + a) + multiset{id} else multiset(ps + a)
  {
  }

  lemma {:induction false} InsertChildrenStoresOnce(n: Node, kids: seq<Node>, i: nat, pts: map<Id, Point>, id: Id)
    requires id in pts && i <= |kids|
    requires forall k :: i <= k < |kids| ==> Smaller(kids[k], n)
    ensures var r := InsertChildren(n, kids, i, pts, id);
      multiset(StoredAll(r.1)) ==
        if r.0 then multiset(StoredAll(kids)) + multiset{id} else multiset(StoredAll(kids))
    decreases Height(n), |n.points|, 0, |kids| - i
  {
    var r := InsertChildren(n, kids, i, pts, id);
    if i == |kids| {
      assert r == (false, kids);
    } else {
      assert Smaller(kids[i], n);
      var (ok, c) := Insert(kids[i], pts, id);
      InsertStoresOnce(kids[i], pts, id);
      if ok {
        assert r == (true, kids[i := c]);
        StoredAllGrow(kids, i, c, id);
      } else {
        InsertFailureUnchanged(kids[i], pts, id);
        assert kids[i := c] == kids;
        assert r == InsertChildren(n, kids, i + 1, pts, id);
        InsertChildrenStoresOnce(n, kids, i + 1, pts, id);
      }
    }
  }

  /**
   * Insertion keeps the node invariants: quadrants under every split node,
   * at most CAPACITY ids per node, and every stored point inside the bounds
   * of each node above it.
   */
  lemma {:induction false} InsertKeepsValid(n: Node, pts: map<Id, Point>, id: Id)
    requires id in pts && Valid(n, pts)
    ensures Valid(Insert(n, pts, id).1, pts)
    decreases Height(n), |n.points|, 1
  {
    var n' := Insert(n, pts, id).1;
    InsertPlacesTop(n, pts, id);
    ChildrenKeepValid(n, pts, id);
    assert Tiled(n');
    assert WithinCapacity(n');
    assert Placed(n', pts);
  }

  /** Every id stored under the node after an insertion has its point inside the node's bounds. */
  lemma InsertPlacesTop(n: Node, pts: map<Id, Point>, id: Id)
    requires id in pts && Placed(n, pts)
    ensures var n' := Insert(n, pts, id).1;
      forall x :: x in Stored(n') ==> x in pts && BoundsContain(n'.bounds, pts[x])
  {
    var n' := Insert(n, pts, id).1;
    InsertStoresOnce(n, pts, id);
    forall x | x in Stored(n')
      ensures x in pts && BoundsContain(n'.bounds, pts[x])
    {
      assert x in multiset(Stored(n'));
    }
  }

  /** The children after an insertion satisfy the invariants. */
  lemma {:induction false} ChildrenKeepValid(n: Node, pts: map<Id, Point>, id: Id)
    requires id in pts && Valid(n, pts)
    ensures var n' := Insert(n, pts, id).1;
      forall k :: 0 <= k < |n'.children| ==> Valid(n'.children[k], pts)
    decreases Height(n), |n.points|, 0
  {
    var p := pts[id];
    if BoundsContain(n.bounds, p) && |n.points| >= CAPACITY {
      TargetsSmaller(n);
      var kids := Targets(n);
      forall k | 0 <= k < |kids|
        ensures Valid(kids[k], pts)
      {
        if n.children == [] { EmptyValid(kids[k].bounds, pts); }
      }
      InsertChildrenKeepsValid(n, kids, 0, pts, id);
    }
  }

  lemma {:induction false} InsertChildrenKeepsValid(n: Node, kids: seq<Node>, i: nat, pts: map<Id, Point>, id: Id)
    requires id in pts && i <= |kids|
    requires forall k :: i <= k < |kids| ==> Smaller(kids[k], n)
    requires forall k :: 0 <= k < |kids| ==> Valid(kids[k], pts)
    ensures forall k :: 0 <= k < |kids| ==> Valid(InsertChildren(n, kids, i, pts, id).1[k], pts)
    decreases Height(n), |n.points|, 0, 0, |kids| - i
  {
    if i < |kids| {
      assert Smaller(kids[i], n);
      var (ok, c) := Insert(kids[i], pts, id);
      InsertKeepsValid(kids[i], pts, id);
      if !ok {
        InsertChildrenKeepsValid(n, kids[i := c], i + 1, pts, id);
      }
    }
  }

  /**
   * A full node of a tiled tree hands a contained point to the first of its
   * (possibly new) quadrants, in NE, SE, SW, NW order, that contains it; the
   * other children are untouched.
   */
  lemma {:induction false} InsertRoutesToFirstQuadrant(n: Node, pts: map<Id, Point>, id: Id)
    requires id in pts && Tiled(n)
    requires BoundsContain(n.bounds, pts[id]) && |n.points| >= CAPACITY
    ensures var kids := Targets(n);
      var j := FirstContaining(kids, pts[id]);
      && j < 4
      && Insert(n, pts, id) == (true, n.(children := kids[j := Insert(kids[j], pts, id).1]))
  {
    var p := pts[id];
    TargetsSmaller(n);
    var kids := Targets(n);
    QuadrantsCover(n.bounds, p);
    var j0 := FirstContaining(Subdivision(n.bounds), p);
    assert kids[j0].bounds == Quadrant(n.bounds, j0);
    var j := FirstContaining(kids, p);
    assert j <= j0 < 4;
    assert Tiled(kids[j]) by {
      if n.children == [] { EmptyValid(Quadrant(n.bounds, j), pts); }
    }
    InsertChildrenRoutes(n, kids, 0, pts, id, j);
  }

  lemma {:induction false} InsertChildrenRoutes(n: Node, kids: seq<Node>, i: nat, pts: map<Id, Point>, id: Id, j: nat)
    requires id in pts && i <= j < |kids|
    requires forall k :: i <= k < |kids| ==> Smaller(kids[k], n)
    requires Tiled(kids[j]) && BoundsContain(kids[j].bounds, pts[id])
    requires forall k :: i <= k < j ==> !BoundsContain(kids[k].bounds, pts[id])
    ensures InsertChildren(n, kids, i, pts, id) == (true, kids[j := Insert(kids[j], pts, id).1])
    decreases |kids| - i
  {
    assert Smaller(kids[i], n);
    if i == j {
      InsertAcceptsContained(kids[i], pts, id);
    } else {
      assert Insert(kids[i], pts, id) == (false, kids[i]);
      assert kids[i := kids[i]] == kids;
      InsertChildrenRoutes(n, kids, i + 1, pts, id, j);
    }
  }
}
