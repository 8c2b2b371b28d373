/**
 * `QTree.query` (lib/qtree.js): the pruned pre-order search for the ids
 * whose points lie in a rectangle.
 */
module QTreeQuery {
  import opened AABB
  import opened QNode

  /** Every id stored under the node has a point in the store. */
  predicate Known(n: Node, pts: map<Id, Point>) {
    forall id :: id in Stored(n) ==> id in pts
  }

  /** The ids of `ids`, in order, whose points lie in q (the `forEach` over a node's points). */
  function Inside(ids: seq<Id>, pts: map<Id, Point>, q: Rect): (r: seq<Id>)
    requires forall id :: id in ids ==> id in pts
    ensures |r| <= |ids|
    ensures forall id :: id in r <==> id in ids && Contains(q, pts[id])
  {
    if ids == [] then []
    else (if Contains(q, pts[ids[0]]) then [ids[0]] else []) + Inside(ids[1..], pts, q)
  }

  lemma {:induction false} InsideAppend(a: seq<Id>, b: seq<Id>, pts: map<Id, Point>, q: Rect)
    requires forall id :: id in a + b ==> id in pts
    ensures Inside(a + b, pts, q) == Inside(a, pts, q) + Inside(b, pts, q)
    decreases a
  {
    if a == [] {
      assert a + b == b;
    } else {
      assert (a + b)[1..] == a[1..] + b;
      InsideAppend(a[1..], b, pts, q);
    }
  }

  /**
   * `query(qtree, points, bounds)`: nothing from a node whose bounds miss the
   * rectangle, else its own matching ids followed by each child's results.
   * Every result is a stored id whose point lies in the rectangle.
   */
  function Query(n: Node, pts: map<Id, Point>, q: Rect): (r: seq<Id>)
    requires Known(n, pts)
    ensures forall id :: id in r ==> id in Stored(n) && Contains(q, pts[id])
    decreases n
  {
    if !BoundsIntersect(n.bounds, q) then []
    else Inside(n.points, pts, q) + QueryAll(n.children, pts, q)
  }

  /** The `reduce` over the children: their results concatenated in child order. */
  function QueryAll(kids: seq<Node>, pts: map<Id, Point>, q: Rect): (r: seq<Id>)
    requires forall id :: id in StoredAll(kids) ==> id in pts
    ensures forall id :: id in r ==> id in StoredAll(kids) && Contains(q, pts[id])
    decreases kids
  {
    if kids == [] then []
    else Query(kids[0], pts, q) + QueryAll(kids[1..], pts, q)
  }

  /** No id in a list whose points all lie outside q survives the filter. */
  lemma {:induction false} InsideNone(ids: seq<Id>, pts: map<Id, Point>, q: Rect)
    requires forall id :: id in ids ==> id in pts && !Contains(q, pts[id])
    ensures Inside(ids, pts, q) == []
    decreases ids
  {
    if ids != [] {
      InsideNone(ids[1..], pts, q);
    }
  }

  /**
   * Under the placement invariant, pruning loses nothing: the query returns
   * exactly the stored ids, in pre-order, whose points lie in the rectangle.
   */
  lemma {:induction false} QueryIsFilter(n: Node, pts: map<Id, Point>, q: Rect)
    requires Placed(n, pts)
    ensures Known(n, pts)
    ensures Query(n, pts, q) == Inside(Stored(n), pts, q)
    decreases n
  {
    if !BoundsIntersect(n.bounds, q) {
      forall id | id in Stored(n)
        ensures !Contains(q, pts[id])
      {
        assert BoundsContain(n.bounds, pts[id]);
      }
      InsideNone(Stored(n), pts, q);
    } else {
      InsideAppend(n.points, StoredAll(n.children), pts, q);
      QueryAllIsFilter(n.children, pts, q);
    }
  }

  lemma {:induction false} QueryAllIsFilter(kids: seq<Node>, pts: map<Id, Point>, q: Rect)
    requires forall k :: 0 <= k < |kids| ==> Placed(kids[k], pts)
    ensures forall id :: id in StoredAll(kids) ==> id in pts
    ensures QueryAll(kids, pts, q) == Inside(StoredAll(kids), pts, q)
    decreases kids
  {
    if kids != [] {
      QueryIsFilter(kids[0], pts, q);
      QueryAllIsFilter(kids[1..], pts, q);
      InsideAppend(Stored(kids[0]), StoredAll(kids[1..]), pts, q);
    }
  }

  /**
   * Completeness and soundness together: under the placement invariant an
   * id is returned exactly when it is stored and its point lies in q.
   */
  lemma QueryComplete(n: Node, pts: map<Id, Point>, q: Rect, id: Id)
    requires Placed(n, pts)
    ensures Known(n, pts)
    ensures id in Query(n, pts, q) <==> id in Stored(n) && Contains(q, pts[id])
  {
    QueryIsFilter(n, pts, q);
  }
}
