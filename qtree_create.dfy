/**
 * `QTree.qtree` and `QTree.create` (lib/qtree.js): an empty node over some
 * bounds, and the object `create` returns, which is itself the root node
 * and carries a store of point objects keyed by generated ids, a counter
 * for those ids, and `add`, `remove`, `query` and `reset` methods that call
 * the free functions on itself.
 */
module QTreeCreate {
  import opened Outcomes
  import opened AABB
  import opened QNode
  import QTreeAdd
  import QTreeQuery
  import QTreeRemove

  /**
   * `qtree(aabb)`: an empty node over a bare bounds array, over the `bounds`
   * of a wrapper object, or over the whole plane when no bounds are given.
   * The bounds are taken as they are, not normalized.
   */
  function MakeNode(aabb: Option<RectArg>): (n: Node)
    reads if aabb.Some? then {aabb.value.Unwrap()} else {}
    requires aabb.Some? ==> aabb.value.Unwrap().Length == 4
    ensures n.points == [] && n.children == []
    ensures aabb.None? ==> n.bounds == Unbounded
    ensures aabb.Some? && aabb.value.Raw? ==> n.bounds == Finite(aabb.value.rect[..])
    ensures aabb.Some? && aabb.value.Wrapped? ==> n.bounds == Finite(aabb.value.box.bounds[..])
  {
    match aabb
    case None => Empty(Unbounded)
    case Some(arg) => Empty(Finite(arg.Unwrap()[..]))
  }

  /** A fresh node meets every node invariant, whatever the store. */
  lemma MakeNodeValid(aabb: Option<RectArg>, pts: map<Id, Point>)
    requires aabb.Some? ==> aabb.value.Unwrap().Length == 4
    ensures Stored(MakeNode(aabb)) == [] && Valid(MakeNode(aabb), pts)
  {
    QTreeAdd.EmptyValid(MakeNode(aabb).bounds, pts);
  }

  /**
   * Since the bounds are not normalized, a node over bounds whose edges are
   * given the wrong way round contains no point at all, so it accepts none.
   */
  lemma UnnormalizedAcceptsNothing(r: Rect, pts: map<Id, Point>, id: Id)
    requires !IsNormal(r) && id in pts
    ensures !QTreeAdd.Insert(Empty(Finite(r)), pts, id).0
  {
  }

  // -----------------------------------------------------------------------
  // Generated ids

  function Digit(d: nat): char
    requires d < 10
  {
    (d + '0' as int) as char
  }

  /** The decimal numeral of n, as JavaScript's string concatenation writes it. */
  function Decimal(n: nat): (s: string)
    ensures 1 <= |s| && (|s| == 1 <==> n < 10)
    decreases n
  {
    if n < 10 then [Digit(n)] else Decimal(n / 10) + [Digit(n % 10)]
  }

  /** Different numbers have different numerals. */
  lemma {:induction false} DecimalInjective(a: nat, b: nat)
    requires Decimal(a) == Decimal(b)
    ensures a == b
    decreases a
  {
    if a >= 10 {
      var s := Decimal(a);
      assert s[..|s| - 1] == Decimal(a / 10) && s[|s| - 1] == Digit(a % 10);
      assert s[..|s| - 1] == Decimal(b / 10) && s[|s| - 1] == Digit(b % 10);
      DecimalInjective(a / 10, b / 10);
    }
  }

  /** A numeral is made of decimal digits, and has no leading zero unless n is 0. */
  lemma {:induction false} DecimalDigits(n: nat)
    ensures forall k :: 0 <= k < |Decimal(n)| ==> '0' <= Decimal(n)[k] <= '9'
    ensures n > 0 ==> Decimal(n)[0] != '0'
    decreases n
  {
    if n >= 10 {
      DecimalDigits(n / 10);
      assert Decimal(n) == Decimal(n / 10) + [Digit(n % 10)];
    }
  }

  /** The id of the n-th point: `"point_" + n`. */
  function IdOf(n: nat): Id {
    "point_" + Decimal(n)
  }

  /** An id is `point_` followed by the digits of its counter, without leading zeros. */
  lemma IdOfShape(n: nat)
    ensures |IdOf(n)| > 6 && IdOf(n)[..6] == "point_" && IdOf(n)[6..] == Decimal(n)
    ensures forall k :: 6 <= k < |IdOf(n)| ==> '0' <= IdOf(n)[k] <= '9'
    ensures n > 0 ==> IdOf(n)[6] != '0'
  {
    DecimalDigits(n);
    assert forall k :: 6 <= k < |IdOf(n)| ==> IdOf(n)[k] == Decimal(n)[k - 6];
  }

  lemma IdOfInjective(a: nat, b: nat)
    requires IdOf(a) == IdOf(b)
    ensures a == b
  {
    assert Decimal(a) == IdOf(a)[6..] && Decimal(b) == IdOf(b)[6..];
    DecimalInjective(a, b);
  }

  lemma IdScenarios()
    ensures IdOf(1) == "point_1" && IdOf(2) == "point_2" && IdOf(12) == "point_12"
  {
  }

  // -----------------------------------------------------------------------
  // Point objects and the store

  /** A caller's point object: its coordinates, and the `_id` that `add` writes into it. */
  class Item {
    const pos: Point
    var tag: Option<Id>

    constructor (pos: Point)
      ensures this.pos == pos && tag == None
    {
      this.pos := pos;
      tag := None;
    }
  }

  /** The coordinates of the stored point objects, by id. */
  function Positions(store: map<Id, Item>): (pts: map<Id, Point>)
    ensures pts.Keys == store.Keys
    ensures forall id :: id in store ==> pts[id] == store[id].pos
  {
    map id | id in store :: store[id].pos
  }

  lemma PositionsUpdate(store: map<Id, Item>, id: Id, item: Item)
    ensures Positions(store[id := item]) == Positions(store)[id := item.pos]
  {
  }

  lemma PositionsRemove(store: map<Id, Item>, id: Id)
    ensures Positions(store - {id}) == Positions(store) - {id}
  {
  }

  // -----------------------------------------------------------------------
  // The invariant of the object `create` returns, over plain values

  /**
   * The node invariants hold over the stored points, no id is stored twice,
   * and every id with a point is one issued so far.
   */
  ghost predicate Consistent(root: Node, pts: map<Id, Point>, issued: nat) {
    Valid(root, pts) && Unique(root) && pts.Keys <= IssuedIds(issued)
  }

  /** No id is stored twice. */
  ghost predicate Unique(root: Node) {
    forall id :: multiset(Stored(root))[id] <= 1
  }

  lemma MakeNodeConsistent(aabb: Option<RectArg>, issued: nat)
    requires aabb.Some? ==> aabb.value.Unwrap().Length == 4
    ensures Consistent(MakeNode(aabb), map[], issued)
  {
    MakeNodeValid(aabb, map[]);
  }

  /** The ids issued by the first n calls of `add`. */
  function IssuedIds(n: nat): set<Id>
  {
    if n == 0 then {} else IssuedIds(n - 1) + {IdOf(n)}
  }

  /** An id issued later is not among those issued so far. */
  lemma {:induction false} NotIssued(m: nat, n: nat)
    requires m > n
    ensures IdOf(m) !in IssuedIds(n)
  {
    if n > 0 {
      NotIssued(m, n - 1);
      if IdOf(m) == IdOf(n) {
        IdOfInjective(m, n);
      }
    }
  }

  /** Inserting an id not yet stored keeps every id stored at most once. */
  lemma InsertKeepsUnique(root: Node, pts: map<Id, Point>, id: Id)
    requires id in pts && id !in Stored(root)
    requires Unique(root)
    ensures Unique(QTreeAdd.Insert(root, pts, id).1)
  {
    QTreeAdd.InsertStoresOnce(root, pts, id);
    forall x
      ensures multiset(Stored(QTreeAdd.Insert(root, pts, id).1))[x] <= 1
    {
      assert multiset(Stored(root))[x] <= 1;
    }
  }

  /** Inserting an id whose point is new to the store keeps the node invariants. */
  lemma InsertKeepsNodes(root: Node, pts: map<Id, Point>, pts': map<Id, Point>, id: Id)
    requires Valid(root, pts) && id !in pts && id in pts' && pts' == pts[id := pts'[id]]
    ensures Valid(QTreeAdd.Insert(root, pts', id).1, pts')
    ensures QTreeAdd.Insert(root, pts', id).0 <==> BoundsContain(root.bounds, pts'[id])
  {
    ValidAgree(root, pts, pts');
    QTreeAdd.InsertKeepsValid(root, pts', id);
    QTreeAdd.InsertAcceptsContained(root, pts', id);
  }

  /** The next id is new, so adding its point keeps the invariant and stores it at most once. */
  lemma AddConsistent(root: Node, pts: map<Id, Point>, pts': map<Id, Point>, issued: nat, p: Point)
    requires Consistent(root, pts, issued) && pts' == pts[IdOf(issued + 1) := p]
    ensures IdOf(issued + 1) !in pts && IdOf(issued + 1) !in Stored(root)
    ensures QTreeAdd.Insert(root, pts', IdOf(issued + 1)).0 <==> BoundsContain(root.bounds, p)
    ensures Consistent(QTreeAdd.Insert(root, pts', IdOf(issued + 1)).1, pts', issued + 1)
  {
    var id := IdOf(issued + 1);
    NotIssued(issued + 1, issued);
    InsertKeepsNodes(root, pts, pts', id);
    InsertKeepsUnique(root, pts', id);
  }

  /** Splicing out a stored id and dropping its point keeps the invariant; the id is gone. */
  lemma RemoveConsistent(root: Node, pts: map<Id, Point>, issued: nat, at: Path, id: Id)
    requires Consistent(root, pts, issued) && Holds(root, at, id)
    ensures var root' := QTreeRemove.SpliceAt(root, at, id);
      && id !in Stored(root')
      && Consistent(root', pts - {id}, issued)
  {
    var root' := QTreeRemove.SpliceAt(root, at, id);
    var pts' := pts - {id};
    QTreeRemove.RemovedIdGone(root, at, id);
    QTreeRemove.SpliceAtStored(root, at, id);
    QTreeRemove.SpliceAtKeepsValid(root, at, id, pts);
    forall x | x in Stored(root')
      ensures x in pts && x in pts' && pts'[x] == pts[x]
    {
      assert x in multiset(Stored(root'));
      assert x in multiset(Stored(root));
    }
    ValidAgree(root', pts, pts');
    forall x
      ensures multiset(Stored(root'))[x] <= 1
    {
      assert multiset(Stored(root))[x] <= 1;
    }
  }

  // -----------------------------------------------------------------------
  // `add` and `remove` of the object `create` returns, on its state as values

  /**
   * The state change of `add(point)`: the next id, the store with the point
   * object registered under it (even when the tree rejects the point), and
   * the tree after inserting the id.
   */
  method AddPoint(root: Node, store: map<Id, Item>, issued: nat, item: Item)
    returns (added: bool, root': Node, store': map<Id, Item>)
    requires Consistent(root, Positions(store), issued)
    ensures store' == store[IdOf(issued + 1) := item]
    ensures (added, root') == QTreeAdd.Insert(root, Positions(store'), IdOf(issued + 1))
    ensures added <==> BoundsContain(root.bounds, item.pos)
    ensures Consistent(root', Positions(store'), issued + 1)
  {
    var pts := Positions(store);
    var id := IdOf(issued + 1);
    var pts' := pts[id := item.pos];
    AddConsistent(root, pts, pts', issued, item.pos);
    added, root' := QTreeAdd.Add(root, pts', id);
    PositionsUpdate(store, id, item);
    store' := store[id := item];
  }

  /**
   * The state change of `remove(point)`: without an id, or with one no node
   * holds, the walk throws before the store is touched; otherwise the id is
   * spliced out of its first holder and then dropped from the store.
   */
  method RemovePoint(root: Node, store: map<Id, Item>, issued: nat, tag: Option<Id>)
    returns (r: Result<(Node, map<Id, Item>)>, ghost at: Path)
    requires Consistent(root, Positions(store), issued)
    ensures r.Err? <==> tag.None? || tag.value !in Stored(root)
    ensures r.Err? ==> r.error == ReadOfUndefined
    ensures r.Ok? ==> r.value.1 == store - {tag.value}
    ensures r.Ok? ==>
      QTreeRemove.FirstHolder(root, at, tag.value) &&
      r.value.0 == QTreeRemove.SpliceAt(root, at, tag.value)
    ensures r.Ok? ==> Consistent(r.value.0, Positions(r.value.1), issued)
  {
    if tag.None? {
      return Err(ReadOfUndefined), [];
    }
    var id := tag.value;
    var pts := Positions(store);
    ghost var held := Stored(root);
    var res, path := QTreeRemove.Remove(root, pts, id);
    if res.Err? {
      return Err(res.error), [];
    }
    assert id in held;
    RemoveConsistent(root, pts, issued, path, id);
    PositionsRemove(store, id);
    return Ok((res.value, store - {id})), path;
  }

  // -----------------------------------------------------------------------
  // The object `create` returns

  /** The root node `create` returns, with `_points` as `store` and `_sequence_id` as `sequenceId`. */
  class Tree {
    var points: seq<Id>
    var children: seq<Node>
    var bounds: Bounds
    var store: map<Id, Item>
    var sequenceId: nat

    /** The node part of the object, as the free functions see it. */
    function Root(): Node
      reads this
    {
      Node(points, children, bounds)
    }

    /** The invariant, over the object's fields. */
    ghost predicate Valid()
      reads this
    {
      Consistent(Root(), Positions(store), sequenceId)
    }

    /** `create(bounds)`: a node as `qtree(bounds)` makes it, an empty store and the counter at 0. */
    constructor (aabb: Option<RectArg>)
      requires aabb.Some? ==> aabb.value.Unwrap().Length == 4
      ensures Root() == MakeNode(aabb) && store == map[] && sequenceId == 0
      ensures Valid()
    {
      var n := MakeNode(aabb);
      points, children, bounds := n.points, n.children, n.bounds;
      store := map[];
      sequenceId := 0;
      new;
      MakeNodeConsistent(aabb, 0);
      assert Positions(store) == map[];
    }

    /**
     * `add(point)`: advances the counter, writes the new id into the point
     * object, registers the object under it (even when the tree then
     * rejects it) and adds the id to the tree.
     */
    method Add(item: Item) returns (added: bool)
      requires Valid()
      modifies this, item
      ensures sequenceId == old(sequenceId) + 1
      ensures item.tag == Some(IdOf(sequenceId))
      ensures store == old(store)[IdOf(sequenceId) := item]
      ensures (added, Root()) == QTreeAdd.Insert(old(Root()), Positions(store), IdOf(sequenceId))
      ensures added <==> BoundsContain(bounds, item.pos)
      ensures Valid()
    {
      var root, st0, n := Root(), store, sequenceId;
      item.tag := Some(IdOf(n + 1));
      var ok, after, st := AddPoint(root, st0, n, item);
      sequenceId, store, points, children, bounds := n + 1, st, after.points, after.children, after.bounds;
      assert Root() == after;
      return ok;
    }

    /**
     * `remove(point)`: removes the id written into the point object from
     * the tree and then from the store. A point object without an id, or
     * one whose id no node holds, makes the walk throw before the store is
     * touched.
     */
    method Remove(item: Item) returns (r: Result<bool>, ghost at: Path)
      requires Valid()
      modifies this
      ensures r.Err? <==> item.tag.None? || item.tag.value !in old(Stored(Root()))
      ensures r.Err? ==> r.error == ReadOfUndefined && Root() == old(Root()) && store == old(store)
      ensures r.Ok? ==> r.value && store == old(store) - {item.tag.value}
      ensures r.Ok? ==>
        QTreeRemove.FirstHolder(old(Root()), at, item.tag.value) &&
        Root() == QTreeRemove.SpliceAt(old(Root()), at, item.tag.value)
      ensures sequenceId == old(sequenceId)
      ensures Valid()
    {
      var res, path := RemovePoint(Root(), store, sequenceId, item.tag);
      at := path;
      if res.Err? {
        return Err(res.error), at;
      }
      var after := res.value.0;
      store, points, children, bounds := res.value.1, after.points, after.children, after.bounds;
      assert Root() == after;
      return Ok(true), at;
    }

    /**
     * `query(bounds)`: the point objects of the ids `query` finds, in the
     * same order; all and only the stored points inside the rectangle.
     */
    method Query(q: Rect) returns (found: seq<Item>)
      requires Valid()
      ensures var ids := QTreeQuery.Query(Root(), Positions(store), q);
        |found| == |ids| && forall k :: 0 <= k < |ids| ==> ids[k] in store && found[k] == store[ids[k]]
      ensures forall k :: 0 <= k < |found| ==> Contains(q, found[k].pos)
      ensures forall id :: id in Stored(Root()) && Contains(q, Positions(store)[id]) ==> store[id] in found
    {
      var ids := QTreeQuery.Query(Root(), Positions(store), q);
      QTreeQuery.QueryIsFilter(Root(), Positions(store), q);
      var st := store;
      found := seq(|ids|, k requires 0 <= k < |ids| => st[ids[k]]);
      forall id | id in Stored(Root()) && Contains(q, Positions(store)[id])
        ensures store[id] in found
      {
        QTreeQuery.QueryComplete(Root(), Positions(store), q, id);
        var k :| 0 <= k < |ids| && ids[k] == id;
        assert found[k] == store[id];
      }
    }

    /**
     * `reset(bounds)`: with bounds, calls a `normalize` that the tree object
     * does not have and throws before changing anything; without, empties
     * the tree and the store and sets the counter to 1, so the next id is
     * "point_2".
     */
    method Reset(aabb: Option<RectArg>) returns (r: Result<Tree>)
      requires Valid()
      modifies this
      ensures aabb.Some? ==> r == Err(NotAFunction) && unchanged(this)
      ensures aabb.None? ==> r == Ok(this) && Root() == Empty(old(bounds)) && store == map[] && sequenceId == 1
      ensures Valid()
    {
      if aabb.Some? {
        return Err(NotAFunction);
      }
      children := [];
      points := [];
      store := map[];
      sequenceId := 1;
      QTreeAdd.EmptyValid(bounds, Positions(store));
      return Ok(this);
    }
  }
}
