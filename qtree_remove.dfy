/**
 * `QTree.remove` and its `iterator` (lib/qtree.js): a breadth-first walk
 * over the nodes with a queue (`shift` the head, `push` its children) that
 * splices the first occurrence of the id out of the first node holding it.
 *
 * Nodes are values here, so the walk queues the paths from the root to the
 * nodes, and the splice rebuilds the nodes along that path.
 */
module QTreeRemove {
  import opened Outcomes
  import opened AABB
  import opened QNode

  // -----------------------------------------------------------------------
  // Splicing one node's list

  /** `indexOf`: the first position of x in s, or -1. */
  function IndexOf(s: seq<Id>, x: Id): (i: int)
    ensures -1 <= i < |s|
    ensures i == -1 <==> x !in s
    ensures 0 <= i ==> s[i] == x && x !in s[..i]
  {
    if s == [] then -1
    else if s[0] == x then 0
    else
      var k := IndexOf(s[1..], x);
      assert k >= 0 ==> s[..k + 1] == [s[0]] + s[1..][..k];
      if k == -1 then -1 else k + 1
  }

  /** `splice(i, 1)`: the list without its i-th entry. */
  function Splice(s: seq<Id>, i: nat): (r: seq<Id>)
    requires i < |s|
    ensures |r| == |s| - 1
    ensures multiset(r) + multiset{s[i]} == multiset(s)
  {
    assert s == s[..i] + [s[i]] + s[i + 1..];
    s[..i] + s[i + 1..]
  }

  /** The tree with the ids of the node at path p replaced by ps. */
  function UpdateAt(n: Node, p: Path, ps: seq<Id>): (r: Node)
    requires ValidPath(n, p)
    ensures r.bounds == n.bounds && |r.children| == |n.children|
    decreases p
  {
    if p == [] then n.(points := ps)
    else n.(children := n.children[p[0] := UpdateAt(n.children[p[0]], p[1..], ps)])
  }

  /**
   * Updating the node at p changes that node's ids and nothing else: the same
   * paths lead to nodes with the same bounds and number of children, and
   * every other node keeps its ids.
   */
  lemma {:induction false} UpdateAtOnlyThere(n: Node, p: Path, ps: seq<Id>, q: Path)
    requires ValidPath(n, p)
    ensures ValidPath(UpdateAt(n, p, ps), q) <==> ValidPath(n, q)
    ensures ValidPath(n, q) ==>
      var a, b := At(n, q), At(UpdateAt(n, p, ps), q);
      && b.bounds == a.bounds
      && |b.children| == |a.children|
      && b.points == if q == p then ps else a.points
    decreases q
  {
    var r := UpdateAt(n, p, ps);
    if q != [] {
      var j := q[0];
      if j < |n.children| {
        if p != [] && j == p[0] {
          UpdateAtOnlyThere(n.children[j], p[1..], ps, q[1..]);
          assert q == p <==> q[1..] == p[1..] by {
            if q[1..] == p[1..] { assert q == [j] + q[1..] && p == [j] + p[1..]; }
          }
        } else {
          assert r.children[j] == n.children[j];
        }
      }
    }
  }

  /** A trade made inside one part of a whole is a trade made in the whole. */
  lemma MultisetTrade<T>(fixed: multiset<T>, whole: multiset<T>, whole': multiset<T>, part: multiset<T>,
                         part': multiset<T>, given: multiset<T>, taken: multiset<T>)
    requires part' + given == part + taken
    requires whole' + part == whole + part'
    ensures (fixed + whole') + given == (fixed + whole) + taken
  {
    forall e
      ensures ((fixed + whole') + given)[e] == ((fixed + whole) + taken)[e]
    {
      assert (part' + given)[e] == (part + taken)[e];
      assert (whole' + part)[e] == (whole + part')[e];
    }
  }

  /** Replacing one node's ids by ps trades those ids for ps in the whole tree. */
  lemma {:induction false} UpdateAtStored(n: Node, p: Path, ps: seq<Id>)
    requires ValidPath(n, p)
    ensures multiset(Stored(UpdateAt(n, p, ps))) + multiset(At(n, p).points) ==
            multiset(Stored(n)) + multiset(ps)
    decreases p
  {
    var r := UpdateAt(n, p, ps);
    if p == [] {
      assert Stored(r) == ps + StoredAll(n.children);
    } else {
      var j := p[0];
      var c := n.children[j];
      var c' := UpdateAt(c, p[1..], ps);
      UpdateAtStored(c, p[1..], ps);
      StoredAllUpdate(n.children, j, c');
      assert Stored(r) == n.points + StoredAll(n.children[j := c']);
      assert multiset(Stored(r)) == multiset(n.points) + multiset(StoredAll(n.children[j := c']));
      assert multiset(Stored(n)) == multiset(n.points) + multiset(StoredAll(n.children));
      MultisetTrade(multiset(n.points), multiset(StoredAll(n.children)), multiset(StoredAll(n.children[j := c'])),
                    multiset(Stored(c)), multiset(Stored(c')), multiset(At(n, p).points), multiset(ps));
    }
  }

  /** Narrowing one node's ids to a sub-multiset stores nothing new. */
  lemma UpdateAtShrinks(n: Node, p: Path, ps: seq<Id>)
    requires ValidPath(n, p) && multiset(ps) <= multiset(At(n, p).points)
    ensures forall x :: x in Stored(UpdateAt(n, p, ps)) ==> x in Stored(n)
  {
    var r := UpdateAt(n, p, ps);
    UpdateAtStored(n, p, ps);
    forall x | x in Stored(r)
      ensures x in Stored(n)
    {
      var a, b := multiset(Stored(r)), multiset(Stored(n));
      var o, s := multiset(At(n, p).points), multiset(ps);
      assert (a + o)[x] == (b + s)[x];
    }
  }

  /** Changing one node's ids keeps the tiling. */
  lemma {:induction false} UpdateAtKeepsTiled(n: Node, p: Path, ps: seq<Id>)
    requires ValidPath(n, p) && Tiled(n)
    ensures Tiled(UpdateAt(n, p, ps))
    decreases p
  {
    if p != [] {
      UpdateAtKeepsTiled(n.children[p[0]], p[1..], ps);
    }
  }

  /** Shortening one node's list keeps every node within capacity. */
  lemma {:induction false} UpdateAtKeepsCapacity(n: Node, p: Path, ps: seq<Id>)
    requires ValidPath(n, p) && WithinCapacity(n) && |ps| <= |At(n, p).points|
    ensures WithinCapacity(UpdateAt(n, p, ps))
    decreases p
  {
    if p != [] {
      UpdateAtKeepsCapacity(n.children[p[0]], p[1..], ps);
    }
  }

  /** Narrowing one node's ids to a sub-multiset keeps every stored point placed. */
  lemma {:induction false} UpdateAtKeepsPlaced(n: Node, p: Path, ps: seq<Id>, pts: map<Id, Point>)
    requires ValidPath(n, p) && Placed(n, pts) && multiset(ps) <= multiset(At(n, p).points)
    ensures Placed(UpdateAt(n, p, ps), pts)
    decreases p
  {
    UpdateAtShrinks(n, p, ps);
    if p != [] {
      UpdateAtKeepsPlaced(n.children[p[0]], p[1..], ps, pts);
    }
  }

  /** Narrowing one node's ids to a sub-multiset keeps every node invariant. */
  lemma UpdateAtKeepsValid(n: Node, p: Path, ps: seq<Id>, pts: map<Id, Point>)
    requires ValidPath(n, p) && Valid(n, pts)
    requires multiset(ps) <= multiset(At(n, p).points) && |ps| <= |At(n, p).points|
    ensures Valid(UpdateAt(n, p, ps), pts)
  {
    UpdateAtKeepsTiled(n, p, ps);
    UpdateAtKeepsCapacity(n, p, ps);
    UpdateAtKeepsPlaced(n, p, ps, pts);
  }

  // -----------------------------------------------------------------------
  // The breadth-first walk

  /** What the walk pushes after visiting the node at p: the paths to its k children. */
  function Kids(p: Path, k: nat): (r: seq<Path>)
    ensures |r| == k && forall j :: 0 <= j < k ==> r[j] == p + [j]
  {
    seq(k, j => p + [j])
  }

  predicate IsPrefix(a: Path, b: Path) {
    |a| <= |b| && b[..|a|] == a
  }

  /**
   * The node at p is the first holder of id in breadth-first order: it holds
   * the id, and every other holder is deeper or, at the same depth, further
   * right.
   */
  ghost predicate FirstHolder(root: Node, p: Path, id: Id) {
    Holds(root, p, id) && forall q :: Holds(root, q, id) && q != p ==> Before(p, q)
  }

  /** There is at most one first holder. */
  lemma FirstHolderUnique(root: Node, p: Path, p': Path, id: Id)
    requires FirstHolder(root, p, id) && FirstHolder(root, p', id)
    ensures p == p'
  {
    if p != p' {
      assert Before(p, p') && Before(p', p);
      LexLessTransitive(p, p', p);
      LexLessIrreflexive(p);
    }
  }

  /**
   * The queue is strictly in breadth-first order, its paths are at most one
   * level apart, and those one level deeper than the head hang below nodes
   * that come before the head.
   */
  ghost predicate InBfsOrder(queue: seq<Path>) {
    && (forall j, k :: 0 <= j < k < |queue| ==> Before(queue[j], queue[k]))
    && (queue != [] ==> forall k :: 0 <= k < |queue| ==> |queue[k]| <= |queue[0]| + 1)
    && (queue != [] ==>
          forall k :: 0 <= k < |queue| && |queue[k]| == |queue[0]| + 1 ==>
            LexLess(queue[k][..|queue[0]|], queue[0]))
  }

  /**
   * What holds of the queue each time the walk is about to take its head:
   * the paths are valid, in breadth-first order, and every holder of the id
   * lies below some queued path.
   */
  ghost predicate BfsQueue(root: Node, queue: seq<Path>, id: Id) {
    && (forall k :: 0 <= k < |queue| ==> ValidPath(root, queue[k]))
    && InBfsOrder(queue)
    && (forall p :: Holds(root, p, id) ==> exists k :: 0 <= k < |queue| && IsPrefix(queue[k], p))
  }

  lemma BfsStart(root: Node, id: Id)
    ensures BfsQueue(root, [[]], id)
  {
    forall p | Holds(root, p, id)
      ensures IsPrefix([[]][0], p)
    {
    }
  }

  /** Taking a head that does not hold the id and queuing its children keeps the queue shape. */
  lemma BfsStep(root: Node, queue: seq<Path>, id: Id)
    requires BfsQueue(root, queue, id) && queue != []
    requires id !in At(root, queue[0]).points
    ensures BfsQueue(root, queue[1..] + Kids(queue[0], |At(root, queue[0]).children|), id)
  {
    var h := queue[0];
    var m := |At(root, h).children|;
    var rest := queue[1..];
    var kids := Kids(h, m);
    var next := rest + kids;
    BfsStepValid(root, queue);
    BfsStepOrdered(queue, m);
    BfsStepCovers(root, queue, id);
  }

  lemma BfsStepValid(root: Node, queue: seq<Path>)
    requires queue != [] && forall k :: 0 <= k < |queue| ==> ValidPath(root, queue[k])
    ensures var next := queue[1..] + Kids(queue[0], |At(root, queue[0]).children|);
      forall k :: 0 <= k < |next| ==> ValidPath(root, next[k])
  {
    var h := queue[0];
    var m := |At(root, h).children|;
    forall j | 0 <= j < m
      ensures ValidPath(root, h + [j])
    {
      ChildPath(root, h, j);
    }
  }

  /** Every path left in the queue comes before every child of the head. */
  lemma RestBeforeKids(queue: seq<Path>, j: nat)
    requires queue != [] && InBfsOrder(queue)
    ensures forall k :: 1 <= k < |queue| ==> Before(queue[k], queue[0] + [j])
  {
    var h := queue[0];
    var d := |h|;
    forall k | 1 <= k < |queue|
      ensures Before(queue[k], h + [j])
    {
      var a := queue[k];
      assert Before(h, a);
      if |a| == d + 1 {
        assert LexLess(a[..d], h);
        LexLessExtend(a[..d], h, a[d], j);
        assert a[..d] + [a[d]] == a;
      }
    }
  }

  /** Taking the head and queuing its m children keeps breadth-first order. */
  lemma BfsStepOrdered(queue: seq<Path>, m: nat)
    requires queue != [] && InBfsOrder(queue)
    ensures InBfsOrder(queue[1..] + Kids(queue[0], m))
  {
    var h := queue[0];
    var d := |h|;
    var rest := queue[1..];
    var next := rest + Kids(h, m);
    forall j, k | 0 <= j < k < |next|
      ensures Before(next[j], next[k])
    {
      if k < |rest| {
        assert next[j] == queue[j + 1] && next[k] == queue[k + 1];
      } else if j < |rest| {
        RestBeforeKids(queue, k - |rest|);
        assert next[j] == queue[j + 1];
        assert next[k] == h + [k - |rest|];
      } else {
        LexLessSiblings(h, j - |rest|, k - |rest|);
      }
    }
    if rest != [] {
      BfsStepLevels(queue, m);
    }
  }

  /** After a step that leaves a path of the head's level in front, the level bounds hold again. */
  lemma BfsStepLevels(queue: seq<Path>, m: nat)
    requires |queue| > 1 && InBfsOrder(queue)
    ensures var next := queue[1..] + Kids(queue[0], m);
      && (forall k :: 0 <= k < |next| ==> |next[k]| <= |next[0]| + 1)
      && (forall k :: 0 <= k < |next| && |next[k]| == |next[0]| + 1 ==>
            LexLess(next[k][..|next[0]|], next[0]))
  {
    var h := queue[0];
    var d := |h|;
    var rest := queue[1..];
    var next := rest + Kids(h, m);
    var h' := next[0];
    assert h' == queue[1] && Before(h, h');
    forall k | 0 <= k < |next|
      ensures |next[k]| <= d + 1
    {
      if k < |rest| { assert next[k] == queue[k + 1]; }
    }
    if |h'| == d {
      forall k | 0 <= k < |next| && |next[k]| == d + 1
        ensures LexLess(next[k][..d], h')
      {
        if k < |rest| {
          assert next[k] == queue[k + 1];
          LexLessTransitive(next[k][..d], h, h');
        } else {
          assert next[k] == h + [k - |rest|];
          assert next[k][..d] == h;
        }
      }
    }
  }

  lemma BfsStepCovers(root: Node, queue: seq<Path>, id: Id)
    requires BfsQueue(root, queue, id) && queue != []
    requires id !in At(root, queue[0]).points
    ensures var next := queue[1..] + Kids(queue[0], |At(root, queue[0]).children|);
      forall p :: Holds(root, p, id) ==> exists k :: 0 <= k < |next| && IsPrefix(next[k], p)
  {
    var h := queue[0];
    var d := |h|;
    var m := |At(root, h).children|;
    var rest := queue[1..];
    var next := rest + Kids(h, m);
    forall p | Holds(root, p, id)
      ensures exists k :: 0 <= k < |next| && IsPrefix(next[k], p)
    {
      var k :| 0 <= k < |queue| && IsPrefix(queue[k], p);
      if k > 0 {
        assert next[k - 1] == queue[k];
      } else {
        assert p != h;
        assert |p| > d;
        PrefixPath(root, p, d);
        assert p[..d] == h;
        var j := p[d];
        assert next[|rest| + j] == h + [j];
        assert p[..d + 1] == h + [j];
        assert IsPrefix(next[|rest| + j], p);
      }
    }
  }

  /** A head that holds the id is the first holder in breadth-first order. */
  lemma BfsFound(root: Node, queue: seq<Path>, id: Id)
    requires BfsQueue(root, queue, id) && queue != []
    requires id in At(root, queue[0]).points
    ensures FirstHolder(root, queue[0], id)
  {
    var h := queue[0];
    forall q | Holds(root, q, id) && q != h
      ensures Before(h, q)
    {
      var k :| 0 <= k < |queue| && IsPrefix(queue[k], q);
      if k == 0 {
        assert |q| > |h|;
      } else if |q| == |queue[k]| {
        assert q == queue[k];
      }
    }
  }

  /** An empty queue means no node holds the id. */
  lemma BfsEmpty(root: Node, id: Id)
    requires BfsQueue(root, [], id)
    ensures id !in Stored(root)
  {
    StoredIffHeld(root, id);
  }

  // -----------------------------------------------------------------------
  // Termination: the queued subtrees shrink by one node per step

  function Size(n: Node): nat
    decreases n
  {
    1 + SizeAll(n.children)
  }

  function SizeAll(kids: seq<Node>): nat
    decreases kids
  {
    if kids == [] then 0 else SizeAll(kids[..|kids| - 1]) + Size(kids[|kids| - 1])
  }

  /** The number of nodes in the subtrees below the queued paths. */
  function Weight(root: Node, queue: seq<Path>): nat
    requires forall k :: 0 <= k < |queue| ==> ValidPath(root, queue[k])
    decreases |queue|
  {
    if queue == [] then 0
    else Weight(root, queue[..|queue| - 1]) + Size(At(root, queue[|queue| - 1]))
  }

  lemma {:induction false} WeightAppend(root: Node, a: seq<Path>, b: seq<Path>)
    requires forall k :: 0 <= k < |a| ==> ValidPath(root, a[k])
    requires forall k :: 0 <= k < |b| ==> ValidPath(root, b[k])
    requires forall k :: 0 <= k < |a + b| ==> ValidPath(root, (a + b)[k])
    ensures Weight(root, a + b) == Weight(root, a) + Weight(root, b)
    decreases |b|
  {
    if b != [] {
      var b' := b[..|b| - 1];
      assert (a + b)[..|a + b| - 1] == a + b';
      WeightAppend(root, a, b');
    } else {
      assert a + b == a;
    }
  }

  /** The queued children of the node at p lead to its children. */
  lemma KidsAt(root: Node, p: Path, k: nat)
    requires ValidPath(root, p) && k <= |At(root, p).children|
    ensures forall j :: 0 <= j < k ==>
      ValidPath(root, Kids(p, k)[j]) && At(root, Kids(p, k)[j]) == At(root, p).children[j]
  {
    forall j | 0 <= j < k
      ensures ValidPath(root, Kids(p, k)[j]) && At(root, Kids(p, k)[j]) == At(root, p).children[j]
    {
      ChildPath(root, p, j);
    }
  }

  /** Paths leading to the nodes of c, in order, weigh what c holds. */
  lemma {:induction false} WeightOf(root: Node, queue: seq<Path>, c: seq<Node>)
    requires |queue| == |c|
    requires forall j :: 0 <= j < |queue| ==> ValidPath(root, queue[j]) && At(root, queue[j]) == c[j]
    ensures Weight(root, queue) == SizeAll(c)
    decreases |queue|
  {
    if queue != [] {
      var n := |queue|;
      WeightOf(root, queue[..n - 1], c[..n - 1]);
    }
  }

  lemma WeightKids(root: Node, p: Path, k: nat)
    requires ValidPath(root, p) && k <= |At(root, p).children|
    ensures forall j :: 0 <= j < k ==> ValidPath(root, Kids(p, k)[j])
    ensures Weight(root, Kids(p, k)) == SizeAll(At(root, p).children[..k])
  {
    KidsAt(root, p, k);
    WeightOf(root, Kids(p, k), At(root, p).children[..k]);
  }

  lemma WeightStep(root: Node, queue: seq<Path>)
    requires queue != [] && forall k :: 0 <= k < |queue| ==> ValidPath(root, queue[k])
    ensures var next := queue[1..] + Kids(queue[0], |At(root, queue[0]).children|);
      && (forall k :: 0 <= k < |next| ==> ValidPath(root, next[k]))
      && Weight(root, next) < Weight(root, queue)
  {
    var h := queue[0];
    var c := At(root, h).children;
    BfsStepValid(root, queue);
    WeightKids(root, h, |c|);
    assert c[..|c|] == c;
    WeightAppend(root, [h], queue[1..]);
    assert [h] + queue[1..] == queue;
    WeightAppend(root, queue[1..], Kids(h, |c|));
  }

  // -----------------------------------------------------------------------
  // remove

  /** The tree after splicing the first occurrence of id out of the node at p. */
  function SpliceAt(root: Node, p: Path, id: Id): (r: Node)
    requires Holds(root, p, id)
    ensures r.bounds == root.bounds && |r.children| == |root.children|
  {
    var ps := At(root, p).points;
    UpdateAt(root, p, Splice(ps, IndexOf(ps, id)))
  }

  /**
   * At the holder, the splice leaves a list one shorter with one occurrence
   * of the id fewer; every other node keeps its list.
   */
  lemma SpliceAtHolder(root: Node, p: Path, id: Id, q: Path)
    requires Holds(root, p, id)
    ensures ValidPath(SpliceAt(root, p, id), q) <==> ValidPath(root, q)
    ensures ValidPath(root, q) && q != p ==> At(SpliceAt(root, p, id), q).points == At(root, q).points
    ensures q == p ==>
      && |At(SpliceAt(root, p, id), p).points| == |At(root, p).points| - 1
      && multiset(At(SpliceAt(root, p, id), p).points) == multiset(At(root, p).points) - multiset{id}
  {
    var ps := At(root, p).points;
    UpdateAtOnlyThere(root, p, Splice(ps, IndexOf(ps, id)), q);
  }

  /**
   * `remove(qtree, points, point_id)`: walks the nodes breadth-first, root
   * first and children in NE, SE, SW, NW order, and splices the first
   * occurrence out of the first node holding the id. When no node holds it
   * the queue runs dry and reading `children` of `undefined` throws, so the
   * `return false` of the source is never reached. The store is not read.
   */
  method Remove(root: Node, pts: map<Id, Point>, id: Id) returns (r: Result<Node>, ghost at: Path)
    ensures r.Err? <==> id !in Stored(root)
    ensures r.Err? ==> r.error == ReadOfUndefined
    ensures r.Ok? ==> FirstHolder(root, at, id) && r.value == SpliceAt(root, at, id)
    ensures r.Ok? ==> multiset(Stored(r.value)) == multiset(Stored(root)) - multiset{id}
    ensures r.Ok? && Valid(root, pts) ==> Valid(r.value, pts)
  {
    var queue: seq<Path> := [[]];
    BfsStart(root, id);
    while queue != []
      invariant BfsQueue(root, queue, id)
      decreases Weight(root, queue)
    {
      var path := queue[0];
      var tree := At(root, path);
      var next := queue[1..] + Kids(path, |tree.children|);
      WeightStep(root, queue);
      var index := IndexOf(tree.points, id);
      if index > -1 {
        BfsFound(root, queue, id);
        SpliceAtStored(root, path, id);
        SpliceAtKeepsValid(root, path, id, pts);
        return Ok(SpliceAt(root, path, id)), path;
      }
      BfsStep(root, queue, id);
      queue := next;
    }
    BfsEmpty(root, id);
    return Err(ReadOfUndefined), [];
  }

  /** Splicing at a holder removes exactly one occurrence of the id from the tree. */
  lemma SpliceAtStored(root: Node, p: Path, id: Id)
    requires Holds(root, p, id)
    ensures id in Stored(root)
    ensures multiset(Stored(SpliceAt(root, p, id))) == multiset(Stored(root)) - multiset{id}
  {
    var ps := At(root, p).points;
    var s := Splice(ps, IndexOf(ps, id));
    UpdateAtStored(root, p, s);
    StoredIffHeld(root, id);
    var a, b := multiset(Stored(SpliceAt(root, p, id))), multiset(Stored(root));
    assert a + (multiset(s) + multiset{id}) == b + multiset(s);
    MultisetCancel(a + multiset{id}, b, multiset(s));
    assert id in b;
  }

  lemma SpliceAtKeepsValid(root: Node, p: Path, id: Id, pts: map<Id, Point>)
    requires Holds(root, p, id)
    ensures Valid(root, pts) ==> Valid(SpliceAt(root, p, id), pts)
  {
    if Valid(root, pts) {
      var ps := At(root, p).points;
      UpdateAtKeepsValid(root, p, Splice(ps, IndexOf(ps, id)), pts);
    }
  }

  /** With ids stored at most once, a removed id is gone from every node. */
  lemma RemovedIdGone(root: Node, p: Path, id: Id)
    requires Holds(root, p, id) && multiset(Stored(root))[id] <= 1
    ensures id !in Stored(SpliceAt(root, p, id))
  {
    SpliceAtStored(root, p, id);
  }
}
