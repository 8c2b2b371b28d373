/**
 * Axis-aligned bounding boxes (lib/aabb.js).
 *
 * A rectangle is four numbers in the slot order TOP, RIGHT, BOTTOM, LEFT;
 * the y axis grows downwards, so a normalized rectangle has TOP <= BOTTOM and
 * LEFT <= RIGHT. `normalize` and `_swap` overwrite slots of a caller's array,
 * so they are methods over `array<real>`; the predicates only read four
 * numbers and take the rectangle as a value.
 */
module AABB {

  const TOP: nat := 0
  const RIGHT: nat := 1
  const BOTTOM: nat := 2
  const LEFT: nat := 3

  /** The contents of a bounds array: exactly the four slots above. */
  type Rect = s: seq<real> | |s| == 4 witness [0.0, 0.0, 0.0, 0.0]

  /** The coordinates of a point object; its other properties are not read here. */
  datatype Point = Point(x: real, y: real)

  function Min(a: real, b: real): real { if a <= b then a else b }
  function Max(a: real, b: real): real { if a <= b then b else a }

  predicate IsNormal(r: Rect) {
    r[TOP] <= r[BOTTOM] && r[LEFT] <= r[RIGHT]
  }

  /** `_swap`: exchange two slots of an array, in place. */
  method Swap(collection: array<real>, indexA: nat, indexB: nat)
    requires indexA < collection.Length && indexB < collection.Length
    modifies collection
    ensures collection[indexA] == old(collection[indexB])
    ensures collection[indexB] == old(collection[indexA])
    ensures forall k :: 0 <= k < collection.Length && k != indexA && k != indexB ==>
              collection[k] == old(collection[k])
  {
    var valueA := collection[indexA];
    collection[indexA] := collection[indexB];
    collection[indexB] := valueA;
  }

  /**
   * The rectangle `normalize` leaves behind: the smaller of TOP and BOTTOM
   * in TOP, the smaller of LEFT and RIGHT in LEFT.
   */
  function Normalized(r: Rect): (n: Rect)
    ensures IsNormal(n)
    ensures n[TOP] == Min(r[TOP], r[BOTTOM]) && n[BOTTOM] == Max(r[TOP], r[BOTTOM])
    ensures n[LEFT] == Min(r[LEFT], r[RIGHT]) && n[RIGHT] == Max(r[LEFT], r[RIGHT])
  {
    var v := if r[TOP] > r[BOTTOM] then r[TOP := r[BOTTOM]][BOTTOM := r[TOP]] else r;
    if v[LEFT] > v[RIGHT] then v[LEFT := v[RIGHT]][RIGHT := v[LEFT]] else v
  }

  /** `normalize`: orders both pairs in place and hands back the same array. */
  method Normalize(bounds: array<real>) returns (same: array<real>)
    requires bounds.Length == 4
    modifies bounds
    ensures same == bounds
    ensures bounds[..] == Normalized(old(bounds[..]))
  {
    if bounds[TOP] > bounds[BOTTOM] {
      Swap(bounds, TOP, BOTTOM);
    }
    if bounds[LEFT] > bounds[RIGHT] {
      Swap(bounds, LEFT, RIGHT);
    }
    return bounds;
  }

  /** A normalized rectangle is a fixed point of `normalize`. */
  lemma NormalizedKeepsNormal(r: Rect)
    requires IsNormal(r)
    ensures Normalized(r) == r
  {
    var n := Normalized(r);
    assert forall k :: 0 <= k < 4 ==> n[k] == r[k];
  }

  /** Normalizing twice is normalizing once. */
  lemma NormalizedIdempotent(r: Rect)
    ensures Normalized(Normalized(r)) == Normalized(r)
  {
    NormalizedKeepsNormal(Normalized(r));
  }

  /** The point lies in the rectangle, edges included. */
  predicate InRect(r: Rect, p: Point) {
    r[LEFT] <= p.x <= r[RIGHT] && r[TOP] <= p.y <= r[BOTTOM]
  }

  /** The corner where the overlap of two normalized rectangles starts. */
  function OverlapCorner(a: Rect, b: Rect): Point {
    Point(Max(a[LEFT], b[LEFT]), Max(a[TOP], b[TOP]))
  }

  /**
   * `_point_as_bounds`: the degenerate rectangle [y, x, y, x], a normalized
   * rectangle in which the point itself is the only point.
   */
  function PointAsBounds(p: Point): (r: Rect)
    ensures IsNormal(r)
    ensures forall q :: InRect(r, q) <==> q == p
  {
    [p.y, p.x, p.y, p.x]
  }

  /**
   * `outside`: one of four strict comparisons separates b from a. Separated
   * rectangles share no point; for normalized ones that are not separated,
   * the overlap corner lies in both.
   */
  predicate Outside(a: Rect, b: Rect): (r: bool)
    ensures r ==> forall q :: !(InRect(a, q) && InRect(b, q))
    ensures !r && IsNormal(a) && IsNormal(b) ==>
      InRect(a, OverlapCorner(a, b)) && InRect(b, OverlapCorner(a, b))
  {
    b[RIGHT] < a[LEFT] ||
    b[LEFT] > a[RIGHT] ||
    b[TOP] > a[BOTTOM] ||
    b[BOTTOM] < a[TOP]
  }

  /**
   * `intersects`: the negation of `outside`, so touching edges intersect.
   * Two normalized rectangles intersect exactly when their overlap corner
   * lies in both.
   */
  predicate Intersects(a: Rect, b: Rect): (r: bool)
    ensures IsNormal(a) && IsNormal(b) ==>
      (r <==> InRect(a, OverlapCorner(a, b)) && InRect(b, OverlapCorner(a, b)))
  {
    !Outside(a, b)
  }

  /**
   * `contains`: the point, as a degenerate rectangle, intersects the
   * rectangle, which is the same as lying in it with all four edges included.
   */
  function Contains(r: Rect, p: Point): (b: bool)
    ensures b <==> InRect(r, p)
  {
    Intersects(r, PointAsBounds(p))
  }

  /** `outside` does not depend on the order of its arguments. */
  lemma OutsideSymmetric(a: Rect, b: Rect)
    ensures Outside(a, b) == Outside(b, a)
  {
  }

  /**
   * Two normalized rectangles intersect exactly when some point lies in
   * both, edges included.
   */
  lemma IntersectsIffCommonPoint(a: Rect, b: Rect)
    requires IsNormal(a) && IsNormal(b)
    ensures Intersects(a, b) <==> exists p :: Contains(a, p) && Contains(b, p)
  {
    if Intersects(a, b) {
      var p := OverlapCorner(a, b);
      assert Contains(a, p) && Contains(b, p);
    }
  }

  /** A point lying in two rectangles proves that they intersect. */
  lemma CommonPointIntersects(a: Rect, b: Rect, p: Point)
    requires Contains(a, p) && Contains(b, p)
    ensures Intersects(a, b)
  {
  }

  /** The centre of a normalized rectangle lies in it. */
  lemma ContainsCentre(r: Rect)
    requires IsNormal(r)
    ensures Contains(r, Point(r[RIGHT] - (r[RIGHT] - r[LEFT]) / 2.0, r[BOTTOM] - (r[BOTTOM] - r[TOP]) / 2.0))
  {
  }

  /** The fixed rectangles of the intersection scenarios, edge contact included. */
  lemma IntersectionScenarios()
    ensures Intersects(Normalized([0.0, 20.0, 20.0, 0.0]), Normalized([-10.0, 10.0, 20.0, -10.0]))
    ensures Outside(Normalized([-20.0, 0.0, 0.0, -20.0]), Normalized([0.0, 20.0, 0.0, 20.0]))
    ensures Intersects([0.0, 10.0, 10.0, 0.0], [0.0, 20.0, 10.0, 10.0])
  {
  }

  /**
   * What `create` and the wrapper methods accept: a bare bounds array, or a
   * wrapper object whose `bounds` property is used instead.
   */
  datatype RectArg = Raw(rect: array<real>) | Wrapped(box: Box) {
    function Unwrap(): array<real> {
      match this
      case Raw(a) => a
      case Wrapped(b) => b.bounds
    }
  }

  /**
   * The object `create` returns. Its `bounds` is the caller's own array,
   * normalized in place, so later writes to that array show through.
   */
  class Box {
    const bounds: array<real>

    ghost predicate Valid() {
      bounds.Length == 4
    }

    constructor (b: array<real>)
      requires b.Length == 4
      modifies b
      ensures bounds == b && Valid()
      ensures b[..] == Normalized(old(b[..]))
      ensures IsNormal(b[..])
    {
      var same := Normalize(b);
      bounds := same;
    }

    /** The wrapper's `contains`: the free `contains` on its own bounds. */
    function ContainsPoint(p: Point): (r: bool)
      reads bounds
      requires Valid()
      ensures r == Contains(bounds[..], p)
      ensures r <==> bounds[LEFT] <= p.x <= bounds[RIGHT] && bounds[TOP] <= p.y <= bounds[BOTTOM]
    {
      Contains(bounds[..], p)
    }

    /** The wrapper's `intersects`, with a wrapper argument unwrapped first. */
    function IntersectsWith(other: RectArg): (r: bool)
      reads bounds, other.Unwrap()
      requires Valid() && other.Unwrap().Length == 4
      ensures r == Intersects(bounds[..], other.Unwrap()[..])
      ensures other.Wrapped? ==> r == Intersects(bounds[..], other.box.bounds[..])
    {
      Intersects(bounds[..], other.Unwrap()[..])
    }

    /** The wrapper's `outside`, with a wrapper argument unwrapped first. */
    function OutsideOf(other: RectArg): (r: bool)
      reads bounds, other.Unwrap()
      requires Valid() && other.Unwrap().Length == 4
      ensures r == Outside(bounds[..], other.Unwrap()[..])
      ensures r == !IntersectsWith(other)
    {
      Outside(bounds[..], other.Unwrap()[..])
    }
  }
}
