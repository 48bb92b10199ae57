/** Pixel coordinates and the integer circle radius the labeler commits.
    The source takes `int(math.sqrt(dx*dx + dy*dy))`; for pixel-range integers
    that is the floor of the exact square root, which is what FloorSqrt gives. */
module Geometry {

  datatype Point = Point(x: int, y: int)

  /** Squared Euclidean distance between two pixels. */
  function SquaredDistance(a: Point, b: Point): (d: int)
    ensures d >= 0
    ensures d == 0 <==> a == b
  {
    var dx, dy := b.x - a.x, b.y - a.y;
    SquareNonNegative(dx);
    SquareNonNegative(dy);
    dx * dx + dy * dy
  }

  lemma SquareNonNegative(k: int)
    ensures k * k >= 0
    ensures k != 0 ==> k * k >= 1
  {
    if k < 0 {
      assert k * k == (-k) * (-k);
    }
  }

  lemma SquareMonotone(a: nat, b: nat)
    requires a <= b
    ensures a * a <= b * b
  {
    assert a * a <= a * b;
    assert a * b <= b * b;
  }

  /** The integer square root of n, computed from the root of n / 4. */
  function FloorSqrt(n: nat): nat
    decreases n
  {
    if n < 2 then n
    else
      var r := 2 * FloorSqrt(n / 4);
      if (r + 1) * (r + 1) <= n then r + 1 else r
  }

  /** FloorSqrt(n) is the largest r with r*r <= n. */
  lemma {:induction false} FloorSqrtBounds(n: nat)
    ensures var r := FloorSqrt(n); r * r <= n < (r + 1) * (r + 1)
    decreases n
  {
    if n >= 2 {
      FloorSqrtBounds(n / 4);
      DoubledRoot(n, FloorSqrt(n / 4));
    }
  }

  /** A root of n / 4, doubled, is within two of a root of n. */
  lemma DoubledRoot(n: nat, s: nat)
    requires s * s <= n / 4 < (s + 1) * (s + 1)
    ensures (2 * s) * (2 * s) <= n < (2 * s + 2) * (2 * s + 2)
  {
    var q := n / 4;
    assert 4 * q <= n < 4 * q + 4;
    assert (2 * s) * (2 * s) == 4 * (s * s);
    assert (2 * s + 2) * (2 * s + 2) == 4 * ((s + 1) * (s + 1));
  }

  /** The bounds of FloorSqrtBounds determine the root. */
  lemma FloorSqrtUnique(n: nat, r: nat)
    requires r * r <= n < (r + 1) * (r + 1)
    ensures FloorSqrt(n) == r
  {
    var s := FloorSqrt(n);
    FloorSqrtBounds(n);
    if s < r {
      SquareMonotone(s + 1, r);
    } else if r < s {
      SquareMonotone(r + 1, s);
    }
  }

  /** The radius committed for a drag from `origin` to `p`: the Euclidean
      distance truncated towards zero. */
  function Radius(origin: Point, p: Point): nat {
    FloorSqrt(SquaredDistance(origin, p))
  }

  /** The radius is the truncated distance, and it is 0 exactly when the
      release is on the origin: a zero radius is committed, not rejected. */
  lemma RadiusBounds(origin: Point, p: Point)
    ensures var r := Radius(origin, p);
            && r * r <= SquaredDistance(origin, p) < (r + 1) * (r + 1)
            && (r == 0 <==> origin == p)
  {
    FloorSqrtBounds(SquaredDistance(origin, p));
  }

  /** The drag press(10,10) .. release(13,14) gives radius 5 (a 3-4-5 triangle). */
  lemma RadiusOfThreeFourFive()
    ensures Radius(Point(10, 10), Point(13, 14)) == 5
  {
    assert SquaredDistance(Point(10, 10), Point(13, 14)) == 25;
    FloorSqrtUnique(25, 5);
  }
}
