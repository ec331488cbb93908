/**
 * Integer facts shared by the encoder and the board checker: the uniqueness of
 * Euclidean division, the layout of an n x n block, and the integer square root
 * that stands in for `(int) Math.sqrt(x)`.
 */
module Arith {

  lemma MulMonotone(a: int, b: int, c: int)
    requires a <= b && 0 <= c
    ensures a * c <= b * c
  {
  }

  /** Division and remainder by n are determined by any q, r with 0 <= r < n. */
  lemma {:induction false} DivModUnique(q: int, r: int, n: int)
    requires n > 0 && 0 <= r < n
    ensures (q * n + r) / n == q && (q * n + r) % n == r
  {
    var x := q * n + r;
    var d := x / n - q;
    assert n * (x / n) == n * d + n * q;
    assert n * d == r - x % n;
    if d > 0 {
      MulMonotone(1, d, n);
    } else if d < 0 {
      MulMonotone(d, -1, n);
    }
  }

  /** The flat index idx = dr * n + dc of a cell inside an n x n block is below n * n. */
  lemma BlockIndexBound(dr: int, dc: int, n: int)
    requires 0 <= dr < n && 0 <= dc < n
    ensures 0 <= dr * n + dc < n * n
  {
    MulMonotone(dr + 1, n, n);
    MulMonotone(0, dr, n);
  }

  /** Row b * n + idx / n and column b * n + idx % n of a block cell stay on the board. */
  lemma BlockCoordinateBound(b: int, idx: int, n: int)
    requires 0 <= b < n && 0 <= idx < n * n
    ensures 0 <= idx / n < n && 0 <= idx % n < n
    ensures 0 <= b * n + idx / n < n * n && 0 <= b * n + idx % n < n * n
  {
    var q := idx / n;
    assert idx == q * n + idx % n;
    if q >= n {
      MulMonotone(n, q, n);
    }
    if q < 0 {
      MulMonotone(q, -1, n);
    }
    BlockIndexBound(b, q, n);
    BlockIndexBound(b, idx % n, n);
  }

  lemma SquareMonotone(a: nat, b: nat)
    requires a <= b
    ensures a * a <= b * b
  {
    MulMonotone(a, b, a);
    MulMonotone(a, b, b);
  }

  /** The largest k with k * k <= x, searched upwards from k. */
  function SqrtFrom(x: nat, k: nat): (r: nat)
    requires k * k <= x
    ensures k <= r && r * r <= x < (r + 1) * (r + 1)
    decreases x - k
  {
    if (k + 1) * (k + 1) > x then k
    else
      MulMonotone(1, k + 1, k + 1);
      SqrtFrom(x, k + 1)
  }

  /** The integer square root, the value of `(int) Math.sqrt(x)`. */
  function FloorSqrt(x: nat): (r: nat)
    ensures r * r <= x < (r + 1) * (r + 1)
  {
    SqrtFrom(x, 0)
  }

  /** The perfect-square test of the source: the truncated root squared gives x back. */
  predicate IsPerfectSquare(x: nat)
  {
    FloorSqrt(x) * FloorSqrt(x) == x
  }

  /** The test agrees with the mathematical notion "x is some k squared". */
  lemma PerfectSquareIff(x: nat)
    ensures IsPerfectSquare(x) <==> exists k: nat :: k * k == x
  {
    var r := FloorSqrt(x);
    if k: nat :| k * k == x {
      if k < r {
        SquareMonotone(k + 1, r);
      } else if r < k {
        SquareMonotone(r + 1, k);
      }
      assert r == k;
    }
  }

  /** For x = n * n the truncated root is exactly n. */
  lemma FloorSqrtOfSquare(n: nat)
    ensures FloorSqrt(n * n) == n
  {
    var r := FloorSqrt(n * n);
    if r < n {
      SquareMonotone(r + 1, n);
    }
  }
}
