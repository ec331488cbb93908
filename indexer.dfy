/**
 * The variable indexer of SudokuSolver.java: the triple (row r, column c,
 * value v), all zero-based, is the Boolean variable "cell (r, c) holds v + 1",
 * numbered r * N^2 + c * N + v + 1 on an N x N board.  The decoder of
 * buildSolution inverts it with remainder and division.
 */
module Indexer {
  import opened Arith

  /** A decoded variable: zero-based row, column and value. */
  datatype Slot = Slot(row: int, col: int, value: int)

  /**
   * Variable id of (r, c, v); `var` in the source.  For a column and value on
   * the board, the id minus one is the base-N number with digits r, c, v: the
   * remainder by N is v and the quotient is r * N + c.
   */
  function Var(r: int, c: int, v: int, N: int): (x: int)
    ensures 0 <= c < N && 0 <= v < N ==> (x - 1) % N == v && (x - 1) / N == r * N + c
  {
    if 0 <= c < N && 0 <= v < N then
      assert r * N * N + c * N + v == (r * N + c) * N + v;
      DivModUnique(r * N + c, v, N);
      r * N * N + c * N + v + 1
    else
      r * N * N + c * N + v + 1
  }

  /**
   * The inline decoding of a positive literal in buildSolution.  Every operand
   * is non-negative, so Dafny's Euclidean `/` and `%` agree with Java's.
   */
  function DecodeVar(lit: int, N: int): (s: Slot)
    requires lit >= 1 && N >= 1
    ensures 0 <= s.row && 0 <= s.col < N && 0 <= s.value < N
  {
    var x := lit - 1;
    var tmp := x / N;
    Slot(tmp / N, tmp % N, x % N)
  }

  /** Every in-range triple is numbered within [1, N^3], the declared variable count. */
  lemma VarRange(r: int, c: int, v: int, N: int)
    requires 0 <= r < N && 0 <= c < N && 0 <= v < N
    ensures 1 <= Var(r, c, v, N) <= N * N * N
  {
    MulMonotone(0, r, N);
    MulMonotone(0, r * N, N);
    MulMonotone(0, c, N);
    MulMonotone(r, N - 1, N);
    MulMonotone(r * N, (N - 1) * N, N);
    MulMonotone(c, N - 1, N);
    assert (N - 1) * N * N + (N - 1) * N + (N - 1) + 1 == N * N * N;
  }

  /** Decoding the variable of an in-range triple gives the triple back. */
  lemma DecodeVarRoundTrip(r: int, c: int, v: int, N: int)
    requires 0 <= r < N && 0 <= c < N && 0 <= v < N
    ensures Var(r, c, v, N) >= 1
    ensures DecodeVar(Var(r, c, v, N), N) == Slot(r, c, v)
  {
    VarRange(r, c, v, N);
    var x := Var(r, c, v, N) - 1;
    assert x == (r * N + c) * N + v;
    DivModUnique(r * N + c, v, N);
    DivModUnique(r, c, N);
  }

  /** Distinct in-range triples get distinct variables. */
  lemma VarInjective(r1: int, c1: int, v1: int, r2: int, c2: int, v2: int, N: int)
    requires 0 <= r1 < N && 0 <= c1 < N && 0 <= v1 < N
    requires 0 <= r2 < N && 0 <= c2 < N && 0 <= v2 < N
    ensures Var(r1, c1, v1, N) == Var(r2, c2, v2, N) <==> r1 == r2 && c1 == c2 && v1 == v2
  {
    DecodeVarRoundTrip(r1, c1, v1, N);
    DecodeVarRoundTrip(r2, c2, v2, N);
  }

  /** Re-encoding a decoded positive literal gives the literal back. */
  lemma VarOfDecode(lit: int, N: int)
    requires lit >= 1 && N >= 1
    ensures var s := DecodeVar(lit, N); Var(s.row, s.col, s.value, N) == lit
  {
    var x := lit - 1;
    var tmp := x / N;
    assert x == tmp * N + x % N;
    assert tmp == (tmp / N) * N + tmp % N;
    assert x == (tmp / N) * N * N + (tmp % N) * N + x % N;
  }

  /**
   * A positive literal decodes to a row on the board exactly when it is at most
   * N^3; column and value are always in range.
   */
  lemma DecodeRowInRange(lit: int, N: int)
    requires lit >= 1 && N >= 1
    ensures DecodeVar(lit, N).row < N <==> lit <= N * N * N
  {
    var s := DecodeVar(lit, N);
    VarOfDecode(lit, N);
    if s.row < N {
      VarRange(s.row, s.col, s.value, N);
    } else {
      MulMonotone(N, s.row, N);
      MulMonotone(N * N, s.row * N, N);
      MulMonotone(0, s.col, N);
    }
  }
}
